/** Forms as clients write them, section 4 of RFC 7578, and what the parser makes of them. */
module MultipartForm {
  import opened Common
  import opened Bytes
  import opened Multipart

  // ----- writing -----

  /** A line ends with CR LF or with LF alone. */
  predicate LineEnd(nl: bytes) { nl == CRLF || nl == [LF] }

  function JoinLines(nl: bytes, ls: seq<bytes>): bytes {
    if ls == [] then [] else if |ls| == 1 then ls[0] else ls[0] + (nl + JoinLines(nl, ls[1..]))
  }

  /** What a parameter of a header gives the part; `mime` is written under some spelling of content_type. */
  datatype Kind = Name | Filename | Mime(key: bytes) | Other

  /** A parameter behind a semicolon and white space. */
  datatype Param = Param(gap: bytes, kind: Kind, value: bytes)

  function Quoted(key: bytes, value: bytes): bytes { key + ([EQUALS] + ([QUOTE] + (value + [QUOTE]))) }

  function ParamText(p: Param): bytes {
    match p.kind
    case Name => Quoted(NAME, p.value)
    case Filename => Quoted(FILENAME, p.value)
    case Mime(key) => key + ([EQUALS] + p.value)
    case Other => p.value
  }

  function Tail(ps: seq<Param>): bytes {
    if ps == [] then [] else [SEMICOLON] + (ps[0].gap + (ParamText(ps[0]) + Tail(ps[1..])))
  }

  /** A header as the lines it is folded into; one with parameters says what they say. */
  datatype Header = Silent(lines: seq<bytes>) | Speaking(lines: seq<bytes>, opening: bytes, params: seq<Param>)

  /** A part: its headers, its content and the line ends it is written with. */
  datatype Part = Part(nl: bytes, headers: seq<Header>, content: bytes)

  function AllLines(hs: seq<Header>): seq<bytes> {
    if hs == [] then [] else hs[0].lines + AllLines(hs[1..])
  }

  function PartText(p: Part): bytes { JoinLines(p.nl, AllLines(p.headers)) + ((p.nl + p.nl) + p.content) }

  function Framed(p: Part): bytes { p.nl + (PartText(p) + p.nl) }

  /** What follows the first delimiter. */
  function Following(ps: seq<Part>, d: bytes, epilogue: bytes): bytes {
    if ps == [] then MINUSES + epilogue else Framed(ps[0]) + (d + Following(ps[1..], d, epilogue))
  }

  function Render(ps: seq<Part>, d: bytes, epilogue: bytes): bytes { d + Following(ps, d, epilogue) }

  // ----- what may be written -----

  predicate OneLine(t: bytes) { CR !in t && LF !in t }

  /** A key that names nothing the parser keeps. */
  predicate OtherKey(key: bytes) { key != NAME && key != FILENAME && !IsContentType(key) }

  predicate IsLine(t: bytes) { t != [] && OneLine(t) && t[0] != SPACE && t[0] != TAB }

  predicate IsFold(t: bytes) { t != [] && OneLine(t) && (t[0] == SPACE || t[0] == TAB) }

  predicate AreLines(ls: seq<bytes>) {
    forall i :: 0 <= i < |ls| ==> ls[i] != [] && OneLine(ls[i])
  }

  predicate AreFolds(ls: seq<bytes>) {
    forall i :: 0 <= i < |ls| ==> IsFold(ls[i])
  }

  predicate White(t: bytes) { forall i :: 0 <= i < |t| ==> IsSpace(t[i]) }

  /** Not empty, and without white space at either end. */
  predicate Tight(t: bytes) { t != [] && !IsSpace(t[0]) && !IsSpace(t[|t| - 1]) }

  predicate ParamOk(p: Param) {
    && White(p.gap) && SEMICOLON !in p.value
    && match p.kind
       case Name => true
       case Filename => true
       case Mime(key) => IsContentType(key) && Tight(p.value)
       case Other => Tight(p.value) && OtherKey(Before(p.value, [EQUALS]))
  }

  /** The start of a header, such as `Content-Disposition: form-data`. */
  predicate Opening(t: bytes) { t != [] && SEMICOLON !in t && OtherKey(Before(t, [EQUALS])) }

  /** No parameter of the line is one the parser keeps. */
  predicate Quiet(line: bytes)
    decreases |line|
  {
    line == [] ||
    (OtherKey(Before(Before(line, [SEMICOLON]), [EQUALS])) &&
     (TrimmedSize(After(line, [SEMICOLON]));
      Quiet(Trimmed(After(line, [SEMICOLON])))))
  }

  /** A line that does not start with a blank, and lines folded onto it that do. */
  predicate Folded(ls: seq<bytes>) { ls != [] && IsLine(ls[0]) && AreFolds(ls[1..]) }

  predicate HeaderOk(nl: bytes, h: Header) {
    && Folded(h.lines)
    && match h
       case Silent(ls) => Quiet(JoinLines(nl, ls))
       case Speaking(ls, opening, ps) =>
         && Opening(opening) && (forall i :: 0 <= i < |ps| ==> ParamOk(ps[i]))
         && JoinLines(nl, ls) == opening + Tail(ps)
  }

  ghost predicate Free(t: bytes, d: bytes) {
    forall i :: !MatchAt(t, d, i)
  }

  predicate Delimiter(d: bytes) { d != [] && OneLine(d) }

  /** With LF alone, content must not hold what CR LF line ends would look like. */
  ghost predicate ContentOk(nl: bytes, content: bytes) {
    nl == [LF] ==> Free(content, BLANK_LINE) && (content != [] ==> content[|content| - 1] != CR)
  }

  predicate HeadersOk(nl: bytes, hs: seq<Header>) {
    forall i :: 0 <= i < |hs| ==> HeaderOk(nl, hs[i])
  }

  ghost predicate AllFree(ls: seq<bytes>, d: bytes) {
    forall i :: 0 <= i < |ls| ==> Free(ls[i], d)
  }

  ghost predicate Writable(p: Part, d: bytes) {
    && LineEnd(p.nl) && p.headers != [] && HeadersOk(p.nl, p.headers) && ContentOk(p.nl, p.content)
    && Free(p.content, d) && AllFree(AllLines(p.headers), d)
  }

  // ----- occurrences do not reach across a byte the pattern lacks -----

  lemma FreeAcross(a: bytes, c: byte, b: bytes, d: bytes)
    requires c !in d && Free(a, d) && Free(b, d)
    ensures Free(a + ([c] + b), d)
  {
    var t := a + ([c] + b);
    forall i
      ensures !MatchAt(t, d, i)
    {
      if 0 <= i && i + |d| <= |t| {
        if i + |d| <= |a| {
          assert t[i..i + |d|] == a[i..i + |d|];
          assert !MatchAt(a, d, i);
        } else if i > |a| {
          var k := i - |a| - 1;
          assert t[i..i + |d|] == b[k..k + |d|];
          assert !MatchAt(b, d, k);
        } else {
          assert t[i..i + |d|][|a| - i] == c;
        }
      }
    }
  }

  lemma FreeLines(a: bytes, nl: bytes, b: bytes, d: bytes)
    requires LineEnd(nl) && Delimiter(d) && Free(a, d) && Free(b, d)
    ensures Free(a + (nl + b), d)
  {
    if nl == CRLF {
      FreeAcross([], LF, b, d);
      assert [] + ([LF] + b) == [LF] + b;
      FreeAcross(a, CR, [LF] + b, d);
      assert [CR] + ([LF] + b) == CRLF + b;
    } else {
      FreeAcross(a, LF, b, d);
    }
  }

  /** A delimiter behind text that ends with a line end: no earlier occurrence. */
  lemma FirstBehind(a: bytes, c: byte, d: bytes, rest: bytes, j: nat)
    requires Free(a, d) && |a| > 0 && a[|a| - 1] == c && c !in d && j < |a|
    ensures !MatchAt(a + (d + rest), d, j)
  {
    var t := a + (d + rest);
    if j + |d| <= |a| {
      assert t[j..j + |d|] == a[j..j + |d|];
      assert !MatchAt(a, d, j);
    } else if j + |d| <= |t| {
      assert t[j..j + |d|][|a| - 1 - j] == c;
    }
  }

  lemma SplitFirst(s: bytes, v: Span, a: bytes, d: bytes, rest: bytes)
    requires v.In(s) && d != [] && Text(s, v) == a + (d + rest)
    requires forall j :: 0 <= j < |a| ==> !MatchAt(a + (d + rest), d, j)
    ensures var c := Split(s, v, d);
      && c.found && c.first == Span(v.b, v.b + |a|) && c.second == Span(v.b + |a| + |d|, v.e)
      && Text(s, c.first) == a && Text(s, c.second) == rest
  {
    var t := a + (d + rest);
    assert t[|a|..|a| + |d|] == d;
    FindIs(t, d, |a|);
    SplitAtText(s, v, |a|, |d|);
    assert t[..|a|] == a && t[|a| + |d|..] == rest;
  }

  lemma SplitNone(s: bytes, v: Span, d: bytes)
    requires v.In(s) && d != [] && Free(Text(s, v), d)
    ensures Split(s, v, d) == Cut(false, v, NIL)
  {
    FindIs(Text(s, v), d, |Text(s, v)|);
  }

  lemma FreeByte(t: bytes, d: bytes)
    requires d != [] && d[0] !in t
    ensures Free(t, d)
  {
    forall i
      ensures !MatchAt(t, d, i)
    {
      if 0 <= i && i + |d| <= |t| {
        assert t[i] == t[i..i + |d|][0];
      }
    }
  }

  // ----- finding one byte -----

  lemma BeforeByte(a: bytes, c: byte, b: bytes)
    requires c !in a
    ensures Before(a + ([c] + b), [c]) == a && After(a + ([c] + b), [c]) == b
  {
    var t := a + ([c] + b);
    assert t[|a|..|a| + 1] == [c];
    forall j | 0 <= j < |a|
      ensures !MatchAt(t, [c], j)
    {
      assert t[j] == a[j];
      assert t[j..j + 1][0] == t[j];
    }
    FindIs(t, [c], |a|);
    assert t[..|a|] == a && t[|a| + 1..] == b;
  }

  lemma WithoutByte(t: bytes, c: byte)
    requires c !in t
    ensures Before(t, [c]) == t && After(t, [c]) == []
  {
    FreeByte(t, [c]);
    FindIs(t, [c], |t|);
    assert t[..|t|] == t;
  }

  // ----- one line -----

  lemma {:induction false} TrimKeeps(gap: bytes, t: bytes)
    requires White(gap) && Tight(t)
    ensures Trimmed(gap + t) == t
  {
    if gap == [] {
      assert gap + t == t;
      assert Trimmed(t) == TrimRight(t) == t;
    } else {
      assert (gap + t)[1..] == gap[1..] + t && (gap + t)[0] == gap[0];
      TrimKeeps(gap[1..], t);
    }
  }

  lemma {:induction false} TrimRightDrops(r: bytes, gap: bytes)
    requires White(gap) && (r == [] || !IsSpace(r[|r| - 1]))
    ensures TrimRight(r + gap) == r
  {
    if gap == [] {
      assert r + gap == r;
    } else {
      var t := r + gap;
      assert t[..|t| - 1] == r + gap[..|gap| - 1] && t[|t| - 1] == gap[|gap| - 1];
      TrimRightDrops(r, gap[..|gap| - 1]);
    }
  }

  /** Exactly the white space at both ends is trimmed. */
  lemma {:induction false} TrimmedExactly(a: bytes, r: bytes, b: bytes)
    requires White(a) && White(b) && (r == [] || Tight(r))
    ensures Trimmed(a + (r + b)) == r
    decreases |a| + |b|
  {
    var t := a + (r + b);
    if a != [] {
      assert t[1..] == a[1..] + (r + b) && t[0] == a[0];
      TrimmedExactly(a[1..], r, b);
    } else if r == [] && b != [] {
      assert t == b && t[1..] == [] + ([] + b[1..]);
      TrimmedExactly([], [], b[1..]);
    } else {
      assert t == r + b;
      TrimRightDrops(r, b);
    }
  }

  lemma TrimTight(t: bytes)
    requires Tight(t)
    ensures Trimmed(t) == t
  {
    TrimKeeps([], t);
    assert [] + t == t;
  }

  lemma InnerQuoted(value: bytes)
    ensures Inner([QUOTE] + (value + [QUOTE])) == value
  {
  }

  function Given(p: Param, n: Names): Names {
    match p.kind
    case Name => n.(name := p.value)
    case Filename => n.(filename := p.value)
    case Mime(_) => n.(mime := p.value)
    case Other => n
  }

  function AllGiven(ps: seq<Param>, n: Names): Names {
    if ps == [] then n else AllGiven(ps[1..], Given(ps[0], n))
  }

  /** A part of a line between semicolons, with the key and value it holds. */
  function Assigned(head: bytes, n: Names): Names { Assign(n, Before(head, [EQUALS]), After(head, [EQUALS])) }

  lemma ContentTypeKey(key: bytes)
    requires IsContentType(key)
    ensures EQUALS !in key && SEMICOLON !in key && key != [] && !IsSpace(key[0]) && key != NAME && key != FILENAME
  {
    assert forall i :: 0 <= i < |CONTENT_TYPE| ==> CONTENT_TYPE[i] > 61;
    assert forall i :: 0 <= i < |key| ==> Lower(key[i]) == CONTENT_TYPE[i];
  }

  lemma ParamAssigns(p: Param, n: Names)
    requires ParamOk(p)
    ensures Assigned(ParamText(p), n) == Given(p, n)
  {
    var quoted := [QUOTE] + (p.value + [QUOTE]);
    match p.kind
    case Name =>
      BeforeByte(NAME, EQUALS, quoted);
      InnerQuoted(p.value);
    case Filename =>
      BeforeByte(FILENAME, EQUALS, quoted);
      InnerQuoted(p.value);
    case Mime(key) =>
      ContentTypeKey(key);
      BeforeByte(key, EQUALS, p.value);
      TrimTight(p.value);
    case Other =>
  }

  lemma ParamShape(p: Param)
    requires ParamOk(p)
    ensures Tight(ParamText(p)) && SEMICOLON !in ParamText(p)
  {
    if p.kind.Mime? {
      ContentTypeKey(p.kind.key);
      var t := ParamText(p);
      assert t[0] == p.kind.key[0] && t[|t| - 1] == p.value[|p.value| - 1];
    }
  }

  lemma TailEnds(ps: seq<Param>)
    requires forall i :: 0 <= i < |ps| ==> ParamOk(ps[i])
    ensures ps != [] ==> Tail(ps) != [] && Tail(ps)[0] == SEMICOLON && !IsSpace(Tail(ps)[|Tail(ps)| - 1])
    decreases |ps|
  {
    if ps != [] {
      ParamShape(ps[0]);
      TailEnds(ps[1..]);
    }
  }

  /** The parameters of a line take effect one after the other. */
  lemma {:induction false} LineSays(first: bytes, ps: seq<Param>, n: Names)
    requires first != [] && SEMICOLON !in first && forall i :: 0 <= i < |ps| ==> ParamOk(ps[i])
    ensures LineNames(first + Tail(ps), n) == AllGiven(ps, Assigned(first, n))
    decreases |ps|
  {
    if ps == [] {
      assert first + Tail(ps) == first;
      WithoutByte(first, SEMICOLON);
      assert Trimmed([]) == [];
    } else {
      var t, rest := ParamText(ps[0]), Tail(ps[1..]);
      ParamShape(ps[0]);
      TailEnds(ps[1..]);
      assert Tight(t + rest);
      BeforeByte(first, SEMICOLON, ps[0].gap + (t + rest));
      TrimKeeps(ps[0].gap, t + rest);
      LineSays(t, ps[1..], Assigned(first, n));
      ParamAssigns(ps[0], Assigned(first, n));
    }
  }

  lemma {:induction false} QuietNames(line: bytes, n: Names)
    requires Quiet(line)
    ensures LineNames(line, n) == n
    decreases |line|
  {
    if line != [] {
      TrimmedSize(After(line, [SEMICOLON]));
      QuietNames(Trimmed(After(line, [SEMICOLON])), n);
    }
  }

  function Said(h: Header, n: Names): Names { if h.Silent? then n else AllGiven(h.params, n) }

  function AllSaid(hs: seq<Header>, n: Names): Names {
    if hs == [] then n else AllSaid(hs[1..], Said(hs[0], n))
  }

  /** A header gives the part the name, the file name and the type its parameters hold. */
  lemma DispositionNames(nl: bytes, h: Header, n: Names)
    requires HeaderOk(nl, h)
    ensures LineNames(JoinLines(nl, h.lines), n) == Said(h, n)
  {
    if h.Silent? {
      QuietNames(JoinLines(nl, h.lines), n);
    } else {
      LineSays(h.opening, h.params, n);
      assert Assigned(h.opening, n) == n;
    }
  }

  // ----- the header lines -----

  lemma NoneBefore(a: bytes, d: bytes, rest: bytes, j: nat)
    requires d != [] && d[0] !in a && j < |a|
    ensures !MatchAt(a + (d + rest), d, j)
  {
    var t := a + (d + rest);
    if j + |d| <= |t| {
      assert t[j..j + |d|][0] == a[j];
    }
  }

  lemma JoinFirst(nl: bytes, ls: seq<bytes>)
    requires ls != [] && AreLines(ls)
    ensures JoinLines(nl, ls) != [] && JoinLines(nl, ls)[0] == ls[0][0] && ls[0] != [] && OneLine(ls[0])
  {
  }

  lemma {:induction false} JoinParts(nl: bytes, a: seq<bytes>, b: seq<bytes>)
    requires a != [] && b != []
    ensures JoinLines(nl, a + b) == JoinLines(nl, a) + (nl + JoinLines(nl, b))
  {
    var rest := nl + JoinLines(nl, b);
    if |a| == 1 {
      assert (a + b)[1..] == b;
    } else {
      JoinParts(nl, a[1..], b);
      assert (a + b)[1..] == a[1..] + b;
      Regroup3(a[0], nl, JoinLines(nl, a[1..]), rest);
    }
  }

  lemma {:induction false} JoinWithoutCR(ls: seq<bytes>)
    requires AreLines(ls)
    ensures CR !in JoinLines([LF], ls)
  {
    if ls != [] {
      assert OneLine(ls[0]);
      JoinWithoutCR(ls[1..]);
    }
  }

  /** The first of the lines, and the others behind a line end. */
  ghost predicate CutsFirst(nl: bytes, s: bytes, v: Span, c: Cut, ls: seq<bytes>) {
    && ls != [] && c.first.In(s) && c.second.In(s) && c.first.b == v.b && Text(s, c.first) == ls[0]
    && if |ls| == 1 then c.second == NIL
       else c.second == Span(c.first.e + |nl|, v.e) && Text(s, c.second) == JoinLines(nl, ls[1..]) && s[c.first.e..c.second.b] == nl
  }

  /** The next line of the joined lines is the first of them. */
  lemma LineAt(nl: bytes, s: bytes, v: Span, ls: seq<bytes>)
    requires LineEnd(nl) && v.In(s) && ls != [] && AreLines(ls) && Text(s, v) == JoinLines(nl, ls)
    ensures !v.Empty() && CutsFirst(nl, s, v, NextLine(s, v), ls)
  {
    JoinFirst(nl, ls);
    if |ls| == 1 {
      FreeByte(ls[0], CRLF);
      FreeByte(ls[0], [LF]);
      SplitNone(s, v, CRLF);
      SplitNone(s, v, [LF]);
    } else {
      LineThen(nl, s, v, ls[0], JoinLines(nl, ls[1..]));
      if nl == [LF] {
        JoinWithoutCR(ls);
        FreeByte(JoinLines(nl, ls), CRLF);
        SplitNone(s, v, CRLF);
      }
    }
  }

  lemma LineThen(nl: bytes, s: bytes, v: Span, line: bytes, rest: bytes)
    requires LineEnd(nl) && v.In(s) && OneLine(line) && Text(s, v) == line + (nl + rest)
    ensures var c := Split(s, v, nl);
      && c.found && c.first == Span(v.b, v.b + |line|) && c.second == Span(c.first.e + |nl|, v.e)
      && Text(s, c.first) == line && Text(s, c.second) == rest && s[c.first.e..c.second.b] == nl
  {
    forall j | 0 <= j < |line|
      ensures !MatchAt(line + (nl + rest), nl, j)
    {
      NoneBefore(line, nl, rest, j);
    }
    SplitFirst(s, v, line, nl, rest);
    SliceOfSlice(s, v.b, v.e, |line|, |line| + |nl|);
    assert (line + (nl + rest))[|line|..|line| + |nl|] == nl;
  }

  lemma NotFolded(s: bytes, v: Span)
    requires v.In(s) && IsLine(Text(s, v))
    ensures !Folds(s, v)
  {
    assert s[v.b..v.b + 1][0] == Text(s, v)[0];
  }

  lemma IsFolded(s: bytes, v: Span)
    requires v.In(s) && IsFold(Text(s, v))
    ensures Folds(s, v)
  {
    assert s[v.b..v.b + 1] == [Text(s, v)[0]];
  }

  lemma TakeStarts(s: bytes, v: Span)
    requires v.In(s) && !v.Empty() && !Folds(s, NextLine(s, v).first)
    ensures TakeLine(s, v, NIL, false) == TakeLine(s, NextLine(s, v).second, NextLine(s, v).first, true)
  {
  }

  lemma TakeStops(s: bytes, tail: Span, line: Span)
    requires tail.In(s) && line.In(s) && (line.b <= tail.b || tail.Empty())
    requires tail.Empty() || !Folds(s, NextLine(s, tail).first)
    ensures TakeLine(s, tail, line, true) == (line, tail)
  {
  }

  lemma TakeGrows(s: bytes, tail: Span, line: Span, c: Cut)
    requires tail.In(s) && !tail.Empty() && line.In(s) && line.b <= tail.b && c == NextLine(s, tail) && Folds(s, c.first)
    ensures TakeLine(s, tail, line, true) == TakeLine(s, c.second, Span(line.b, c.first.e), true)
  {
  }

  lemma Extended(nl: bytes, s: bytes, line: Span, first: Span)
    requires line.In(s) && first.In(s) && line.e <= first.b && s[line.e..first.b] == nl
    ensures Text(s, Span(line.b, first.e)) == Text(s, line) + (nl + Text(s, first))
  {
  }

  /** `line` and, behind a line end, `v`: the lines still to come. */
  ghost predicate Ahead(nl: bytes, s: bytes, line: Span, v: Span, ls: seq<bytes>) {
    && v.In(s) && line.In(s)
    && if ls == [] then v.Empty()
       else line.e + |nl| == v.b && s[line.e..v.b] == nl && Text(s, v) == JoinLines(nl, ls)
  }

  /** A line that reads `text`, and the lines behind it. */
  ghost predicate Took(nl: bytes, s: bytes, r: (Span, Span), text: bytes, rest: seq<bytes>) {
    && r.0.In(s) && r.1.In(s) && Text(s, r.0) == text
    && if rest == [] then r.1.Empty() else Text(s, r.1) == JoinLines(nl, rest)
  }

  function WithFolds(nl: bytes, text: bytes, folds: seq<bytes>): bytes {
    if folds == [] then text else text + (nl + JoinLines(nl, folds))
  }

  lemma WithFirstFold(nl: bytes, text: bytes, folds: seq<bytes>)
    requires folds != []
    ensures WithFolds(nl, text + (nl + folds[0]), folds[1..]) == WithFolds(nl, text, folds)
  {
    if |folds| > 1 {
      Grouped(text, nl, folds[0], JoinLines(nl, folds[1..]));
    }
  }

  /** A line with its folds, and the lines behind them. */
  lemma {:induction false} TakeFolds(nl: bytes, s: bytes, v: Span, line: Span, folds: seq<bytes>, rest: seq<bytes>)
    requires LineEnd(nl) && Ahead(nl, s, line, v, folds + rest) && (line.b <= v.b || v.Empty())
    requires AreFolds(folds) && AreLines(rest) && (rest != [] ==> IsLine(rest[0]))
    ensures Took(nl, s, TakeLine(s, v, line, true), WithFolds(nl, Text(s, line), folds), rest)
    decreases |folds|
  {
    if folds == [] {
      assert folds + rest == rest;
      NoFolds(nl, s, v, line, rest);
    } else {
      var ls := folds + rest;
      assert ls[0] == folds[0] && ls[1..] == folds[1..] + rest;
      FoldsAreLines(folds, rest);
      var line', v' := FoldStep(nl, s, v, line, ls);
      TakeFolds(nl, s, v', line', folds[1..], rest);
      WithFirstFold(nl, Text(s, line), folds);
    }
  }

  lemma NoFolds(nl: bytes, s: bytes, v: Span, line: Span, rest: seq<bytes>)
    requires LineEnd(nl) && Ahead(nl, s, line, v, rest) && (line.b <= v.b || v.Empty())
    requires AreLines(rest) && (rest != [] ==> IsLine(rest[0]))
    ensures Took(nl, s, TakeLine(s, v, line, true), Text(s, line), rest)
  {
    if rest != [] {
      LineAt(nl, s, v, rest);
      NotFolded(s, NextLine(s, v).first);
    }
    TakeStops(s, v, line);
  }

  lemma FoldStep(nl: bytes, s: bytes, v: Span, line: Span, ls: seq<bytes>) returns (line': Span, v': Span)
    requires LineEnd(nl) && ls != [] && Ahead(nl, s, line, v, ls) && AreLines(ls) && IsFold(ls[0])
    ensures Ahead(nl, s, line', v', ls[1..]) && Text(s, line') == Text(s, line) + (nl + ls[0])
    ensures line.b <= v.b && (line'.b <= v'.b || v'.Empty())
    ensures TakeLine(s, v, line, true) == TakeLine(s, v', line', true)
  {
    LineAt(nl, s, v, ls);
    var c := NextLine(s, v);
    IsFolded(s, c.first);
    FoldAt(nl, s, v, line, c, ls);
    TakeGrows(s, v, line, c);
    line', v' := Span(line.b, c.first.e), c.second;
  }

  lemma FoldAt(nl: bytes, s: bytes, v: Span, line: Span, c: Cut, ls: seq<bytes>)
    requires ls != [] && Ahead(nl, s, line, v, ls) && CutsFirst(nl, s, v, c, ls)
    ensures var line' := Span(line.b, c.first.e);
      && Ahead(nl, s, line', c.second, ls[1..]) && Text(s, line') == Text(s, line) + (nl + ls[0])
      && (line'.b <= c.second.b || c.second.Empty())
  {
    Extended(nl, s, line, c.first);
  }

  lemma FoldsAreLines(folds: seq<bytes>, rest: seq<bytes>)
    requires AreFolds(folds) && AreLines(rest)
    ensures AreLines(folds + rest)
  {
    var ls := folds + rest;
    forall i | 0 <= i < |ls|
      ensures ls[i] != [] && OneLine(ls[i])
    {
      if i < |folds| {
        assert IsFold(folds[i]);
      } else {
        assert ls[i] == rest[i - |folds|];
      }
    }
  }

  lemma Grouped(a: bytes, nl: bytes, b: bytes, c: bytes)
    ensures a + (nl + b) + (nl + c) == a + (nl + (b + (nl + c)))
  {
  }

  lemma FoldedAreLines(ls: seq<bytes>)
    requires Folded(ls)
    ensures AreLines(ls)
  {
    assert ls == [ls[0]] + ls[1..];
    forall i | 1 <= i < |ls|
      ensures IsFold(ls[i])
    {
      assert ls[i] == ls[1..][i - 1];
    }
  }

  lemma TakeHeader(nl: bytes, s: bytes, v: Span, ls: seq<bytes>, rest: seq<bytes>)
    requires LineEnd(nl) && v.In(s) && Folded(ls) && AreLines(rest) && (rest != [] ==> IsLine(rest[0]))
    requires Text(s, v) == JoinLines(nl, ls + rest)
    ensures !v.Empty() && Took(nl, s, TakeLine(s, v, NIL, false), JoinLines(nl, ls), rest)
  {
    var all, folds := ls + rest, ls[1..];
    FoldsAreLines(folds, rest);
    assert all[0] == ls[0] && all[1..] == folds + rest;
    AddLine(ls[0], folds + rest, all);
    LineAt(nl, s, v, all);
    var c := NextLine(s, v);
    NotFolded(s, c.first);
    TakeStarts(s, v);
    AfterFirst(nl, s, v, c, all);
    TakeFolds(nl, s, c.second, c.first, folds, rest);
  }

  lemma AfterFirst(nl: bytes, s: bytes, v: Span, c: Cut, ls: seq<bytes>)
    requires CutsFirst(nl, s, v, c, ls)
    ensures Ahead(nl, s, c.first, c.second, ls[1..]) && (c.first.b <= c.second.b || c.second.Empty())
  {
  }

  lemma AddLine(l: bytes, ls: seq<bytes>, all: seq<bytes>)
    requires IsLine(l) && AreLines(ls) && all != [] && all[0] == l && all[1..] == ls
    ensures AreLines(all)
  {
    assert all == [l] + ls;
  }

  lemma HeadersAreLines(nl: bytes, hs: seq<Header>)
    requires HeadersOk(nl, hs)
    ensures AreLines(AllLines(hs)) && (hs != [] ==> AllLines(hs) != [] && IsLine(AllLines(hs)[0]))
    decreases |hs|
  {
    if hs != [] {
      assert HeaderOk(nl, hs[0]);
      FoldedAreLines(hs[0].lines);
      HeadersAreLines(nl, hs[1..]);
    }
  }

  /** The headers take effect one after the other, whether folded or not. */
  lemma {:induction false} HeadersFold(nl: bytes, s: bytes, v: Span, hs: seq<Header>, n: Names)
    requires LineEnd(nl) && v.In(s) && HeadersOk(nl, hs)
    requires if hs == [] then v.Empty() else Text(s, v) == JoinLines(nl, AllLines(hs))
    ensures HeaderNames(s, v, n) == AllSaid(hs, n)
    decreases |hs|
  {
    if hs != [] {
      assert HeaderOk(nl, hs[0]);
      var rest := AllLines(hs[1..]);
      HeadersAreLines(nl, hs[1..]);
      assert rest == [] ==> hs[1..] == [];
      TakeHeader(nl, s, v, hs[0].lines, rest);
      var tail := TakeLine(s, v, NIL, false).1;
      DispositionNames(nl, hs[0], n);
      HeadersFold(nl, s, tail, hs[1..], Said(hs[0], n));
    }
  }

  // ----- the blank line -----

  /** Behind a line end of joined lines there is no other. */
  lemma {:induction false} NoBlankInside(nl: bytes, ls: seq<bytes>, j: nat)
    requires LineEnd(nl) && ls != [] && AreLines(ls) && j < |JoinLines(nl, ls)| && JoinLines(nl, ls)[j] == nl[0]
    ensures j + |nl| < |JoinLines(nl, ls)| && JoinLines(nl, ls)[j + |nl|] != nl[0]
  {
    assert ls[0] != [] && OneLine(ls[0]);
    if |ls| > 1 {
      JoinFirst(nl, ls[1..]);
      if j > |ls[0]| + |nl| - 1 {
        NoBlankInside(nl, ls[1..], j - |ls[0]| - |nl|);
      }
    }
  }

  lemma FirstBlank(nl: bytes, ls: seq<bytes>, content: bytes, j: nat)
    requires LineEnd(nl) && ls != [] && AreLines(ls) && j < |JoinLines(nl, ls)|
    ensures !MatchAt(JoinLines(nl, ls) + ((nl + nl) + content), nl + nl, j)
  {
    var h, t := JoinLines(nl, ls), JoinLines(nl, ls) + ((nl + nl) + content);
    assert (nl + nl)[0] == (nl + nl)[|nl|] == nl[0];
    if h[j] == nl[0] {
      NoBlankInside(nl, ls, j);
      Mismatch(t, nl + nl, j, |nl|);
    } else {
      Mismatch(t, nl + nl, j, 0);
    }
  }

  lemma Mismatch(t: bytes, p: bytes, j: nat, i: nat)
    requires i < |p| && j + i < |t| && t[j + i] != p[i]
    ensures !MatchAt(t, p, j)
  {
    if j + |p| <= |t| {
      assert t[j..j + |p|][i] == t[j + i];
    }
  }

  /** With LF alone no blank line of the other kind is found. */
  lemma NoOtherBlank(h: bytes, content: bytes)
    requires CR !in h && Free(content, BLANK_LINE)
    ensures Free(h + ([LF, LF] + content), BLANK_LINE)
  {
    var t := h + ([LF, LF] + content);
    forall i
      ensures !MatchAt(t, BLANK_LINE, i)
    {
      if 0 <= i && i + 4 <= |t| {
        var k := i - |h| - 2;
        if k >= 0 {
          assert t[i..i + 4] == content[k..k + 4];
          assert !MatchAt(content, BLANK_LINE, k);
        } else {
          assert t[i] != CR;
          Mismatch(t, BLANK_LINE, i, 0);
        }
      }
    }
  }

  lemma SectionsAt(nl: bytes, s: bytes, v: Span, ls: seq<bytes>, content: bytes)
    requires LineEnd(nl) && v.In(s) && ls != [] && AreLines(ls) && (nl == [LF] ==> Free(content, BLANK_LINE))
    requires Text(s, v) == JoinLines(nl, ls) + ((nl + nl) + content)
    ensures var c := Sections(s, v); Text(s, c.first) == JoinLines(nl, ls) && Text(s, c.second) == content
  {
    forall j | 0 <= j < |JoinLines(nl, ls)|
      ensures !MatchAt(JoinLines(nl, ls) + ((nl + nl) + content), nl + nl, j)
    {
      FirstBlank(nl, ls, content, j);
    }
    SplitFirst(s, v, JoinLines(nl, ls), nl + nl, content);
    if nl == CRLF {
      assert CRLF + CRLF == BLANK_LINE;
    } else {
      assert nl + nl == [LF, LF];
      JoinWithoutCR(ls);
      NoOtherBlank(JoinLines(nl, ls), content);
      SplitNone(s, v, BLANK_LINE);
    }
  }

  // ----- a part -----

  datatype File = File(remoteName: bytes, mime: bytes, content: bytes)

  /** What the application sees: views are read. */
  datatype Received = Received(args: seq<(bytes, bytes)>, files: map<bytes, File>)

  function Content(s: bytes, v: Span): bytes { if v.In(s) then Text(s, v) else [] }

  function Contents(s: bytes, files: map<bytes, Upload>): map<bytes, File> {
    map k | k in files :: File(files[k].remoteName, files[k].mime, Content(s, files[k].content))
  }

  function Seen(s: bytes, f: Form): Received { Received(f.args, Contents(s, f.files)) }

  /** What the headers of a part say. */
  function Told(p: Part): Names { AllSaid(p.headers, Names([], [], [])) }

  /** What a part adds: nothing without a name, a file if it has a file name, an argument otherwise. */
  function Receive(p: Part, r: Received): Received {
    var n := Told(p);
    if n.name == [] then r
    else if n.filename != [] then r.(files := InsertFirst(r.files, n.name, File(n.filename, n.mime, p.content)))
    else r.(args := r.args + [(n.name, p.content)])
  }

  function ReceiveAll(ps: seq<Part>, r: Received): Received
    decreases |ps|
  {
    if ps == [] then r else ReceiveAll(ps[1..], Receive(ps[0], r))
  }

  lemma PartRead(s: bytes, v: Span, p: Part, d: bytes, f: Form)
    requires v.In(s) && Writable(p, d) && Text(s, v) == PartText(p)
    ensures Seen(s, AddPart(s, v, f)) == Receive(p, Seen(s, f))
  {
    HeadersAreLines(p.nl, p.headers);
    SectionsAt(p.nl, s, v, AllLines(p.headers), p.content);
    var c := Sections(s, v);
    HeadersFold(p.nl, s, c.first, p.headers, Names([], [], []));
    AddedSeen(s, f, p, c.second, Text(s, c.second));
  }

  lemma AddedSeen(s: bytes, f: Form, p: Part, content: Span, text: bytes)
    requires content.In(s) && text == Text(s, content) == p.content
    ensures Seen(s, Added(f, Told(p), content, text)) == Receive(p, Seen(s, f))
  {
    var n := Told(p);
    if n.name != [] && n.filename != [] {
      ContentsInsert(s, f.files, n.name, Upload(n.filename, n.mime, content));
    }
  }

  lemma ContentsInsert(s: bytes, files: map<bytes, Upload>, k: bytes, u: Upload)
    ensures Contents(s, InsertFirst(files, k, u)) ==
      InsertFirst(Contents(s, files), k, File(u.remoteName, u.mime, Content(s, u.content)))
  {
  }

  // ----- the message -----

  /** A piece between delimiters: line ends at both sides, which do not overlap. */
  predicate FrameOk(t: bytes) {
    |t| >= 2 && t[|t| - 1] == LF && (t[0] == LF || (|t| >= 3 && t[0] == CR && t[1] == LF))
  }

  /** How much of a piece is the line end in front of it, and behind it. */
  function FrontEnd(t: bytes): nat { if |t| >= 2 && t[0] == CR && t[1] == LF then 2 else 1 }

  function BackEnd(t: bytes): nat { if |t| >= 2 && t[|t| - 2] == CR && t[|t| - 1] == LF then 2 else 1 }

  lemma StartsByBytes(s: bytes, v: Span)
    requires v.In(s)
    ensures StartsWith(s, v, CRLF) <==> v.Size() >= 2 && s[v.b] == CR && s[v.b + 1] == LF
    ensures StartsWith(s, v, [LF]) <==> v.Size() >= 1 && s[v.b] == LF
  {
    if v.Size() >= 2 {
      assert s[v.b..v.b + 2] == [s[v.b], s[v.b + 1]];
    }
    if v.Size() >= 1 {
      assert s[v.b..v.b + 1] == [s[v.b]];
    }
  }

  lemma EndsByBytes(s: bytes, v: Span)
    requires v.In(s)
    ensures EndsWith(s, v, CRLF) <==> v.Size() >= 2 && s[v.e - 2] == CR && s[v.e - 1] == LF
    ensures EndsWith(s, v, [LF]) <==> v.Size() >= 1 && s[v.e - 1] == LF
  {
    if v.Size() >= 2 {
      assert s[v.e - 2..v.e] == [s[v.e - 2], s[v.e - 1]];
    }
    if v.Size() >= 1 {
      assert s[v.e - 1..v.e] == [s[v.e - 1]];
    }
  }

  /** A piece is accepted exactly if line ends frame it, and they are taken off. */
  lemma StripExactly(s: bytes, v: Span)
    requires v.In(s)
    ensures Strip(s, v).0 <==> FrameOk(Text(s, v))
    ensures var t := Text(s, v);
      FrameOk(t) ==> FrontEnd(t) + BackEnd(t) <= |t| && Strip(s, v).1 == Span(v.b + FrontEnd(t), v.e - BackEnd(t))
  {
    var t := Text(s, v);
    assert forall i :: 0 <= i < |t| ==> t[i] == s[v.b + i];
    EndsByBytes(s, v);
    if |t| > 0 && t[|t| - 1] == LF {
      var h := TrimN(v, 0, BackEnd(t));
      StartsByBytes(s, h);
    }
  }

  lemma StripFrame(nl: bytes, s: bytes, v: Span, x: bytes)
    requires LineEnd(nl) && v.In(s) && x != [] && (nl == [LF] ==> x[|x| - 1] != CR) && Text(s, v) == nl + (x + nl)
    ensures var r := Strip(s, v); r.0 && Text(s, r.1) == x
  {
    var t := Text(s, v);
    StripExactly(s, v);
    SliceOfSlice(s, v.b, v.e, |nl|, |t| - |nl|);
    assert t[|nl|..|t| - |nl|] == x;
  }

  lemma {:induction false} FreeJoined(nl: bytes, ls: seq<bytes>, d: bytes)
    requires LineEnd(nl) && Delimiter(d) && AllFree(ls, d)
    ensures Free(JoinLines(nl, ls), d)
  {
    if ls == [] {
      FreeByte([], d);
    } else {
      assert Free(ls[0], d);
      if |ls| > 1 {
        FreeJoined(nl, ls[1..], d);
        FreeLines(ls[0], nl, JoinLines(nl, ls[1..]), d);
      }
    }
  }

  lemma FreeFramed(p: Part, d: bytes)
    requires Delimiter(d) && Writable(p, d)
    ensures Free(Framed(p), d)
  {
    var h, nl := JoinLines(p.nl, AllLines(p.headers)), p.nl;
    FreeJoined(nl, AllLines(p.headers), d);
    FreeByte([], d);
    FreeLines(p.content, nl, [], d);
    FreeLines([], nl, p.content + (nl + []), d);
    FreeLines(h, nl, [] + (nl + (p.content + (nl + []))), d);
    FreeLines([], nl, h + (nl + ([] + (nl + (p.content + (nl + []))))), d);
    FrameChain(nl, h, p.content);
  }

  lemma FrameChain(nl: bytes, h: bytes, content: bytes)
    ensures [] + (nl + (h + (nl + ([] + (nl + (content + (nl + []))))))) == nl + ((h + ((nl + nl) + content)) + nl)
  {
  }

  lemma FrameEnd(p: Part)
    requires LineEnd(p.nl)
    ensures var t := Framed(p); |t| >= 4 && t[0] == p.nl[0] && t[|t| - 1] == LF
  {
  }

  lemma SplitFramed(s: bytes, v: Span, p: Part, d: bytes, rest: bytes)
    requires v.In(s) && Delimiter(d) && Writable(p, d) && Text(s, v) == Framed(p) + (d + rest)
    ensures var c := Split(s, v, d);
      && c.found && !c.first.Empty() && Text(s, c.first) == Framed(p) && Text(s, c.second) == rest
  {
    var a := Framed(p);
    FreeFramed(p, d);
    FrameEnd(p);
    forall j | 0 <= j < |a|
      ensures !MatchAt(a + (d + rest), d, j)
    {
      FirstBehind(a, LF, d, rest, j);
    }
    SplitFirst(s, v, a, d, rest);
  }

  lemma FollowingStart(ps: seq<Part>, d: bytes, epilogue: bytes)
    requires ps != [] ==> LineEnd(ps[0].nl)
    ensures var t := Following(ps, d, epilogue); |t| >= 2 && (t[..2] == MINUSES <==> ps == [])
  {
    var t := Following(ps, d, epilogue);
    if ps != [] {
      FrameEnd(ps[0]);
      assert t[..2][0] == ps[0].nl[0];
    }
  }

  lemma PrefixText(s: bytes, v: Span, p: bytes)
    requires v.In(s) && |p| <= v.Size()
    ensures StartsWith(s, v, p) <==> Text(s, v)[..|p|] == p
  {
    SliceOfSlice(s, v.b, v.e, 0, |p|);
  }

  lemma PartEnd(p: Part, d: bytes)
    requires Writable(p, d)
    ensures var t := PartText(p); t != [] && (p.nl == [LF] ==> t[|t| - 1] != CR)
  {
  }

  /** One round of the loop reads one part. */
  lemma RoundReads(s: bytes, v: Span, p: Part, d: bytes, rest: bytes, f: Form) returns (tail: Span, g: Form)
    requires v.In(s) && Delimiter(d) && Writable(p, d) && Text(s, v) == Framed(p) + (d + rest)
    ensures tail.In(s) && tail.Size() < v.Size() && Text(s, tail) == rest
    ensures Seen(s, g) == Receive(p, Seen(s, f)) && Parse(s, v, d, f) == Go(s, v, tail, d, g)
  {
    SplitFramed(s, v, p, d, rest);
    var c := Split(s, v, d);
    tail := c.second;
    PartEnd(p, d);
    StripFrame(p.nl, s, c.first, PartText(p));
    var part := Strip(s, c.first).1;
    PartRead(s, part, p, d, f);
    g := AddPart(s, part, f);
  }

  lemma {:induction false} FollowingReads(s: bytes, data: Span, v: Span, ps: seq<Part>, d: bytes, epilogue: bytes, f: Form)
    requires v.In(s) && v.Size() < data.Size() && Delimiter(d)
    requires forall i :: 0 <= i < |ps| ==> Writable(ps[i], d)
    requires Text(s, v) == Following(ps, d, epilogue)
    ensures var r := Go(s, data, v, d, f); r.Ok? && Seen(s, r.form) == ReceiveAll(ps, Seen(s, f))
    decreases |ps|
  {
    FollowingStart(ps, d, epilogue);
    PrefixText(s, v, MINUSES);
    if ps != [] {
      assert Writable(ps[0], d);
      var tail, g := RoundReads(s, v, ps[0], d, Following(ps[1..], d, epilogue), f);
      FollowingReads(s, v, tail, ps[1..], d, epilogue, g);
    }
  }

  /**
   Reading a rendered form gives its arguments in order and its files, the first of each name; the body may
   stand anywhere in its buffer, headers may be folded, and lines may end with CR LF or LF.
   */
  lemma MultipartRoundTrip(s: bytes, v: Span, ps: seq<Part>, d: bytes, epilogue: bytes)
    requires v.In(s) && Delimiter(d) && forall i :: 0 <= i < |ps| ==> Writable(ps[i], d)
    requires Text(s, v) == Render(ps, d, epilogue)
    ensures var r := Parse(s, v, d, Form([], map[]));
      r.Ok? && Seen(s, r.form) == ReceiveAll(ps, Received([], map[]))
  {
    var rest := Following(ps, d, epilogue);
    assert [] + (d + rest) == d + rest;
    SplitFirst(s, v, [], d, rest);
    var c := Split(s, v, d);
    FollowingReads(s, v, c.second, ps, d, epilogue, Form([], map[]));
    assert Contents(s, map[]) == map[];
  }

  // ----- when LF alone is enough -----

  lemma StripLf(s: bytes, v: Span, x: bytes)
    requires v.In(s) && x != [] && Text(s, v) == [LF] + (x + [LF])
    ensures Strip(s, v).0 && Text(s, Strip(s, v).1) == if x[|x| - 1] == CR then x[..|x| - 1] else x
  {
    var t := Text(s, v);
    StripExactly(s, v);
    SliceOfSlice(s, v.b, v.e, 1, |t| - BackEnd(t));
    assert t[1..|t| - 1] == x && t[1..|t| - 2] == x[..|x| - 1];
  }

  lemma OtherBlankAt(h: bytes, content: bytes)
    requires CR !in h && !Free(content, BLANK_LINE)
    ensures var t := h + ([LF, LF] + content); |h| + 2 <= Find(t, BLANK_LINE) < |t|
  {
    var t := h + ([LF, LF] + content);
    var i := Find(t, BLANK_LINE);
    var k :| MatchAt(content, BLANK_LINE, k);
    var j := |h| + 2 + k;
    assert t[j..j + 4] == content[k..k + 4];
    assert MatchAt(t, BLANK_LINE, j);
    assert MatchAt(t, BLANK_LINE, i);
    assert t[i..i + 4][0] == t[i];
  }

  /** A blank line with CR is found only in the content, and what is behind it is shorter. */
  lemma OtherBlankCuts(s: bytes, v: Span, h: bytes, content: bytes)
    requires v.In(s) && CR !in h && Text(s, v) == h + ([LF, LF] + content) && !Free(content, BLANK_LINE)
    ensures |Text(s, Sections(s, v).second)| < |content|
  {
    var i := Find(Text(s, v), BLANK_LINE);
    OtherBlankAt(h, content);
    assert Sections(s, v) == SplitAt(v, i, 4);
  }

  /** Written with LF alone, a part is read whole exactly if its content holds no CR LF CR LF and does not end with CR. */
  lemma LfReadsExactly(s: bytes, v: Span, p: Part)
    requires v.In(s) && p.nl == [LF] && p.headers != [] && HeadersOk(p.nl, p.headers) && Text(s, v) == Framed(p)
    ensures Strip(s, v).0
    ensures Text(s, Sections(s, Strip(s, v).1).second) == p.content <==> ContentOk(p.nl, p.content)
  {
    var ls := AllLines(p.headers);
    HeadersAreLines(p.nl, p.headers);
    StripLf(s, v, PartText(p));
    LfLeft(JoinLines([LF], ls), p.content);
    LfSections(s, Strip(s, v).1, ls, p.content);
  }

  /** Content without a CR at its end. */
  function Left(c: bytes): bytes { if c != [] && c[|c| - 1] == CR then c[..|c| - 1] else c }

  lemma LfSections(s: bytes, part: Span, ls: seq<bytes>, c: bytes)
    requires part.In(s) && ls != [] && AreLines(ls) && Text(s, part) == JoinLines([LF], ls) + ([LF, LF] + Left(c))
    ensures Text(s, Sections(s, part).second) == c <==> ContentOk([LF], c)
  {
    LeftOk(c);
    if Free(Left(c), BLANK_LINE) {
      LfWhole(s, part, ls, Left(c));
    } else {
      JoinWithoutCR(ls);
      OtherBlankCuts(s, part, JoinLines([LF], ls), Left(c));
    }
  }

  lemma LeftOk(c: bytes)
    ensures ContentOk([LF], c) <==> Left(c) == c && Free(Left(c), BLANK_LINE)
    ensures |Left(c)| <= |c|
  {
  }

  lemma LfWhole(s: bytes, part: Span, ls: seq<bytes>, left: bytes)
    requires part.In(s) && ls != [] && AreLines(ls) && Free(left, BLANK_LINE) && Text(s, part) == JoinLines([LF], ls) + ([LF, LF] + left)
    ensures Text(s, Sections(s, part).second) == left
  {
    assert [LF] + [LF] == [LF, LF];
    SectionsAt([LF], s, part, ls, left);
  }

  lemma LfLeft(h: bytes, c: bytes)
    ensures var x := h + (([LF] + [LF]) + c);
      (if x[|x| - 1] == CR then x[..|x| - 1] else x) == h + ([LF, LF] + Left(c))
  {
  }

  // ----- which messages are malformed -----

  /** Up to the end mark, some piece in front of a delimiter is neither empty nor framed by line ends. */
  predicate Rejected(t: bytes, d: bytes)
    requires d != []
    decreases |t|
  {
    var i := Find(t, d);
    i < |t| &&
    ((i > 0 && !FrameOk(t[..i])) ||
     (var rest := t[i + |d|..]; !(|rest| >= 2 && rest[..2] == MINUSES) && Rejected(rest, d)))
  }

  lemma FindEmpty(d: bytes)
    ensures Find([], d) == 0
  {
  }

  lemma {:induction false} MalformedExactly(s: bytes, data: Span, d: bytes, f: Form)
    requires data.In(s) && d != []
    ensures Parse(s, data, d, f) == Malformed <==> Rejected(Text(s, data), d)
    decreases data.Size()
  {
    if data.Empty() {
      FindEmpty(d);
    } else {
      var c := Split(s, data, d);
      RejectedAt(s, data, d);
      if !c.found {
        LastPiece(s, data, d, f);
      } else if Passes(s, c.first) {
        var g := PiecePasses(s, data, d, f);
        MalformedExactly(s, c.second, d, g);
      } else {
        StripExactly(s, c.first);
      }
    }
  }

  /** A piece that does not make the message malformed. */
  predicate Passes(s: bytes, v: Span)
    requires v.In(s)
  {
    v.Empty() || FrameOk(Text(s, v))
  }

  lemma RejectedAt(s: bytes, data: Span, d: bytes)
    requires data.In(s) && d != [] && !data.Empty()
    ensures var c := Split(s, data, d);
      Rejected(Text(s, data), d) <==>
        c.found && (!Passes(s, c.first) || (!StartsWith(s, c.second, MINUSES) && Rejected(Text(s, c.second), d)))
  {
    var t, c := Text(s, data), Split(s, data, d);
    SplitAtText(s, data, Find(t, d), |d|);
    if c.found && c.second.Size() >= 2 {
      PrefixText(s, c.second, MINUSES);
    }
  }

  lemma LastPiece(s: bytes, data: Span, d: bytes, f: Form)
    requires data.In(s) && d != [] && !data.Empty() && !Split(s, data, d).found
    ensures Parse(s, data, d, f).Ok?
  {
    var g := AddPart(s, data, f);
    assert Parse(s, NIL, d, g) == Ok(g);
    assert Parse(s, data, d, f) == Go(s, data, NIL, d, g);
  }

  lemma PiecePasses(s: bytes, data: Span, d: bytes, f: Form) returns (g: Form)
    requires data.In(s) && d != [] && !data.Empty() && Split(s, data, d).found && Passes(s, Split(s, data, d).first)
    ensures Parse(s, data, d, f) == Go(s, data, Split(s, data, d).second, d, g)
  {
    var first := Split(s, data, d).first;
    StripExactly(s, first);
    var part := if first.Empty() then first else Strip(s, first).1;
    g := if part.Empty() then f else AddPart(s, part, f);
  }

  // ----- what is received -----

  predicate IsArg(p: Part) { Told(p).name != [] && Told(p).filename == [] }

  predicate IsFile(p: Part) { Told(p).name != [] && Told(p).filename != [] }

  /** The arguments of a form in order. */
  function ArgsOf(ps: seq<Part>): seq<(bytes, bytes)> {
    if ps == [] then [] else (if IsArg(ps[0]) then [(Told(ps[0]).name, ps[0].content)] else []) + ArgsOf(ps[1..])
  }

  function FirstFile(ps: seq<Part>, k: bytes): (r: Option<Part>)
    ensures r.Some? ==> IsFile(r.value)
  {
    if ps == [] then None else if IsFile(ps[0]) && Told(ps[0]).name == k then Some(ps[0]) else FirstFile(ps[1..], k)
  }

  lemma {:induction false} ArgsInOrder(ps: seq<Part>, r: Received)
    ensures ReceiveAll(ps, r).args == r.args + ArgsOf(ps)
    decreases |ps|
  {
    if ps == [] {
      assert r.args + [] == r.args;
    } else {
      ArgsInOrder(ps[1..], Receive(ps[0], r));
      if IsArg(ps[0]) {
        Assoc(r.args, [(Told(ps[0]).name, ps[0].content)], ArgsOf(ps[1..]));
      } else {
        assert ArgsOf(ps) == ArgsOf(ps[1..]);
      }
    }
  }

  /** A name holds the first file sent under it, and names without a file hold none. */
  lemma {:induction false} FirstFileWins(ps: seq<Part>, r: Received, k: bytes)
    ensures var files := ReceiveAll(ps, r).files;
      if k in r.files then k in files && files[k] == r.files[k]
      else
        var first := FirstFile(ps, k);
        if first.None? then k !in files
        else k in files && files[k] == File(Told(first.value).filename, Told(first.value).mime, first.value.content)
    decreases |ps|
  {
    if ps != [] {
      FirstFileWins(ps[1..], Receive(ps[0], r), k);
    }
  }

  /** `Content-Disposition: form-data` */
  const FORM_DATA: bytes := [67, 111, 110, 116, 101, 110, 116, 45, 68, 105, 115, 112, 111, 115, 105, 116, 105, 111, 110,
    58, 32, 102, 111, 114, 109, 45, 100, 97, 116, 97]

  lemma FormDataBytes()
    ensures |FORM_DATA| == 30 && FORM_DATA[0] == 67
    ensures forall i :: 0 <= i < |FORM_DATA| ==> FORM_DATA[i] == 32 || FORM_DATA[i] == 45 || FORM_DATA[i] == 58 || FORM_DATA[i] > 61
  {
  }

  function TextOf(t: bytes): string { seq(|t|, i requires 0 <= i < |t| => t[i] as char) }

  /** The keys the parser looks for, and the usual opening, as text. */
  lemma KeyTexts()
    ensures TextOf(NAME) == "name" && TextOf(FILENAME) == "filename" && TextOf(CONTENT_TYPE) == "content_type"
    ensures TextOf(FORM_DATA) == "Content-Disposition: form-data"
  {
  }

  /** The type is found under its key in whatever case. */
  lemma ContentTypeSpelled(key: bytes)
    ensures IsContentType(key) <==>
      |key| == 12 && forall i :: 0 <= i < 12 ==> key[i] as char == "content_type"[i] || key[i] as char == "CONTENT_TYPE"[i]
  {
    var low, up := "content_type", "CONTENT_TYPE";
    if |key| == 12 {
      forall i | 0 <= i < 12
        ensures Lower(key[i]) == CONTENT_TYPE[i] <==> key[i] as char == low[i] || key[i] as char == up[i]
      {
        assert CONTENT_TYPE[i] == low[i] as int;
        assert if low[i] == '_' then up[i] == '_' else up[i] as int == low[i] as int - 32;
      }
    }
  }

  lemma LongOpening(t: bytes)
    requires |t| > |CONTENT_TYPE| && t[0] > 61
    requires forall i :: 0 <= i < |t| ==> t[i] == 32 || t[i] == 45 || t[i] == 58 || t[i] > 61
    ensures Opening(t)
  {
    WithoutByte(t, EQUALS);
  }

  /** The usual opening is one. */
  lemma UsualOpening()
    ensures Opening(FORM_DATA)
  {
    FormDataBytes();
    LongOpening(FORM_DATA);
  }

  /** A part as browsers write it: one disposition line, on which the names stand in quotes. */
  function UsualHeader(name: bytes, filename: Option<bytes>): Header {
    var named := [Param([SPACE], Name, name)];
    var ps := if filename.Some? then named + [Param([SPACE], Filename, filename.value)] else named;
    Speaking([FORM_DATA + Tail(ps)], FORM_DATA, ps)
  }

  lemma OneParam(p: Param)
    ensures Tail([p]) == [SEMICOLON] + (p.gap + ParamText(p))
  {
    assert [p][1..] == [];
    assert ParamText(p) + [] == ParamText(p);
  }

  lemma TwoParams(p: Param, q: Param)
    ensures Tail([p, q]) == [SEMICOLON] + (p.gap + (ParamText(p) + ([SEMICOLON] + (q.gap + ParamText(q)))))
  {
    OneParam(q);
    assert [p, q][1..] == [q];
  }

  lemma UsualLine(t: bytes)
    requires OneLine(t)
    ensures Folded([FORM_DATA + t])
  {
    FormDataBytes();
    var ls := [FORM_DATA + t];
    assert ls[1..] == [];
  }

  lemma QuotedLine(key: bytes, value: bytes)
    requires OneLine(key) && OneLine(value)
    ensures OneLine([SEMICOLON] + ([SPACE] + Quoted(key, value)))
  {
  }

  /** It is read as the names it was written for, if they hold no semicolon and no line end. */
  lemma UsualHeaderSays(nl: bytes, name: bytes, filename: Option<bytes>, n: Names)
    requires OneLine(name) && SEMICOLON !in name
    requires filename.Some? ==> OneLine(filename.value) && SEMICOLON !in filename.value
    ensures var h := UsualHeader(name, filename);
      HeaderOk(nl, h) && Said(h, n) == if filename.Some? then n.(name := name, filename := filename.value) else n.(name := name)
  {
    var a := Param([SPACE], Name, name);
    UsualOpening();
    QuotedLine(NAME, name);
    OneParam(a);
    assert [a][1..] == [];
    if filename.Some? {
      var b := Param([SPACE], Filename, filename.value);
      QuotedLine(FILENAME, filename.value);
      TwoParams(a, b);
      Regroup3([SEMICOLON], [SPACE], Quoted(NAME, name), [SEMICOLON] + ([SPACE] + Quoted(FILENAME, filename.value)));
      assert [a] + [b] == [a, b] && [a, b][1..] == [b] && [b][1..] == [];
      assert AllGiven([b], n.(name := name)) == AllGiven([], n.(name := name, filename := filename.value));
      UsualLine(Tail([a, b]));
    } else {
      UsualLine(Tail([a]));
      assert AllGiven([a], n) == AllGiven([], n.(name := name));
    }
  }

  // ----- every message -----

  predicate Inside(v: Span, data: Span) { v == NIL || (data.b <= v.b <= v.e <= data.e) }

  /** Files that were not there before hold a view inside `data`, or the view (0, 0). */
  ghost predicate NewInside(f: Form, g: Form, data: Span) {
    forall k :: k in g.files && k !in f.files ==> Inside(g.files[k].content, data)
  }

  ghost predicate KeepsFiles(f: Form, g: Form) {
    forall k :: k in f.files ==> k in g.files && g.files[k] == f.files[k]
  }

  lemma AddedInside(f: Form, n: Names, content: Span, text: bytes, data: Span)
    requires Inside(content, data)
    ensures NewInside(f, Added(f, n, content, text), data) && KeepsFiles(f, Added(f, n, content, text))
  {
  }

  lemma PartInside(s: bytes, part: Span, f: Form, data: Span)
    requires part.In(s) && data.b <= part.b && part.e <= data.e
    ensures NewInside(f, AddPart(s, part, f), data) && KeepsFiles(f, AddPart(s, part, f))
  {
    var c := Sections(s, part);
    AddedInside(f, HeaderNames(s, c.first, Names([], [], [])), c.second, Text(s, c.second), data);
  }

  /** A round of the loop on any message: it is malformed, or the loop goes on behind the delimiter. */
  lemma ParseRound(s: bytes, data: Span, d: bytes, f: Form) returns (tail: Span, g: Form)
    requires data.In(s) && d != [] && !data.Empty()
    ensures tail.In(s) && Inside(tail, data) && tail.Size() < data.Size() && NewInside(f, g, data) && KeepsFiles(f, g)
    ensures Parse(s, data, d, f) == Malformed || Parse(s, data, d, f) == Ok(g) || Parse(s, data, d, f) == Parse(s, tail, d, g)
  {
    var c := Split(s, data, d);
    tail := c.second;
    var part := if c.found && !c.first.Empty() then Strip(s, c.first).1 else c.first;
    PartInside(s, part, f, data);
    g := if part.Empty() then f else AddPart(s, part, f);
  }

  lemma InsideTrans(f: Form, g: Form, h: Form, tail: Span, data: Span)
    requires NewInside(f, g, data) && NewInside(g, h, tail) && Inside(tail, data) && KeepsFiles(g, h)
    ensures NewInside(f, h, data)
  {
    forall k | k in h.files && k !in f.files
      ensures Inside(h.files[k].content, data)
    {
      assert k in g.files ==> h.files[k] == g.files[k];
    }
  }

  /** On every message the parser ends; the files it adds lie inside it or are the view (0, 0), and none is replaced. */
  lemma {:induction false} FilesInside(s: bytes, data: Span, d: bytes, f: Form)
    requires data.In(s) && d != []
    ensures var r := Parse(s, data, d, f); r.Ok? ==> NewInside(f, r.form, data) && KeepsFiles(f, r.form)
    decreases data.Size()
  {
    var r := Parse(s, data, d, f);
    if !data.Empty() && r.Ok? {
      var tail, g := ParseRound(s, data, d, f);
      if r != Ok(g) {
        FilesInside(s, tail, d, g);
        InsideTrans(f, g, r.form, tail, data);
      }
    }
  }
}
