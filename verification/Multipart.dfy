/**
 The multipart/form-data parser, section 4 of RFC 7578 and section 5.1.1 of RFC 2046, over a body in memory.

 Everything the parser holds is a view of the body: a pair of indices. A split that finds nothing leaves the
 view (0, 0) behind, and a folded first header line is joined from index 0; both are kept as they are.
 */
module Multipart {
  import opened Bytes

  type bytes = seq<byte>

  const CR: byte := 13
  const LF: byte := 10
  const SEMICOLON: byte := 59
  const EQUALS: byte := 61
  const QUOTE: byte := 34
  const SPACE: byte := 32
  const TAB: byte := 9
  const BLANK_LINE: bytes := [13, 10, 13, 10]
  const MINUSES: bytes := [45, 45]
  const NAME: bytes := [110, 97, 109, 101]
  const FILENAME: bytes := [102, 105, 108, 101, 110, 97, 109, 101]
  /** content_type, compared without regard to case. */
  const CONTENT_TYPE: bytes := [99, 111, 110, 116, 101, 110, 116, 95, 116, 121, 112, 101]

  // ----- views -----

  datatype Span = Span(b: nat, e: nat)
  {
    predicate In(s: bytes) { b <= e <= |s| }
    predicate Empty() { b == e }
    function Size(): int { e - b }
  }

  const NIL: Span := Span(0, 0)

  function Text(s: bytes, v: Span): bytes
    requires v.In(s)
  {
    s[v.b..v.e]
  }

  datatype Cut = Cut(found: bool, first: Span, second: Span)

  /** Both parts lie in the buffer, the first starts where the view does, and the second is shorter than the view. */
  predicate IsCut(s: bytes, v: Span, c: Cut) {
    && c.first.In(s) && c.second.In(s) && c.first.b == v.b
    && (if c.found then v.b <= c.second.b && c.second.e == v.e else c.first == v && c.second == NIL)
    && (!v.Empty() ==> c.second.Size() < v.Size())
  }

  function Split(s: bytes, v: Span, d: bytes): (c: Cut)
    requires v.In(s) && d != []
    ensures IsCut(s, v, c)
  {
    if v.Empty() then Cut(false, v, NIL) else SplitAt(v, Find(Text(s, v), d), |d|)
  }

  function Either(a: Cut, b: Cut): Cut { if a.found then a else b }

  function SplitAt(v: Span, i: nat, n: nat): Cut
    requires v.b + i == v.e || v.b + i + n <= v.e
  {
    if i == v.Size() then Cut(false, v, NIL) else Cut(true, Span(v.b, v.b + i), Span(v.b + i + n, v.e))
  }

  lemma EitherIsCut(s: bytes, v: Span, a: Cut, b: Cut)
    requires IsCut(s, v, a) && IsCut(s, v, b)
    ensures IsCut(s, v, Either(a, b))
  {
  }

  function SplitEither(s: bytes, v: Span, d1: bytes, d2: bytes): (c: Cut)
    requires v.In(s) && d1 != [] && d2 != []
    ensures IsCut(s, v, c)
  {
    EitherIsCut(s, v, Split(s, v, d1), Split(s, v, d2));
    Either(Split(s, v, d1), Split(s, v, d2))
  }

  function StartsWith(s: bytes, v: Span, p: bytes): bool
    requires v.In(s)
  {
    |p| <= v.Size() && s[v.b..v.b + |p|] == p
  }

  function EndsWith(s: bytes, v: Span, p: bytes): bool
    requires v.In(s)
  {
    |p| <= v.Size() && s[v.e - |p|..v.e] == p
  }

  /** The end index must not wrap below zero, which every caller ensures. */
  function TrimN(v: Span, b: nat, e: nat): (r: Span)
    requires v.b <= v.e && (v.Empty() || e <= v.e)
    ensures v.b <= r.b <= r.e <= v.e
  {
    if v.Empty() then v
    else if v.b + b >= v.e then Span(v.e, v.e)
    else Span(v.b + b, if v.e - e > v.b + b then v.e - e else v.b + b)
  }

  function TrimRight(t: bytes): bytes {
    if t != [] && IsSpace(t[|t| - 1]) then TrimRight(t[..|t| - 1]) else t
  }

  function Trimmed(t: bytes): (r: bytes) {
    if t != [] && IsSpace(t[0]) then Trimmed(t[1..]) else TrimRight(t)
  }

  method Trim(s: bytes, v: Span) returns (r: Span)
    requires v.In(s)
    ensures r.In(s) && r.Size() <= v.Size() && Text(s, r) == Trimmed(Text(s, v))
  {
    var b, e := v.b, v.e;
    while b != e && IsSpace(s[b])
      invariant v.b <= b <= e && Trimmed(s[b..e]) == Trimmed(Text(s, v))
    {
      TrimStep(s, b, e);
      b := b + 1;
    }
    TrimStop(s, b, e);
    while b != e && IsSpace(s[e - 1])
      invariant b <= e <= v.e && TrimRight(s[b..e]) == Trimmed(Text(s, v))
    {
      TrimRightStep(s, b, e);
      e := e - 1;
    }
    TrimStop(s, b, e);
    r := Span(b, e);
  }

  lemma TrimStep(s: bytes, b: nat, e: nat)
    requires b < e <= |s| && IsSpace(s[b])
    ensures Trimmed(s[b..e]) == Trimmed(s[b + 1..e])
  {
    assert s[b..e][1..] == s[b + 1..e];
  }

  lemma TrimRightStep(s: bytes, b: nat, e: nat)
    requires b < e <= |s| && IsSpace(s[e - 1])
    ensures TrimRight(s[b..e]) == TrimRight(s[b..e - 1])
  {
    var t := s[b..e];
    assert t[..|t| - 1] == s[b..e - 1];
  }

  lemma TrimStop(s: bytes, b: nat, e: nat)
    requires b <= e <= |s|
    ensures b == e || !IsSpace(s[b]) ==> Trimmed(s[b..e]) == TrimRight(s[b..e])
    ensures b == e || !IsSpace(s[e - 1]) ==> TrimRight(s[b..e]) == s[b..e]
  {
    if b == e {
      assert s[b..e] == [];
    }
  }

  // ----- one header line, on its text -----

  function Before(t: bytes, d: bytes): bytes { t[..Find(t, d)] }

  function After(t: bytes, d: bytes): (r: bytes)
    requires d != []
    ensures |r| <= |t| && (t != [] ==> |r| < |t|)
  {
    AfterAt(t, Find(t, d), |d|)
  }

  function AfterAt(t: bytes, i: nat, n: nat): bytes
    requires i == |t| || i + n <= |t|
  {
    if i == |t| then [] else t[i + n..]
  }

  lemma SplitText(s: bytes, v: Span, d: bytes)
    requires v.In(s) && d != []
    ensures Text(s, Split(s, v, d).first) == Before(Text(s, v), d)
    ensures Text(s, Split(s, v, d).second) == After(Text(s, v), d)
  {
    SplitAtText(s, v, Find(Text(s, v), d), |d|);
  }

  lemma SplitAtText(s: bytes, v: Span, i: nat, n: nat)
    requires v.In(s) && (v.b + i == v.e || v.b + i + n <= v.e)
    ensures SplitAt(v, i, n).first.In(s) && Text(s, SplitAt(v, i, n).first) == Text(s, v)[..i]
    ensures SplitAt(v, i, n).second.In(s) && Text(s, SplitAt(v, i, n).second) == AfterAt(Text(s, v), i, n)
  {
    var t := Text(s, v);
    assert t[0..i] == t[..i];
    if v.b + i < v.e {
      SliceOfSlice(s, v.b, v.e, 0, i);
      SliceOfSlice(s, v.b, v.e, i + n, |t|);
      assert t[i + n..|t|] == t[i + n..];
    }
  }

  /** What a part's header lines have said so far. */
  datatype Names = Names(name: bytes, filename: bytes, mime: bytes)

  /** A value without its first and last byte. */
  function Inner(t: bytes): bytes {
    if |t| <= 2 then [] else t[1..|t| - 1]
  }

  function Lower(c: byte): byte { if 65 <= c <= 90 then c + 32 else c }

  predicate IsContentType(key: bytes) {
    |key| == |CONTENT_TYPE| && forall i :: 0 <= i < |key| ==> Lower(key[i]) == CONTENT_TYPE[i]
  }

  function Assign(n: Names, key: bytes, value: bytes): Names {
    if key == NAME then n.(name := Inner(value))
    else if key == FILENAME then n.(filename := Inner(value))
    else if IsContentType(key) then n.(mime := Trimmed(value))
    else n
  }

  lemma {:induction false} TrimmedSize(t: bytes)
    ensures |Trimmed(t)| <= |t|
  {
    if t != [] && IsSpace(t[0]) {
      TrimmedSize(t[1..]);
    } else {
      TrimRightSize(t);
    }
  }

  lemma {:induction false} TrimRightSize(t: bytes)
    ensures |TrimRight(t)| <= |t|
  {
    if t != [] && IsSpace(t[|t| - 1]) {
      TrimRightSize(t[..|t| - 1]);
    }
  }

  function LineNames(line: bytes, n: Names): Names
    decreases |line|
  {
    if line == [] then n
    else
      var head, tail := Before(line, [SEMICOLON]), After(line, [SEMICOLON]);
      TrimmedSize(tail);
      LineNames(Trimmed(tail), Assign(n, Before(head, [EQUALS]), After(head, [EQUALS])))
  }

  lemma InnerText(s: bytes, v: Span)
    requires v.In(s)
    ensures Text(s, TrimN(v, 1, 1)) == Inner(Text(s, v))
  {
    var n := v.Size();
    if n > 2 {
      SliceOfSlice(s, v.b, v.e, 1, n - 1);
    } else {
      assert TrimN(v, 1, 1).Empty();
    }
  }

  method StartsWithCI(s: bytes, v: Span, p: bytes) returns (r: bool)
    requires v.In(s)
    ensures r == (|p| <= v.Size() && forall i :: 0 <= i < |p| ==> Lower(s[v.b + i]) == Lower(p[i]))
  {
    if |p| > v.Size() {
      return false;
    }
    for i := 0 to |p|
      invariant forall k :: 0 <= k < i ==> Lower(s[v.b + k]) == Lower(p[k])
    {
      if Lower(p[i]) != Lower(s[v.b + i]) {
        return false;
      }
    }
    r := true;
  }

  lemma ContentTypeText(s: bytes, v: Span)
    requires v.In(s) && v.Size() == |CONTENT_TYPE|
    ensures IsContentType(Text(s, v)) <==>
      forall i :: 0 <= i < |CONTENT_TYPE| ==> Lower(s[v.b + i]) == Lower(CONTENT_TYPE[i])
  {
    assert forall i :: 0 <= i < |CONTENT_TYPE| ==> Lower(CONTENT_TYPE[i]) == CONTENT_TYPE[i];
    assert forall i :: 0 <= i < |CONTENT_TYPE| ==> Text(s, v)[i] == s[v.b + i];
  }

  ghost predicate Reads(s: bytes, name: Span, filename: Span, mime: Span, n: Names) {
    && name.In(s) && filename.In(s) && mime.In(s)
    && Text(s, name) == n.name && Text(s, filename) == n.filename && Text(s, mime) == n.mime
  }

  lemma EmptyText(s: bytes, v: Span)
    requires v.In(s)
    ensures v.Empty() <==> Text(s, v) == []
  {
  }

  lemma WholePrefix(s: bytes, v: Span, p: bytes)
    requires v.In(s)
    ensures |p| == v.Size() && StartsWith(s, v, p) <==> Text(s, v) == p
  {
  }

  /** One `key=value` of a line. */
  method ParseField(s: bytes, head: Span, name0: Span, filename0: Span, mime0: Span, ghost n: Names)
    returns (name: Span, filename: Span, mime: Span)
    requires head.In(s) && Reads(s, name0, filename0, mime0, n)
    ensures Reads(s, name, filename, mime, Assign(n, Before(Text(s, head), [EQUALS]), After(Text(s, head), [EQUALS])))
  {
    name, filename, mime := name0, filename0, mime0;
    var c := Split(s, head, [EQUALS]);
    SplitText(s, head, [EQUALS]);
    var key, value := c.first, c.second;
    InnerText(s, value);
    WholePrefix(s, key, NAME);
    WholePrefix(s, key, FILENAME);
    if |NAME| == key.Size() && StartsWith(s, key, NAME) {
      name := TrimN(value, 1, 1);
    } else if |FILENAME| == key.Size() && StartsWith(s, key, FILENAME) {
      filename := TrimN(value, 1, 1);
    } else if |CONTENT_TYPE| == key.Size() {
      var same := StartsWithCI(s, key, CONTENT_TYPE);
      ContentTypeText(s, key);
      if same {
        mime := Trim(s, value);
      }
    }
  }

  method ParseLine(s: bytes, line0: Span, name0: Span, filename0: Span, mime0: Span, ghost n0: Names)
    returns (name: Span, filename: Span, mime: Span)
    requires line0.In(s) && Reads(s, name0, filename0, mime0, n0)
    ensures Reads(s, name, filename, mime, LineNames(Text(s, line0), n0))
  {
    var line := line0;
    name, filename, mime := name0, filename0, mime0;
    ghost var n := n0;
    while !line.Empty()
      invariant line.In(s) && Reads(s, name, filename, mime, n)
      invariant LineNames(Text(s, line), n) == LineNames(Text(s, line0), n0)
      decreases line.Size()
    {
      var c := Split(s, line, [SEMICOLON]);
      SplitText(s, line, [SEMICOLON]);
      name, filename, mime := ParseField(s, c.first, name, filename, mime, n);
      n := Assign(n, Before(Text(s, c.first), [EQUALS]), After(Text(s, c.first), [EQUALS]));
      line := Trim(s, c.second);
    }
  }

  // ----- header lines -----

  /** A line and what follows it; CR LF is tried first, then LF. */
  function NextLine(s: bytes, tail: Span): (c: Cut)
    requires tail.In(s) && !tail.Empty()
    ensures Steps(s, tail, c)
  {
    SplitEither(s, tail, CRLF, [LF])
  }

  function Folds(s: bytes, line: Span): bool
    requires line.In(s)
  {
    StartsWith(s, line, [SPACE]) || StartsWith(s, line, [TAB])
  }

  /** What a view of header lines and its first line look like. */
  predicate Steps(s: bytes, tail: Span, c: Cut) {
    && tail.In(s) && c.first.In(s) && c.second.In(s) && c.first.b == tail.b
    && c.second.Size() < tail.Size() && (tail.b <= c.second.b || c.second.Empty())
  }

  /** A line with the folded lines after it, and the rest. A folded first line starts where `line` does. */
  function TakeLine(s: bytes, tail: Span, line: Span, found: bool): (r: (Span, Span))
    requires tail.In(s) && line.In(s) && (line.b <= tail.b || tail.Empty())
    ensures r.0.In(s) && r.1.In(s)
    ensures r.1.Size() <= tail.Size() && (!found && !tail.Empty() ==> r.1.Size() < tail.Size())
    decreases tail.Size(), 1
  {
    if tail.Empty() then (line, tail) else JoinLine(s, tail, NextLine(s, tail), line, found)
  }

  function JoinLine(s: bytes, tail: Span, c: Cut, line: Span, found: bool): (r: (Span, Span))
    requires Steps(s, tail, c) && line.In(s) && line.b <= tail.b
    ensures r.0.In(s) && r.1.In(s)
    ensures r.1.Size() <= tail.Size() && (!found ==> r.1.Size() < tail.Size())
    decreases tail.Size(), 0
  {
    if Folds(s, c.first) then TakeLine(s, c.second, Span(line.b, c.first.e), true)
    else if found then (line, tail)
    else TakeLine(s, c.second, c.first, true)
  }

  function HeaderNames(s: bytes, headers: Span, n: Names): Names
    requires headers.In(s)
    decreases headers.Size()
  {
    if headers.Empty() then n
    else
      var r := TakeLine(s, headers, NIL, false);
      HeaderNames(s, r.1, LineNames(Text(s, r.0), n))
  }

  method NextHeader(s: bytes, headers: Span) returns (line: Span, tail: Span)
    requires headers.In(s) && !headers.Empty()
    ensures (line, tail) == TakeLine(s, headers, NIL, false)
  {
    line, tail := NIL, headers;
    var found := false;
    while !tail.Empty()
      invariant tail.In(s) && line.In(s) && (line.b <= tail.b || tail.Empty())
      invariant TakeLine(s, tail, line, found) == TakeLine(s, headers, NIL, false)
      decreases tail.Size()
    {
      var c := NextLine(s, tail);
      if Folds(s, c.first) {
        line := Span(line.b, c.first.e);
      } else {
        if found {
          break;
        }
        line := c.first;
      }
      tail := c.second;
      found := true;
    }
  }

  method ParseHeaders(s: bytes, headers0: Span) returns (name: Span, filename: Span, mime: Span)
    requires headers0.In(s)
    ensures Reads(s, name, filename, mime, HeaderNames(s, headers0, Names([], [], [])))
  {
    name, filename, mime := NIL, NIL, NIL;
    var headers := headers0;
    ghost var n := Names([], [], []);
    while !headers.Empty()
      invariant headers.In(s) && Reads(s, name, filename, mime, n)
      invariant HeaderNames(s, headers, n) == HeaderNames(s, headers0, Names([], [], []))
      decreases headers.Size()
    {
      var line, tail := NextHeader(s, headers);
      name, filename, mime := ParseLine(s, line, name, filename, mime, n);
      n := LineNames(Text(s, line), n);
      headers := tail;
    }
  }

  // ----- parts -----

  /** An uploaded file: its content is a view of the body. */
  datatype Upload = Upload(remoteName: bytes, mime: bytes, content: Span)

  datatype Form = Form(args: seq<(bytes, bytes)>, files: map<bytes, Upload>)

  function InsertFirst<V>(m: map<bytes, V>, k: bytes, v: V): map<bytes, V> {
    if k in m then m else m[k := v]
  }

  /** Headers and content; content is the view (0, 0) if no blank line separates them. */
  function Sections(s: bytes, part: Span): (c: Cut)
    requires part.In(s)
    ensures c.first.In(s) && c.second.In(s) && (c.found ==> part.b <= c.second.b && c.second.e == part.e)
    ensures !c.found ==> c.second == NIL
  {
    SplitEither(s, part, BLANK_LINE, [LF, LF])
  }

  function AddPart(s: bytes, part: Span, f: Form): Form
    requires part.In(s)
  {
    var c := Sections(s, part);
    Added(f, HeaderNames(s, c.first, Names([], [], [])), c.second, Text(s, c.second))
  }

  function Added(f: Form, n: Names, content: Span, text: bytes): Form {
    if n.name == [] then f
    else if n.filename != [] then f.(files := InsertFirst(f.files, n.name, Upload(n.filename, n.mime, content)))
    else f.(args := f.args + [(n.name, text)])
  }

  datatype Result = Ok(form: Form) | Malformed

  /** A part between two delimiters without the line ends next to them. */
  function Strip(s: bytes, head: Span): (r: (bool, Span))
    requires head.In(s)
    ensures r.1.In(s) && head.b <= r.1.b && r.1.e <= head.e
  {
    if !EndsWith(s, head, CRLF) && !EndsWith(s, head, [LF]) then (false, head)
    else
      var h := TrimN(head, 0, if EndsWith(s, head, CRLF) then 2 else 1);
      if StartsWith(s, h, CRLF) then (true, TrimN(h, 2, 0))
      else if StartsWith(s, h, [LF]) then (true, TrimN(h, 1, 0))
      else (false, h)
  }

  function Parse(s: bytes, data: Span, boundary: bytes, f: Form): Result
    requires data.In(s) && boundary != []
    decreases data.Size(), 0
  {
    if data.Empty() then Ok(f)
    else
      var c := Split(s, data, boundary);
      if c.found && !c.first.Empty() then
        var (ok, part) := Strip(s, c.first);
        if !ok then Malformed
        else Go(s, data, c.second, boundary, if part.Empty() then f else AddPart(s, part, f))
      else Go(s, data, c.second, boundary, if c.first.Empty() then f else AddPart(s, c.first, f))
  }

  /** Behind a delimiter: two dashes end the message. */
  function Go(s: bytes, data: Span, tail: Span, boundary: bytes, f: Form): Result
    requires tail.In(s) && tail.Size() < data.Size() && boundary != []
    decreases data.Size() - 1, 1
  {
    if StartsWith(s, tail, MINUSES) then Ok(f) else Parse(s, tail, boundary, f)
  }

  // ----- the parser -----

  class Request {
    var args: seq<(bytes, bytes)>
    var files: map<bytes, Upload>

    constructor ()
      ensures args == [] && files == map[]
    {
      args, files := [], map[];
    }

    ghost function AsForm(): Form
      reads this
    {
      Form(args, files)
    }

    method ParsePart(s: bytes, part: Span)
      requires part.In(s)
      modifies this
      ensures AsForm() == AddPart(s, part, old(AsForm()))
    {
      var c := Sections(s, part);
      var content := c.second;
      var name, filename, mime := ParseHeaders(s, c.first);
      EmptyText(s, name);
      EmptyText(s, filename);
      if name.Empty() {
        return;
      }
      if !filename.Empty() {
        files := InsertFirst(files, Text(s, name), Upload(Text(s, filename), Text(s, mime), content));
      } else {
        args := args + [(Text(s, name), Text(s, content))];
      }
    }

    method ParseMultipart(s: bytes, body: Span, boundary: bytes) returns (ok: bool)
      requires body.In(s) && boundary != []
      modifies this
      ensures var r := Parse(s, body, boundary, old(AsForm())); ok == r.Ok? && (ok ==> AsForm() == r.form)
    {
      var data := body;
      while !data.Empty()
        invariant data.In(s)
        invariant Parse(s, data, boundary, AsForm()) == Parse(s, body, boundary, old(AsForm()))
        decreases data.Size()
      {
        var c := Split(s, data, boundary);
        var head := c.first;
        if c.found && !head.Empty() {
          if EndsWith(s, head, CRLF) {
            head := TrimN(head, 0, 2);
          } else if EndsWith(s, head, [LF]) {
            head := TrimN(head, 0, 1);
          } else {
            return false;
          }
          if StartsWith(s, head, CRLF) {
            head := TrimN(head, 2, 0);
          } else if StartsWith(s, head, [LF]) {
            head := TrimN(head, 1, 0);
          } else {
            return false;
          }
        }
        if !head.Empty() {
          ParsePart(s, head);
        }
        if StartsWith(s, c.second, MINUSES) {
          break;
        }
        data := c.second;
      }
      ok := true;
    }
  }
}
