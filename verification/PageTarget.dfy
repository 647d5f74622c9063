/**
 The pieces the reader writes into the handler, the program each stands for, and when the written text is read
 as that program.
 */
module PageTarget {
  import opened Common
  import opened CppText

  const RESPONSE := "\tresponse"
  const PRINT := RESPONSE + ("Stream" + " << ")
  const MARKUP_BEGIN := PRINT + "\""
  const MARKUP_END := "\";\n"
  const EXPR_BEGIN := PRINT + "("
  const EXPR_END := ");\n"

  // ----- sequences -----

  function FlatMap<A, B>(f: A -> seq<B>, s: seq<A>): seq<B> {
    if s == [] then [] else f(s[0]) + FlatMap(f, s[1..])
  }

  lemma {:induction false} FlatMapAppend<A, B>(f: A -> seq<B>, a: seq<A>, b: seq<A>)
    ensures FlatMap(f, a + b) == FlatMap(f, a) + FlatMap(f, b)
  {
    if a == [] {
      assert a + b == b;
    } else {
      FlatMapAppend(f, a[1..], b);
      assert (a + b)[1..] == a[1..] + b && (a + b)[0] == a[0];
      Assoc(f(a[0]), FlatMap(f, a[1..]), FlatMap(f, b));
    }
  }

  lemma FlatMapOne<A, B>(f: A -> seq<B>, x: A)
    ensures FlatMap(f, [x]) == f(x)
  {
    assert FlatMap(f, [x][1..]) == [];
  }

  lemma Cancel<T>(a: seq<T>, b: seq<T>, c: seq<T>)
    ensures a + b == a + c <==> b == c
  {
    if a + b == a + c {
      assert b == (a + b)[|a|..] && c == (a + c)[|a|..];
    }
  }

  // ----- pieces -----

  /** What an include directive asks for. */
  datatype Include = Path(value: string) | Component(value: string)

  /**
   A line of markup, an expression, a block of code, or what any other block leaves in the handler: the openers
   strayed from it, and the includes it gives where the page asks for `asked`.
   */
  datatype Piece =
    | Print(text: string)
    | PrintExpr(code: string)
    | Raw(code: string)
    | Aside(stray: string, given: seq<Include>, asked: seq<Include>)

  function Spell(c: char): string {
    match c
    case '\n' => "\\n"
    case '\t' => "\\t"
    case '"' => "\\\""
    case _ => [c]
  }

  function Spelling(s: string): string { FlatMap(Spell, s) }

  function Call(i: Include): string {
    match i
    case Path(_) => RESPONSE + ("->include" + "Path(")
    case Component(_) => RESPONSE + ("->include" + "Component(")
  }

  function IncludeText(i: Include): string { Call(i) + ("\"" + (i.value + ("\"" + ");"))) }

  /** The text that is written for a piece. */
  function Emitted(p: Piece): string {
    match p
    case Print(t) => MARKUP_BEGIN + (Spelling(t) + MARKUP_END)
    case PrintExpr(c) => EXPR_BEGIN + (c + EXPR_END)
    case Raw(c) => c
    case Aside(s, given, _) => s + FlatMap(IncludeText, given)
  }

  function Emit(ps: seq<Piece>): string { FlatMap(Emitted, ps) }

  function IncludeWanted(i: Include): seq<Lexeme> { Syms(Call(i)) + ([Str(Denotes(i.value))] + Syms(");")) }

  /** The program a piece stands for: literals denote the page's own text, and code is read by itself. */
  function Wanted(p: Piece): seq<Lexeme> {
    match p
    case Print(t) => Syms(PRINT) + ([Str(Denotes(t))] + Syms(";\n"))
    case PrintExpr(c) => Syms(EXPR_BEGIN) + (LexFrom(Code(Middle), c) + Syms(EXPR_END))
    case Raw(c) => Lexemes(c)
    case Aside(_, _, asked) => FlatMap(IncludeWanted, asked)
  }

  function Want(ps: seq<Piece>): seq<Lexeme> { FlatMap(Wanted, ps) }

  predicate AllVerbatim(incs: seq<Include>) { forall i :: 0 <= i < |incs| ==> Verbatim(incs[i].value) }

  /** The condition on a piece, for an author to check. */
  predicate Fits(p: Piece) {
    match p
    case Print(t) => '\\' !in t
    case PrintExpr(c) => EndsInCode(Middle, c)
    case Raw(c) => EndsInCode(Start, c)
    case Aside(s, given, _) => s == "" && AllVerbatim(given)
  }

  predicate AllFit(ps: seq<Piece>) { forall i :: 0 <= i < |ps| ==> Fits(ps[i]) }

  // ----- spelled markup -----

  /** A literal spelled for a line denotes the line exactly if that holds no backslash; it never denotes more. */
  lemma {:induction false} LiteralSpelled(t: string, w: string)
    ensures var d := Literal(Spelling(t) + ("\";\n" + w));
      (d == Denotes(t) <==> '\\' !in t) && (d.Denotes? ==> |d.text| <= |t|)
    decreases |t|
  {
    var tail := "\";\n" + w;
    if t == "" {
      assert Spelling(t) + tail == tail && tail[0] == '"';
    } else {
      assert t == [t[0]] + t[1..];
      SpellThen(t, tail);
      if t[0] != '\\' {
        LiteralSpelled(t[1..], w);
        LiteralSpell(t[0], Spelling(t[1..]) + tail);
        JoinCancels([t[0]], Literal(Spelling(t[1..]) + tail), t[1..]);
      } else if |t| == 1 {
        BackslashLast(w);
      } else {
        LiteralSpelled(t[2..], w);
        SpelledBackslash(t, tail);
      }
    }
  }

  lemma SpelledBackslash(t: string, tail: string)
    requires |t| > 1 && t[0] == '\\'
    requires var d := Literal(Spelling(t[2..]) + tail); d.Denotes? ==> |d.text| <= |t| - 2
    ensures var d := Literal(Spelling(t) + tail); d != Denotes(t) && (d.Denotes? ==> |d.text| <= |t|)
  {
    SpellThen(t, tail);
    SpellThen(t[1..], tail);
    assert t == "\\" + ([t[1]] + t[2..]) && t[1..][1..] == t[2..];
    BackslashBefore(t[1], t[2..], Spelling(t[2..]) + tail);
  }

  lemma SpellThen(t: string, tail: string)
    requires t != ""
    ensures Spelling(t) + tail == Spell(t[0]) + (Spelling(t[1..]) + tail)
  {
    Assoc(Spell(t[0]), Spelling(t[1..]), tail);
  }

  lemma LiteralSpell(c: char, w: string)
    requires c != '\\'
    ensures Literal(Spell(c) + w) == Join(Denotes([c]), Literal(w))
  {
    assert (Spell(c) + w)[|Spell(c)|..] == w;
  }

  /** A backslash at the end of a line escapes the closing quote, and the literal runs into the line end. */
  lemma BackslashLast(w: string)
    ensures Literal(Spelling("\\") + ("\";\n" + w)) == Garbled
  {
    FlatMapOne(Spell, '\\');
    var z := "\\" + ("\";\n" + w);
    assert z[0] == '\\' && z[1] == '"' && z[2..] == ";\n" + w;
    var y := ";\n" + w;
    assert y[0] == ';' && y[1..][0] == '\n';
    assert Literal(y[1..]) == Garbled && Literal(y) == Garbled;
  }

  /** A backslash before another character never denotes itself and the character and what follows. */
  lemma BackslashBefore(c: char, rest: string, w: string)
    requires Literal(w).Denotes? ==> |Literal(w).text| <= |rest|
    ensures var d := Literal(Spell('\\') + (Spell(c) + w));
      d != Denotes("\\" + ([c] + rest)) && (d.Denotes? ==> |d.text| <= 2 + |rest|)
  {
    var z, want := "\\" + (Spell(c) + w), "\\" + ([c] + rest);
    var e := Spell(c)[0];
    assert z[0] == '\\' && z[1] == e;
    EscapeIsOneChar(e);
    if c == '\n' || c == '\t' || c == '"' {
      assert z[2..] == [Spell(c)[1]] + w;
      assert ([Spell(c)[1]] + w)[1..] == w;
      if c == '"' {
        assert Literal(z) == Join(Denotes("\\"), Denotes(""));
      } else {
        var d := Join(Denotes([Spell(c)[1]]), Literal(w));
        assert Literal(z) == Join(Denotes("\\"), d);
        if d.Denotes? {
          assert ("\\" + d.text)[1] == Spell(c)[1] && want[1] == c;
        }
      }
    } else {
      assert z[2..] == w;
      assert Literal(z) == Join(Escaped(c), Literal(w));
    }
  }

  lemma {:induction false} SpelledReads(v: string, t: string, w: string)
    requires '\\' !in t
    ensures LexFrom(InString(Middle, Denotes(v), false), Spelling(t) + ("\"" + w)) ==
      [Str(Denotes(v + t))] + LexFrom(Code(Middle), w)
    decreases |t|
  {
    var tail := "\"" + w;
    if t == "" {
      assert Spelling(t) + tail == tail && v + t == v;
      StringCloses(Middle, v, w);
    } else {
      var c, rest := t[0], Spelling(t[1..]) + tail;
      SpellThen(t, tail);
      SpelledChar(v, c, rest);
      SpelledReads(v + [c], t[1..], w);
      assert t == [c] + t[1..];
      Assoc(v, [c], t[1..]);
    }
  }

  lemma SpelledChar(v: string, c: char, rest: string)
    requires c != '\\'
    ensures LexFrom(InString(Middle, Denotes(v), false), Spell(c) + rest) ==
      LexFrom(InString(Middle, Denotes(v + [c]), false), rest)
  {
    if c == '\n' || c == '\t' || c == '"' {
      var e := Spell(c)[1];
      assert Spell(c) + rest == "\\" + ([e] + rest) && Escape(e) == [c];
      StringEscapes(Middle, v, e, rest);
    } else {
      StringGoesOn(Middle, v, c, rest);
    }
  }

  // ----- a piece is read as the program it stands for exactly if it fits -----

  /** The literal of a call or a print: what follows its opening quote decides the lexeme behind the call. */
  lemma QuoteAfter(l: Line, call: string, w: string)
    requires Bare(call) && LineOf(l, call) == Middle
    ensures LexFrom(Code(l), call + ("\"" + w)) == Syms(call) + LexFrom(InString(Middle, Denotes(""), false), w)
  {
    BareThen(l, call, "\"" + w);
    LexStep(Code(Middle), "\"" + w);
    assert ("\"" + w)[1..] == w;
  }

  /** A literal that denotes something else is not the one wanted, whatever follows it. */
  lemma WrongLiteral(l: Line, call: string, w: string, t: string, rest: seq<Lexeme>)
    requires Bare(call) && LineOf(l, call) == Middle && Literal(w) != Denotes(t)
    ensures LexFrom(Code(l), call + ("\"" + w)) != Syms(call) + ([Str(Denotes(t))] + rest)
  {
    QuoteAfter(l, call, w);
    StringFirst(Middle, Denotes(""), w);
    var ls := LexFrom(InString(Middle, Denotes(""), false), w);
    Cancel(Syms(call), ls, [Str(Denotes(t))] + rest);
    var d := Literal(w);
    assert d.Denotes? ==> "" + d.text == d.text;
  }

  lemma {:induction false} MiddleStays(w: string)
    requires '\n' !in w
    ensures LineOf(Middle, w) == Middle
  {
    if w != "" {
      MiddleStays(w[1..]);
    }
  }

  /** A tab and a letter lead to the middle of a line, from its start or its middle. */
  lemma TabThen(l: Line, w: string)
    requires !l.Preprocessing? && |w| > 1 && w[0] == '\t' && w[1] == 'r' && '\n' !in w
    ensures LineOf(l, w) == Middle
  {
    var rest := w[2..];
    assert w[1..][0] == 'r' && w[1..][1..] == rest;
    MiddleStays(rest);
  }

  predicate OneBareLine(s: string) { Bare(s) && '\n' !in s }

  lemma BareAppend(a: string, b: string)
    requires OneBareLine(a) && OneBareLine(b)
    ensures OneBareLine(a + b)
  {
  }

  lemma ResponseIsBare()
    ensures OneBareLine(RESPONSE) && StartsNew(RESPONSE)
  {
  }

  lemma ResponseStarts(l: Line, w: string)
    requires !l.Preprocessing?
    ensures StartsNew(RESPONSE + w)
    ensures OneBareLine(w) ==> Bare(RESPONSE + w) && LineOf(l, RESPONSE + w) == Middle
  {
    ResponseIsBare();
    if OneBareLine(w) {
      BareAppend(RESPONSE, w);
      TabThen(l, RESPONSE + w);
    }
  }

  lemma PrintIsBare(l: Line)
    requires !l.Preprocessing?
    ensures Bare(PRINT) && LineOf(l, PRINT) == Middle
  {
    BareAppend("Stream", " << ");
    ResponseStarts(l, "Stream" + " << ");
  }

  lemma CallIsBare(l: Line, i: Include)
    requires !l.Preprocessing?
    ensures Bare(Call(i)) && LineOf(l, Call(i)) == Middle
  {
    BareAppend("->include", "Path(");
    BareAppend("->include", "Component(");
    ResponseStarts(l, "->include" + "Path(");
    ResponseStarts(l, "->include" + "Component(");
  }

  lemma EndsAreBare(l: Line)
    requires !l.Preprocessing?
    ensures Bare(";\n") && LineOf(Middle, ";\n") == Start
    ensures Bare(EXPR_END) && LineOf(l, EXPR_END) == Start
    ensures Bare(");") && LineOf(Middle, ");") == Middle
  {
    var a, b, c := ";\n", ");\n", ");";
    assert a[1..] == "\n" && b[1..] == a && c[1..] == ";";
    assert LineOf(Middle, "\n") == LineOf(Start, "\n"[1..]) == Start;
    MiddleStays(";");
    assert LineOf(Middle, a) == Start;
    assert LineAfter(l, ')') == Middle;
  }

  /** Behind a tab and a letter it does not matter whether the line had started. */
  lemma SameFromTab(l: Line, w: string)
    requires !l.Preprocessing? && StartsNew(w)
    ensures LexFrom(Code(l), w) == Lexemes(w)
  {
    var head, rest := w[..2], w[2..];
    assert w == head + rest;
    TabThen(l, head);
    TabThen(Start, head);
    BareThen(l, head, rest);
    BareThen(Start, head, rest);
  }

  predicate StartsNew(w: string) { |w| > 1 && w[0] == '\t' && w[1] == 'r' }

  lemma PrintReads(t: string, w: string, want: seq<Lexeme>)
    ensures Lexemes(Emitted(Print(t)) + w) == Wanted(Print(t)) + want <==> '\\' !in t && Lexemes(w) == want
  {
    PrintIsBare(Start);
    Regroup5(PRINT, "\"", Spelling(t), "\"", ";\n", w);
    assert MARKUP_END == "\"" + ";\n";
    Regroup3(Syms(PRINT), [Str(Denotes(t))], Syms(";\n"), want);
    QuotedReads(PRINT, t, w, want);
  }

  lemma QuotedReads(call: string, t: string, w: string, want: seq<Lexeme>)
    requires Bare(call) && LineOf(Start, call) == Middle
    ensures Lexemes(call + ("\"" + (Spelling(t) + ("\"" + (";\n" + w))))) == Syms(call) + ([Str(Denotes(t))] + (Syms(";\n") + want))
      <==> '\\' !in t && Lexemes(w) == want
  {
    var tail, str, end := Spelling(t) + ("\"" + (";\n" + w)), [Str(Denotes(t))], Syms(";\n");
    if '\\' in t {
      LiteralSpelled(t, w);
      assert "\";\n" + w == "\"" + (";\n" + w);
      WrongLiteral(Start, call, tail, t, end + want);
    } else {
      QuoteAfter(Start, call, tail);
      SpelledReads("", t, ";\n" + w);
      assert "" + t == t;
      EndsAreBare(Start);
      BareThen(Middle, ";\n", w);
      Cancel(Syms(call), str + (end + Lexemes(w)), str + (end + want));
      Cancel(str, end + Lexemes(w), end + want);
      Cancel(end, Lexemes(w), want);
    }
  }

  lemma Regroup5<T>(a: seq<T>, b: seq<T>, c: seq<T>, d: seq<T>, e: seq<T>, w: seq<T>)
    ensures ((a + b) + (c + (d + e))) + w == a + (b + (c + (d + (e + w))))
  {
  }

  lemma RawReads(c: string, w: string, want: seq<Lexeme>)
    requires StartsNew(w) && want != []
    ensures Lexemes(Emitted(Raw(c)) + w) == Wanted(Raw(c)) + want <==> EndsInCode(Start, c) && Lexemes(w) == want
  {
    if EndsInCode(Start, c) {
      var after := CodeThen(Start, c, w);
      SameFromTab(after, w);
      Cancel(Lexemes(c), Lexemes(w), want);
    } else {
      NoTextReadsAsCut([], Start, c, want, Code(Start), c + w);
      assert [] + (Lexemes(c) + want) == Lexemes(c) + want;
    }
  }

  lemma ExprReads(c: string, w: string, want: seq<Lexeme>)
    ensures Lexemes(Emitted(PrintExpr(c)) + w) == Wanted(PrintExpr(c)) + want <==> EndsInCode(Middle, c) && Lexemes(w) == want
  {
    var code, tail := LexFrom(Code(Middle), c), EXPR_END + w;
    var text := EXPR_BEGIN + (c + tail);
    ExprIsBare();
    Regroup3(EXPR_BEGIN, c, EXPR_END, w);
    Regroup3(Syms(EXPR_BEGIN), code, Syms(EXPR_END), want);
    if EndsInCode(Middle, c) {
      BareThen(Start, EXPR_BEGIN, c + tail);
      var after := CodeThen(Middle, c, tail);
      EndsAreBare(after);
      BareThen(after, EXPR_END, w);
      Cancel(Syms(EXPR_BEGIN), code + (Syms(EXPR_END) + Lexemes(w)), code + (Syms(EXPR_END) + want));
      Cancel(code, Syms(EXPR_END) + Lexemes(w), Syms(EXPR_END) + want);
      Cancel(Syms(EXPR_END), Lexemes(w), want);
    } else {
      NoTextReadsAsCut(Syms(EXPR_BEGIN), Middle, c, Syms(EXPR_END) + want, Code(Start), text);
    }
  }

  lemma ExprIsBare()
    ensures Bare(EXPR_BEGIN) && LineOf(Start, EXPR_BEGIN) == Middle
  {
    BareAppend("Stream", " << ");
    BareAppend("Stream" + " << ", "(");
    ResponseStarts(Start, "Stream" + " << " + "(");
    Assoc(RESPONSE, "Stream" + " << ", "(");
  }

  lemma IncludeReads(l: Line, i: Include, w: string, want: seq<Lexeme>)
    requires !l.Preprocessing?
    ensures LexFrom(Code(l), IncludeText(i) + w) == IncludeWanted(i) + want <==>
      Verbatim(i.value) && LexFrom(Code(Middle), w) == want
  {
    var call, value, tail := Call(i), i.value, ");" + w;
    CallIsBare(l, i);
    Regroup4(call, "\"", value, "\"", ");", w);
    Regroup3(Syms(call), [Str(Denotes(value))], Syms(");"), want);
    VerbatimExactly(value, tail);
    if Verbatim(value) {
      QuoteAfter(l, call, value + ("\"" + tail));
      VerbatimReads(Middle, "", value, tail);
      assert "" + value == value;
      EndsAreBare(Start);
      BareThen(Middle, ");", w);
      var str, rest := [Str(Denotes(value))], LexFrom(Code(Middle), w);
      Cancel(Syms(call), str + (Syms(");") + rest), str + (Syms(");") + want));
      Cancel(str, Syms(");") + rest, Syms(");") + want);
      Cancel(Syms(");"), rest, want);
    } else {
      WrongLiteral(l, call, value + ("\"" + tail), value, Syms(");") + want);
    }
  }

  lemma Regroup4<T>(a: seq<T>, b: seq<T>, c: seq<T>, d: seq<T>, e: seq<T>, w: seq<T>)
    ensures (a + (b + (c + (d + e)))) + w == a + (b + (c + (d + (e + w))))
  {
  }

  lemma {:induction false} IncludesRead(l: Line, incs: seq<Include>, w: string, want: seq<Lexeme>)
    requires !l.Preprocessing? && StartsNew(w)
    ensures LexFrom(Code(l), FlatMap(IncludeText, incs) + w) == FlatMap(IncludeWanted, incs) + want <==>
      AllVerbatim(incs) && Lexemes(w) == want
    decreases |incs|
  {
    if incs == [] {
      assert FlatMap(IncludeText, incs) + w == w && FlatMap(IncludeWanted, incs) + want == want;
      SameFromTab(l, w);
    } else {
      var text, wanted := FlatMap(IncludeText, incs[1..]), FlatMap(IncludeWanted, incs[1..]);
      Assoc(IncludeText(incs[0]), text, w);
      Assoc(IncludeWanted(incs[0]), wanted, want);
      IncludeReads(l, incs[0], text + w, wanted + want);
      IncludesRead(Middle, incs[1..], w, want);
      assert AllVerbatim(incs) <==> Verbatim(incs[0].value) && AllVerbatim(incs[1..]);
    }
  }

  /** A stray opener puts a `<` where the page asks for a statement. */
  lemma StrayReads(stray: string, rest: string, want: seq<Lexeme>)
    requires stray != "" && stray[0] == '<' && want != [] && want[0] == Sym('\t')
    ensures Lexemes(stray + rest) != want
  {
    LexStep(Code(Start), stray + rest);
    assert Lexemes(stray + rest)[0] == Sym('<');
  }

  lemma IncludesStart(asked: seq<Include>, want: seq<Lexeme>)
    requires want != [] && want[0] == Sym('\t')
    ensures var ls := FlatMap(IncludeWanted, asked) + want; ls != [] && ls[0] == Sym('\t')
  {
    if asked != [] {
      var call := Syms(Call(asked[0]));
      assert call[0] == Sym('\t');
      var first := IncludeWanted(asked[0]);
      assert first[0] == Sym('\t');
    }
  }

  /** What blocks outside the handler leave in it: the includes asked for, as long as nothing strayed. */
  predicate GoodAside(p: Piece) {
    p.Aside? ==> if p.stray == "" then p.given == p.asked else p.stray[0] == '<'
  }

  lemma AsideReads(p: Piece, w: string, want: seq<Lexeme>)
    requires p.Aside? && GoodAside(p) && StartsNew(w) && want != [] && want[0] == Sym('\t')
    ensures Lexemes(Emitted(p) + w) == Wanted(p) + want <==> Fits(p) && Lexemes(w) == want
  {
    var text := FlatMap(IncludeText, p.given);
    Assoc(p.stray, text, w);
    if p.stray == "" {
      assert p.stray + (text + w) == text + w;
      IncludesRead(Start, p.given, w, want);
    } else {
      IncludesStart(p.asked, want);
      StrayReads(p.stray, text + w, Wanted(p) + want);
    }
  }

  // ----- the whole handler -----

  /** Every piece but a line of markup is followed by one. */
  predicate Chained(ps: seq<Piece>) { forall i :: 0 <= i < |ps| ==> LinkedAt(ps, i) }

  predicate LinkedAt(ps: seq<Piece>, i: nat)
    requires i < |ps|
  {
    GoodAside(ps[i]) && (ps[i].Print? || (i + 1 < |ps| && ps[i + 1].Print?))
  }

  lemma PrintStarts(ps: seq<Piece>)
    requires ps != [] && ps[0].Print?
    ensures StartsNew(Emit(ps)) && Want(ps) != [] && Want(ps)[0] == Sym('\t')
  {
    var p := ps[0];
    var rest := (("Stream" + " << ") + "\"") + (Spelling(p.text) + MARKUP_END);
    Regroup2(RESPONSE, "Stream" + " << ", "\"", Spelling(p.text) + MARKUP_END);
    ResponseStarts(Start, rest + Emit(ps[1..]));
    Assoc(RESPONSE, rest, Emit(ps[1..]));
    ResponseIsBare();
    assert Syms(PRINT)[0] == Sym('\t');
    assert Wanted(p)[0] == Syms(PRINT)[0];
  }

  lemma Regroup2<T>(a: seq<T>, b: seq<T>, c: seq<T>, d: seq<T>)
    ensures ((a + b) + c) + d == a + ((b + c) + d)
  {
  }

  lemma ChainedTail(ps: seq<Piece>)
    requires ps != [] && Chained(ps)
    ensures Chained(ps[1..]) && LinkedAt(ps, 0)
  {
    var rest := ps[1..];
    forall i | 0 <= i < |rest|
      ensures LinkedAt(rest, i)
    {
      assert LinkedAt(ps, i + 1);
    }
  }

  /** The handler is read as the program of its pieces if and only if every piece fits. */
  lemma {:induction false} ProgramReads(ps: seq<Piece>)
    requires Chained(ps)
    ensures Lexemes(Emit(ps)) == Want(ps) <==> AllFit(ps)
  {
    if ps != [] {
      var p, rest := ps[0], ps[1..];
      var w, want := Emit(rest), Want(rest);
      ChainedTail(ps);
      ProgramReads(rest);
      if !p.Print? {
        PrintStarts(rest);
      }
      match p {
        case Print(t) => PrintReads(t, w, want);
        case PrintExpr(c) => ExprReads(c, w, want);
        case Raw(c) => RawReads(c, w, want);
        case Aside(_, _, _) => AsideReads(p, w, want);
      }
      assert AllFit(ps) <==> Fits(p) && AllFit(rest);
    }
  }

  // ----- markup as lines -----

  /** Markup as print statements, a new one after every newline. */
  function Prints(s: string): (ps: seq<Piece>)
    ensures |ps| > 0 && forall i :: 0 <= i < |ps| ==> ps[i].Print?
  {
    if s == "" then [Print("")]
    else
      var rest := Prints(s[1..]);
      if s[0] == '\n' then [Print("\n")] + rest else [Print([s[0]] + rest[0].text)] + rest[1..]
  }

  /** What the reader writes for a character of markup: a newline also starts a new statement. */
  function WrittenChar(c: char): string {
    if c == '\n' then "\\n" + MARKUP_END + MARKUP_BEGIN else Spell(c)
  }

  function Written(s: string): string { FlatMap(WrittenChar, s) }

  lemma PrintsUnfold(s: string)
    requires s != ""
    ensures var rest := Prints(s[1..]);
      Emit(Prints(s)) ==
        if s[0] == '\n' then Emitted(Print("\n")) + Emit(rest)
        else Emitted(Print([s[0]] + rest[0].text)) + Emit(rest[1..])
  {
    var rest := Prints(s[1..]);
    assert Prints(s)[1..] == if s[0] == '\n' then rest else rest[1..];
  }

  lemma {:induction false} PrintsText(s: string)
    ensures Emit(Prints(s)) == MARKUP_BEGIN + (Written(s) + MARKUP_END)
  {
    if s == "" {
      FlatMapOne(Emitted, Print(""));
    } else {
      PrintsText(s[1..]);
      PrintsUnfold(s);
      var b, e, w, rest := MARKUP_BEGIN, MARKUP_END, Written(s[1..]), Prints(s[1..]);
      if s[0] == '\n' {
        FlatMapOne(Spell, '\n');
        NewLine(b, Spell('\n'), e, w);
      } else {
        var c, l := Spell(s[0]), Spelling(rest[0].text);
        assert ([s[0]] + rest[0].text)[1..] == rest[0].text;
        assert Spelling([s[0]] + rest[0].text) == c + l;
        SameLine(b, l, e, Emit(rest[1..]), w, c);
      }
    }
  }

  lemma NewLine(b: string, l: string, e: string, w: string)
    ensures (b + (l + e)) + (b + (w + e)) == b + ((l + e + b + w) + e)
  {
  }

  lemma SameLine(b: string, l: string, e: string, t: string, w: string, c: string)
    requires (b + (l + e)) + t == b + (w + e)
    ensures (b + ((c + l) + e)) + t == b + ((c + w) + e)
  {
    assert ((b + (l + e)) + t)[|b|..] == (l + e) + t;
    assert (b + (w + e))[|b|..] == w + e;
    assert (b + ((c + l) + e)) + t == b + (c + ((l + e) + t));
    assert b + ((c + w) + e) == b + (c + (w + e));
  }

  lemma {:induction false} PrintsFit(s: string)
    ensures AllFit(Prints(s)) <==> '\\' !in s
  {
    if s != "" {
      PrintsFit(s[1..]);
      var rest := Prints(s[1..]);
      assert s == [s[0]] + s[1..];
      assert rest == [rest[0]] + rest[1..];
      assert AllFit(rest) <==> Fits(rest[0]) && AllFit(rest[1..]);
      if s[0] == '\n' {
        FitsFirst(Print("\n"), rest);
      } else {
        FitsFirst(Print([s[0]] + rest[0].text), rest[1..]);
      }
    }
  }

  lemma FitsFirst(p: Piece, ps: seq<Piece>)
    ensures AllFit([p] + ps) <==> Fits(p) && AllFit(ps)
  {
    var all := [p] + ps;
    assert forall i :: 0 <= i < |ps| ==> all[i + 1] == ps[i];
    if AllFit(all) {
      assert Fits(all[0]);
    }
  }

  lemma FitsAppend(a: seq<Piece>, b: seq<Piece>)
    ensures AllFit(a + b) <==> AllFit(a) && AllFit(b)
  {
    var all := a + b;
    assert forall i :: 0 <= i < |a| ==> all[i] == a[i];
    assert forall i :: 0 <= i < |b| ==> all[|a| + i] == b[i];
  }

  // ----- what a program does -----

  datatype Event = Out(c: char) | Included(what: Include) | Token(l: Lexeme)

  function Outs(s: string): (es: seq<Event>)
    ensures |es| == |s| && forall i :: 0 <= i < |s| ==> es[i] == Out(s[i])
  {
    seq(|s|, i requires 0 <= i < |s| => Out(s[i]))
  }

  function InclusionOf(what: Include): seq<Event> { [Included(what)] }

  function Inclusions(incs: seq<Include>): seq<Event> { FlatMap(InclusionOf, incs) }

  /** The literal of a statement `call "literal" close` at the front. */
  function CallAt(ls: seq<Lexeme>, call: string, close: string): Option<string> {
    var n := |call|;
    if |ls| > n + |close| && ls[..n] == Syms(call) && ls[n].Str? && ls[n].value.Denotes? && ls[n + 1..n + 1 + |close|] == Syms(close)
    then Some(ls[n].value.text) else None
  }

  const PATH := Call(Path(""))
  const COMPONENT := Call(Component(""))

  /** Execution: printing a literal writes its text, an include call includes, and everything else is code. */
  function Execute(ls: seq<Lexeme>): seq<Event>
    decreases |ls|
  {
    if ls == [] then []
    else
      var printed, path, component := CallAt(ls, PRINT, ";\n"), CallAt(ls, PATH, ");"), CallAt(ls, COMPONENT, ");");
      if printed.Some? then Outs(printed.value) + Execute(ls[|PRINT| + 3..])
      else if path.Some? then [Included(Path(path.value))] + Execute(ls[|PATH| + 3..])
      else if component.Some? then [Included(Component(component.value))] + Execute(ls[|COMPONENT| + 3..])
      else [Token(ls[0])] + Execute(ls[1..])
  }

  /** A statement that starts with the only tab in it does not reach into text that starts with one. */
  predicate TabFirst(call: string, close: string) {
    |close| == 2 && |call| > 0 && (forall i :: 0 < i < |call| ==> call[i] != '\t') && '\t' !in close
  }

  lemma NoStraddle(a: seq<Lexeme>, b: seq<Lexeme>, call: string, close: string)
    requires a != [] && (b == [] || b[0] == Sym('\t')) && TabFirst(call, close)
    ensures CallAt(a + b, call, close) == CallAt(a, call, close)
    ensures CallAt(a, call, close).Some? ==> |a| >= |call| + 3
  {
    var ls, n := a + b, |call|;
    if |a| > n + 2 {
      assert ls[..n] == a[..n] && ls[n] == a[n] && ls[n + 1..n + 3] == a[n + 1..n + 3];
    } else if b != [] && |ls| > n + 2 {
      assert ls[|a|] == Sym('\t');
      if |a| < n {
        assert ls[..n][|a|] == Sym('\t') && Syms(call)[|a|] == Sym(call[|a|]);
      } else if |a| > n {
        assert ls[n + 1..n + 3][|a| - n - 1] == Sym('\t') && Syms(close)[|a| - n - 1] == Sym(close[|a| - n - 1]);
      }
    }
  }

  lemma NoTabInside(a: string, b: string)
    requires '\t' !in a && '\t' !in b
    ensures '\t' !in a + b
  {
  }

  lemma OneTab(w: string, close: string)
    requires '\t' !in w && '\t' !in close && |close| == 2
    ensures TabFirst(RESPONSE + w, close)
  {
    var call, r := RESPONSE + w, RESPONSE;
    assert |r| == 9 && forall i :: 0 < i < 9 ==> r[i] != '\t';
    assert forall i :: 9 <= i < |call| ==> call[i] == w[i - 9];
  }

  lemma StatementsTabFirst()
    ensures TabFirst(PRINT, ";\n") && TabFirst(PATH, ");") && TabFirst(COMPONENT, ");")
  {
    NoTabInside("Stream", " << ");
    NoTabInside("->include", "Path(");
    NoTabInside("->include", "Component(");
    OneTab("Stream" + " << ", ";\n");
    OneTab("->include" + "Path(", ");");
    OneTab("->include" + "Component(", ");");
  }

  /** Code is executed by itself before a statement that starts with a tab. */
  lemma {:induction false} ExecuteParts(a: seq<Lexeme>, b: seq<Lexeme>)
    requires b == [] || b[0] == Sym('\t')
    ensures Execute(a + b) == Execute(a) + Execute(b)
    decreases |a|
  {
    if a == [] {
      assert a + b == b;
    } else {
      StatementsTabFirst();
      NoStraddle(a, b, PRINT, ";\n");
      NoStraddle(a, b, PATH, ");");
      NoStraddle(a, b, COMPONENT, ");");
      var n :=
        if CallAt(a, PRINT, ";\n").Some? then |PRINT| + 3
        else if CallAt(a, PATH, ");").Some? then |PATH| + 3
        else if CallAt(a, COMPONENT, ");").Some? then |COMPONENT| + 3
        else 1;
      ExecuteOnward(a, b, n);
    }
  }

  lemma {:induction false} ExecuteOnward(a: seq<Lexeme>, b: seq<Lexeme>, n: nat)
    requires a != [] && 0 < n <= |a| && (b == [] || b[0] == Sym('\t'))
    requires CallAt(a + b, PRINT, ";\n") == CallAt(a, PRINT, ";\n")
    requires CallAt(a + b, PATH, ");") == CallAt(a, PATH, ");")
    requires CallAt(a + b, COMPONENT, ");") == CallAt(a, COMPONENT, ");")
    requires n == if CallAt(a, PRINT, ";\n").Some? then |PRINT| + 3
        else if CallAt(a, PATH, ");").Some? then |PATH| + 3
        else if CallAt(a, COMPONENT, ");").Some? then |COMPONENT| + 3
        else 1
    ensures Execute(a + b) == Execute(a) + Execute(b)
    decreases |a|, 0
  {
    assert (a + b)[n..] == a[n..] + b && (a + b)[0] == a[0];
    ExecuteParts(a[n..], b);
    var first := FirstEvents(a);
    ExecuteSplits(a, n);
    ExecuteSplits(a + b, n);
    Assoc(first, Execute(a[n..]), Execute(b));
  }

  /** The events of the first statement or lexeme. */
  function FirstEvents(ls: seq<Lexeme>): seq<Event>
    requires ls != []
  {
    var printed, path, component := CallAt(ls, PRINT, ";\n"), CallAt(ls, PATH, ");"), CallAt(ls, COMPONENT, ");");
    if printed.Some? then Outs(printed.value)
    else if path.Some? then [Included(Path(path.value))]
    else if component.Some? then [Included(Component(component.value))]
    else [Token(ls[0])]
  }

  lemma ExecuteSplits(ls: seq<Lexeme>, n: nat)
    requires ls != [] && n <= |ls|
    requires n == if CallAt(ls, PRINT, ";\n").Some? then |PRINT| + 3
        else if CallAt(ls, PATH, ");").Some? then |PATH| + 3
        else if CallAt(ls, COMPONENT, ");").Some? then |COMPONENT| + 3
        else 1
    ensures Execute(ls) == FirstEvents(ls) + Execute(ls[n..])
  {
  }

  lemma CallFound(call: string, close: string, t: string, rest: seq<Lexeme>)
    ensures var ls := (Syms(call) + ([Str(Denotes(t))] + Syms(close))) + rest;
      CallAt(ls, call, close) == Some(t) && |ls| >= |call| + 1 + |close| && ls[|call| + 1 + |close|..] == rest
  {
    var n := |call|;
    var ls := (Syms(call) + ([Str(Denotes(t))] + Syms(close))) + rest;
    assert ls[..n] == Syms(call) && ls[n] == Str(Denotes(t)) && ls[n + 1..n + 1 + |close|] == Syms(close);
  }

  /** Another statement, by a character of its call. */
  lemma CallDiffers(ls: seq<Lexeme>, call: string, close: string, i: nat)
    requires i < |call| && i < |ls| && ls[i] != Sym(call[i])
    ensures CallAt(ls, call, close).None?
  {
    if |ls| > |call| + |close| {
      assert ls[..|call|][i] == ls[i] && Syms(call)[i] == Sym(call[i]);
    }
  }

  lemma CallLetters()
    ensures |PRINT| > 9 && PRINT[9] == 'S' && |PATH| > 18 && |COMPONENT| > 18
    ensures PATH[9] == COMPONENT[9] == '-' && PATH[18] == 'P' && COMPONENT[18] == 'C'
  {
    assert |RESPONSE| == 9;
    var a, b, p, c := "Stream", "->include", "Path(", "Component(";
    assert |b| == 9;
    assert PRINT[9] == (a + " << ")[0] == a[0];
    assert PATH[9] == (b + p)[0] == b[0] && PATH[18] == (b + p)[9] == p[0];
    assert COMPONENT[9] == (b + c)[0] == b[0] && COMPONENT[18] == (b + c)[9] == c[0];
  }

  lemma ExecutePrint(t: string, rest: seq<Lexeme>)
    ensures Execute(Wanted(Print(t)) + rest) == Outs(t) + Execute(rest)
  {
    CallFound(PRINT, ";\n", t, rest);
  }

  lemma ExecuteInclude(what: Include, rest: seq<Lexeme>)
    ensures Execute(IncludeWanted(what) + rest) == [Included(what)] + Execute(rest)
  {
    var ls, call := IncludeWanted(what) + rest, Call(what);
    CallLetters();
    CallFound(call, ");", what.value, rest);
    assert call == if what.Path? then PATH else COMPONENT;
    assert ls[9] == Sym(call[9]) && ls[18] == Sym(call[18]);
    CallDiffers(ls, PRINT, ";\n", 9);
    if what.Component? {
      CallDiffers(ls, PATH, ");", 18);
    }
  }

  lemma {:induction false} ExecuteIncludes(incs: seq<Include>, rest: seq<Lexeme>)
    ensures Execute(FlatMap(IncludeWanted, incs) + rest) == Inclusions(incs) + Execute(rest)
    decreases |incs|
  {
    if incs == [] {
      assert FlatMap(IncludeWanted, incs) + rest == rest;
    } else {
      var more := FlatMap(IncludeWanted, incs[1..]);
      Assoc(IncludeWanted(incs[0]), more, rest);
      ExecuteInclude(incs[0], more + rest);
      ExecuteIncludes(incs[1..], rest);
      Assoc(InclusionOf(incs[0]), Inclusions(incs[1..]), Execute(rest));
    }
  }

  /** What a piece does, by itself. */
  function Does(p: Piece): seq<Event> {
    match p
    case Print(t) => Outs(t)
    case Aside(_, _, asked) => Inclusions(asked)
    case _ => Execute(Wanted(p))
  }

  /** Executing the program of the pieces does what each does, in order. */
  lemma {:induction false} ProgramExecutes(ps: seq<Piece>)
    requires Chained(ps)
    ensures Execute(Want(ps)) == FlatMap(Does, ps)
  {
    if ps != [] {
      var p, rest := ps[0], ps[1..];
      ChainedTail(ps);
      ProgramExecutes(rest);
      if !p.Print? {
        PrintStarts(rest);
      }
      match p {
        case Print(t) => ExecutePrint(t, Want(rest));
        case Aside(_, _, asked) => ExecuteIncludes(asked, Want(rest));
        case _ => ExecuteParts(Wanted(p), Want(rest));
      }
    }
  }

  /** The print statements write the markup, character by character. */
  lemma {:induction false} PrintsRun(s: string)
    ensures FlatMap(Does, Prints(s)) == Outs(s)
  {
    if s == "" {
      FlatMapOne(Does, Print(""));
    } else {
      PrintsRun(s[1..]);
      var rest := Prints(s[1..]);
      assert s == [s[0]] + s[1..];
      OutsAppend([s[0]], s[1..]);
      if s[0] == '\n' {
        assert Prints(s)[1..] == rest;
      } else {
        assert Prints(s)[1..] == rest[1..];
        OutsAppend([s[0]], rest[0].text);
        Assoc(Outs([s[0]]), Outs(rest[0].text), FlatMap(Does, rest[1..]));
      }
    }
  }

  lemma OutsAppend(a: string, b: string)
    ensures Outs(a + b) == Outs(a) + Outs(b)
  {
  }

  // ----- the written statements, in full -----

  lemma PrintOpens()
    ensures MARKUP_BEGIN == "\tresponseStream << \"" && EXPR_BEGIN == "\tresponseStream << ("
  {
  }

  lemma CallOpens(v: string)
    ensures Call(Path(v)) + "\"" == "\tresponse->includePath(\""
    ensures Call(Component(v)) + "\"" == "\tresponse->includeComponent(\""
  {
  }

  lemma StatementChain(a: string, b: string, c: string, v: string, z: string)
    requires a + b == c
    ensures a + (b + (v + z)) == c + v + z
  {
  }

  /** What is written for markup, an expression and an include, word for word. */
  lemma StatementTexts(v: string)
    ensures Emitted(Print(v)) == "\tresponseStream << \"" + Spelling(v) + "\";\n"
    ensures Emitted(PrintExpr(v)) == "\tresponseStream << (" + v + ");\n"
    ensures IncludeText(Path(v)) == "\tresponse->includePath(\"" + v + "\");"
    ensures IncludeText(Component(v)) == "\tresponse->includeComponent(\"" + v + "\");"
  {
    PrintOpens();
    CallOpens(v);
    assert "\"" + ");" == "\");";
    StatementChain(Call(Path(v)), "\"", "\tresponse->includePath(\"", v, "\");");
    StatementChain(Call(Component(v)), "\"", "\tresponse->includeComponent(\"", v, "\");");
  }
}
