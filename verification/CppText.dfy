/**
 C++ text as a compiler's lexer reads it: characters of code, string literals by what they denote, character
 literals, and comments as a space. Text may end inside a literal or a comment; that is an open lexeme.
 */
module CppText {
  import opened Common

  // ----- what a string literal denotes -----

  /** The simple escape sequences of a C++ string literal. */
  function Escape(c: char): string {
    match c
    case 'n' => "\n"
    case 't' => "\t"
    case 'r' => "\r"
    case '\\' => "\\"
    case '"' => "\""
    case '\'' => "'"
    case '?' => "?"
    case 'a' => "\U{07}"
    case 'b' => "\U{08}"
    case 'v' => "\U{0B}"
    case 'f' => "\U{0C}"
    case _ => ""
  }

  /** A literal with a line end or an escape that is not simple has no denotation here. */
  datatype Denotation = Garbled | Denotes(text: string)

  function Join(a: Denotation, b: Denotation): Denotation {
    if a.Denotes? && b.Denotes? then Denotes(a.text + b.text) else Garbled
  }

  function Escaped(c: char): Denotation { if Escape(c) == "" then Garbled else Denotes(Escape(c)) }

  /** The denotation of the literal whose characters and closing quote stand at the front of `w`. */
  function Literal(w: string): Denotation {
    if w == "" || w[0] == '\n' then Garbled
    else if w[0] == '"' then Denotes("")
    else if w[0] != '\\' then Join(Denotes([w[0]]), Literal(w[1..]))
    else if |w| == 1 then Garbled
    else Join(Escaped(w[1]), Literal(w[2..]))
  }

  // ----- the lexer -----

  datatype Lexeme = Sym(c: char) | Str(value: Denotation) | Chr(text: string) | Open

  /** Where on its line code stands: a `#` at the start makes the line a directive, up to an unescaped line end. */
  datatype Line = Start | Middle | Preprocessing(escaped: bool)

  datatype Mode =
    | Code(line: Line)
    | Slash(line: Line)
    | LineComment(escaped: bool)
    | BlockComment(line: Line, star: bool)
    | InString(line: Line, value: Denotation, escaped: bool)
    | InChar(line: Line, text: string, escaped: bool)

  function LineAfter(l: Line, c: char): Line {
    match l
    case Preprocessing(escaped) => if c == '\n' && !escaped then Start else Preprocessing(c == '\\')
    case Middle => if c == '\n' then Start else Middle
    case Start => if IsSpaceCode(c as int) then Start else if c == '#' then Preprocessing(false) else Middle
  }

  predicate Ordinary(c: char) { c != '/' && c != '"' && c != '\'' }

  function FromCode(l: Line, c: char): Mode {
    match c
    case '/' => Slash(l)
    case '"' => InString(LineAfter(l, c), Denotes(""), false)
    case '\'' => InChar(LineAfter(l, c), "", false)
    case _ => Code(LineAfter(l, c))
  }

  function CodeGives(c: char): seq<Lexeme> { if Ordinary(c) then [Sym(c)] else [] }

  function Next(m: Mode, c: char): Mode {
    match m
    case Code(l) => FromCode(l, c)
    case Slash(l) =>
      if c == '/' then LineComment(false)
      else if c == '*' then BlockComment(l, false)
      else FromCode(LineAfter(l, '/'), c)
    case LineComment(escaped) => if c == '\n' && !escaped then Code(Start) else LineComment(c == '\\')
    case BlockComment(l, star) => if c == '/' && star then Code(l) else BlockComment(l, c == '*')
    case InString(l, v, escaped) =>
      if escaped then InString(l, Join(v, Escaped(c)), false)
      else if c == '"' then Code(l)
      else if c == '\\' then InString(l, v, true)
      else InString(l, if c == '\n' then Garbled else Join(v, Denotes([c])), false)
    case InChar(l, t, escaped) =>
      if c == '\'' && !escaped then Code(l) else InChar(l, t + [c], c == '\\' && !escaped)
  }

  /** The lexemes that a character completes; a comment counts as a space. */
  function Gives(m: Mode, c: char): seq<Lexeme> {
    match m
    case Code(_) => CodeGives(c)
    case Slash(_) => if c == '/' || c == '*' then [] else [Sym('/')] + CodeGives(c)
    case LineComment(escaped) => if c == '\n' && !escaped then [Sym(' '), Sym('\n')] else []
    case BlockComment(_, star) => if c == '/' && star then [Sym(' ')] else []
    case InString(_, v, escaped) => if c == '"' && !escaped then [Str(v)] else []
    case InChar(_, t, escaped) => if c == '\'' && !escaped then [Chr(t)] else []
  }

  function AtEnd(m: Mode): seq<Lexeme> {
    match m
    case Code(l) => if l.Preprocessing? then [Open] else []
    case Slash(l) => if l.Preprocessing? then [Sym('/'), Open] else [Sym('/')]
    case _ => [Open]
  }

  function ModeAfter(m: Mode, s: string): Mode
    decreases |s|
  {
    if s == "" then m else ModeAfter(Next(m, s[0]), s[1..])
  }

  function Given(m: Mode, s: string): seq<Lexeme>
    decreases |s|
  {
    if s == "" then [] else Gives(m, s[0]) + Given(Next(m, s[0]), s[1..])
  }

  function LexFrom(m: Mode, s: string): seq<Lexeme> { Given(m, s) + AtEnd(ModeAfter(m, s)) }

  /** A text read from the start of a line. */
  function Lexemes(s: string): seq<Lexeme> { LexFrom(Code(Start), s) }

  /** The text, put after `l`, ends in code: outside every literal, comment and directive. */
  predicate EndsInCode(l: Line, s: string) {
    var m := ModeAfter(Code(l), s);
    (m.Code? || m.Slash?) && !m.line.Preprocessing?
  }

  function Syms(s: string): (ls: seq<Lexeme>)
    ensures |ls| == |s| && forall i :: 0 <= i < |s| ==> ls[i] == Sym(s[i])
  {
    seq(|s|, i requires 0 <= i < |s| => Sym(s[i]))
  }

  // ----- reading a text in two parts -----

  lemma {:induction false} Parts(m: Mode, a: string, b: string)
    ensures ModeAfter(m, a + b) == ModeAfter(ModeAfter(m, a), b)
    ensures Given(m, a + b) == Given(m, a) + Given(ModeAfter(m, a), b)
    decreases |a|
  {
    if a == "" {
      assert a + b == b;
    } else {
      assert (a + b)[0] == a[0] && (a + b)[1..] == a[1..] + b;
      var n := Next(m, a[0]);
      Parts(n, a[1..], b);
      Assoc(Gives(m, a[0]), Given(n, a[1..]), Given(ModeAfter(n, a[1..]), b));
    }
  }

  lemma LexParts(m: Mode, a: string, b: string)
    ensures LexFrom(m, a + b) == Given(m, a) + LexFrom(ModeAfter(m, a), b)
  {
    Parts(m, a, b);
    var n := ModeAfter(m, a);
    Assoc(Given(m, a), Given(n, b), AtEnd(ModeAfter(n, b)));
  }

  lemma LexStep(m: Mode, w: string)
    requires w != ""
    ensures LexFrom(m, w) == Gives(m, w[0]) + LexFrom(Next(m, w[0]), w[1..])
  {
    var n := Next(m, w[0]);
    Assoc(Gives(m, w[0]), Given(n, w[1..]), AtEnd(ModeAfter(n, w[1..])));
  }

  /** Text without quotes, slashes and `#` is code. */
  predicate Bare(s: string) { forall i :: 0 <= i < |s| ==> Ordinary(s[i]) && s[i] != '#' }

  function LineOf(l: Line, s: string): (r: Line)
    ensures !l.Preprocessing? && Bare(s) ==> !r.Preprocessing?
    decreases |s|
  {
    if s == "" then l else LineOf(LineAfter(l, s[0]), s[1..])
  }

  lemma {:induction false} BareReads(l: Line, s: string)
    requires Bare(s)
    ensures ModeAfter(Code(l), s) == Code(LineOf(l, s)) && Given(Code(l), s) == Syms(s)
    decreases |s|
  {
    if s != "" {
      BareReads(LineAfter(l, s[0]), s[1..]);
      assert Syms(s) == [Sym(s[0])] + Syms(s[1..]);
    }
  }

  lemma BareThen(l: Line, s: string, w: string)
    requires Bare(s)
    ensures LexFrom(Code(l), s + w) == Syms(s) + LexFrom(Code(LineOf(l, s)), w)
  {
    BareReads(l, s);
    LexParts(Code(l), s, w);
  }

  /** Text that ends in code is read by itself, whatever follows, unless a slash meets the start of a comment. */
  lemma CodeThen(l: Line, s: string, w: string) returns (after: Line)
    requires EndsInCode(l, s) && w != "" && w[0] != '/' && w[0] != '*'
    ensures !after.Preprocessing? && LexFrom(Code(l), s + w) == LexFrom(Code(l), s) + LexFrom(Code(after), w)
  {
    LexParts(Code(l), s, w);
    var m, given := ModeAfter(Code(l), s), Given(Code(l), s);
    if m.Slash? {
      after := LineAfter(m.line, '/');
      LexStep(m, w);
      LexStep(Code(after), w);
      Assoc([Sym('/')], CodeGives(w[0]), LexFrom(FromCode(after, w[0]), w[1..]));
      Assoc(given, [Sym('/')], LexFrom(Code(after), w));
    } else {
      after := m.line;
      assert given + [] == given;
    }
  }

  lemma {:induction false} GivenIsClosed(m: Mode, s: string)
    ensures forall i :: 0 <= i < |Given(m, s)| ==> Given(m, s)[i] != Open
    decreases |s|
  {
    if s != "" {
      GivenIsClosed(Next(m, s[0]), s[1..]);
    }
  }

  /** Only the last lexeme of a text is ever open. */
  lemma OpenIsLast(m: Mode, s: string, i: nat)
    requires i + 1 < |LexFrom(m, s)|
    ensures LexFrom(m, s)[i] != Open
  {
    GivenIsClosed(m, s);
  }

  lemma OpenAtEnd(l: Line, s: string)
    requires !EndsInCode(l, s)
    ensures var ls := LexFrom(Code(l), s); ls != [] && ls[|ls| - 1] == Open
  {
  }

  /** No text reads as code that is cut off in a literal, a comment or a directive and then goes on. */
  lemma NoTextReadsAsCut(before: seq<Lexeme>, l: Line, s: string, after: seq<Lexeme>, m: Mode, text: string)
    requires !EndsInCode(l, s) && after != []
    ensures LexFrom(m, text) != before + (LexFrom(Code(l), s) + after)
  {
    OpenAtEnd(l, s);
    var cut := LexFrom(Code(l), s);
    var ls, i := before + (cut + after), |before| + |cut| - 1;
    assert ls[i] == cut[|cut| - 1];
    if i + 1 < |LexFrom(m, text)| {
      OpenIsLast(m, text, i);
    }
  }

  // ----- string literals -----

  /** From inside a literal: the first lexeme is the literal with its denotation, or nothing closes it. */
  lemma {:induction false} StringFirst(l: Line, v: Denotation, w: string)
    ensures var ls := LexFrom(InString(l, v, false), w);
      ls != [] && if ls[0] == Open then Literal(w) == Garbled else ls[0] == Str(Join(v, Literal(w)))
    decreases |w|
  {
    var m := InString(l, v, false);
    if w != "" {
      LexStep(m, w);
      if w[0] == '"' {
        assert v.Denotes? ==> v.text + "" == v.text;
      } else if w[0] == '\\' {
        if |w| > 1 {
          LexStep(InString(l, v, true), w[1..]);
          StringFirst(l, Join(v, Escaped(w[1])), w[2..]);
          assert w[1..][1..] == w[2..];
          JoinAssoc(v, Escaped(w[1]), Literal(w[2..]));
        }
      } else {
        var c := if w[0] == '\n' then Garbled else Join(v, Denotes([w[0]]));
        StringFirst(l, c, w[1..]);
        JoinAssoc(v, Denotes([w[0]]), Literal(w[1..]));
      }
    }
  }

  lemma JoinAssoc(a: Denotation, b: Denotation, c: Denotation)
    ensures Join(Join(a, b), c) == Join(a, Join(b, c))
  {
    if a.Denotes? && b.Denotes? && c.Denotes? {
      Assoc(a.text, b.text, c.text);
    }
  }

  /** A literal that closes where `w` starts again. */
  lemma StringCloses(l: Line, v: string, w: string)
    ensures LexFrom(InString(l, Denotes(v), false), "\"" + w) == [Str(Denotes(v))] + LexFrom(Code(l), w)
  {
    var s := "\"" + w;
    assert s[1..] == w;
    LexStep(InString(l, Denotes(v), false), s);
  }

  lemma StringGoesOn(l: Line, v: string, c: char, w: string)
    requires c != '"' && c != '\\' && c != '\n'
    ensures LexFrom(InString(l, Denotes(v), false), [c] + w) == LexFrom(InString(l, Denotes(v + [c]), false), w)
  {
    var s := [c] + w;
    assert s[1..] == w;
    LexStep(InString(l, Denotes(v), false), s);
  }

  lemma StringEscapes(l: Line, v: string, c: char, w: string)
    requires Escape(c) != ""
    ensures LexFrom(InString(l, Denotes(v), false), "\\" + ([c] + w)) == LexFrom(InString(l, Denotes(v + Escape(c)), false), w)
  {
    var s := "\\" + ([c] + w);
    assert s[1..] == [c] + w && s[1..][1..] == w;
    LexStep(InString(l, Denotes(v), false), s);
    LexStep(InString(l, Denotes(v), true), s[1..]);
  }

  // ----- text put between quotes as it is -----

  predicate Verbatim(t: string) { '"' !in t && '\\' !in t && '\n' !in t }

  lemma {:induction false} VerbatimReads(l: Line, v: string, t: string, w: string)
    requires Verbatim(t)
    ensures LexFrom(InString(l, Denotes(v), false), t + ("\"" + w)) == [Str(Denotes(v + t))] + LexFrom(Code(l), w)
    decreases |t|
  {
    if t == "" {
      assert t + ("\"" + w) == "\"" + w && v + t == v;
      StringCloses(l, v, w);
    } else {
      var rest := t[1..] + ("\"" + w);
      assert t + ("\"" + w) == [t[0]] + rest && t == [t[0]] + t[1..];
      StringGoesOn(l, v, t[0], rest);
      VerbatimReads(l, v + [t[0]], t[1..], w);
      Assoc(v, [t[0]], t[1..]);
    }
  }

  /** A run of backslashes is never its own denotation: each escape uses up two. */
  lemma {:induction false} BackslashesShrink(s: string, k: nat, w: string)
    requires 2 * k <= |s| && s != "" && s[0] == '\\' && forall i :: 0 <= i < 2 * k ==> s[i] == '\\'
    ensures Literal(s[2 * k..] + ("\"" + w)) != Denotes(s[k..])
    decreases |s| - 2 * k
  {
    var z, e := s[2 * k..] + ("\"" + w), s[k..];
    assert e[0] == '\\';
    if 2 * k == |s| {
      assert z[0] == '"';
    } else {
      assert z[0] == s[2 * k];
      if z[0] == '\\' {
        if 2 * k + 1 == |s| {
          assert z[1] == '"';
          FirstDiffers(Escaped('"'), Literal(z[2..]), e);
        } else {
          assert z[1] == s[2 * k + 1];
          if z[1] == '\\' {
            BackslashesShrink(s, k + 1, w);
            assert z[2..] == s[2 * (k + 1)..] + ("\"" + w) && e == ['\\'] + s[k + 1..];
            JoinCancels("\\", Literal(z[2..]), s[k + 1..]);
          } else {
            EscapeIsOneChar(z[1]);
            FirstDiffers(Escaped(z[1]), Literal(z[2..]), e);
          }
        }
      } else if z[0] != '"' && z[0] != '\n' {
        FirstDiffers(Denotes([z[0]]), Literal(z[1..]), e);
      }
    }
  }

  lemma EscapeIsOneChar(c: char)
    ensures |Escape(c)| <= 1
    ensures Escape(c) == "\\" <==> c == '\\'
  {
  }

  lemma FirstDiffers(a: Denotation, d: Denotation, e: string)
    requires e != "" && (a.Denotes? ==> |a.text| == 1 && a.text[0] != e[0])
    ensures Join(a, d) != Denotes(e)
  {
    if a.Denotes? && d.Denotes? {
      assert (a.text + d.text)[0] == a.text[0];
    }
  }

  lemma JoinCancels(a: string, d: Denotation, e: string)
    ensures Join(Denotes(a), d) == Denotes(a + e) <==> d == Denotes(e)
  {
    if d.Denotes? && a + d.text == a + e {
      assert d.text == (a + d.text)[|a|..] && e == (a + e)[|a|..];
    }
  }

  /** Quoted as it is, a text denotes itself exactly if it holds no quote, backslash or line end. */
  lemma {:induction false} VerbatimExactly(t: string, w: string)
    ensures Literal(t + ("\"" + w)) == Denotes(t) <==> Verbatim(t)
    decreases |t|
  {
    var z := t + ("\"" + w);
    if t == "" {
      assert z[0] == '"';
    } else if t[0] == '\\' {
      assert t[0..] == t;
      BackslashesShrink(t, 0, w);
    } else if t[0] != '"' && t[0] != '\n' {
      var rest := t[1..] + ("\"" + w);
      assert z[0] == t[0] && z[1..] == rest && t == [t[0]] + t[1..];
      VerbatimExactly(t[1..], w);
      JoinCancels([t[0]], Literal(rest), t[1..]);
    }
  }
}
