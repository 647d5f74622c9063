/**
 The page reader: it turns a server page into C++ statements for the handler and into text for the
 other sections of the generated source.

 `Compile` is the reader as a state machine over tokens and `Reader.Parse` is the loop that runs it. An
 independent reading of the same page as markup and blocks, and what it means, are in PageMeaning.
 */
module PageReader {
  import opened Common
  import opened PageTarget

  // ----- tokens -----

  /** How many characters nextToken consumes; it consumes none only at the end of the input. */
  function TokenLength(s: string): (n: nat)
    ensures n <= |s| && (n == 0 <==> s == "")
  {
    if s == "" then 0
    else if s[0] == '<' && |s| > 1 && s[1] == '%' then
      if |s| == 2 then 2
      else if s[2] == '%' || s[2] == '@' || s[2] == '=' then 3
      else if s[2] == '!' || s[2] == '-' then (if |s| > 3 && s[3] == s[2] then 4 else 3)
      else 2
    else if s[0] == '%' && |s| > 1 && s[1] == '>' then 2
    else 1
  }

  datatype List = Nil | Cons(head: string, tail: List)

  function Tokens(s: string): List {
    if s == "" then Nil else Cons(s[..TokenLength(s)], Tokens(s[TokenLength(s)..]))
  }

  function Flatten(ts: List): string {
    match ts case Nil => "" case Cons(t, rest) => t + Flatten(rest)
  }

  /** The tokenizer loses nothing. */
  lemma {:induction false} TokensLossless(s: string)
    ensures Flatten(Tokens(s)) == s
  {
    if s != "" {
      TokensLossless(s[TokenLength(s)..]);
    }
  }

  /** The tokens of more than one character. */
  predicate Fixed(t: string) {
    || t == "<%" || t == "<%%" || t == "<%@" || t == "<%=" || t == "<%!" || t == "<%!!" || t == "<%-" || t == "<%--"
    || t == "%>"
  }

  ghost predicate FixedAt(s: string, f: string) { Fixed(f) && f <= s }

  /** `t` is the longest fixed token `s` starts with, or its first character if it starts with none. */
  ghost predicate FirstToken(s: string, t: string) {
    && t <= s
    && (FixedAt(s, t) || (|t| == 1 && forall f: string :: !FixedAt(s, f)))
    && forall f: string :: FixedAt(s, f) ==> |f| <= |t|
  }

  /** `ts` is `s` cut into first tokens. */
  ghost predicate Cut(s: string, ts: List)
    decreases ts
  {
    match ts
    case Nil => s == ""
    case Cons(t, rest) => FirstToken(s, t) && Cut(s[|t|..], rest)
  }

  lemma FixedLength(s: string, f: string)
    requires FixedAt(s, f)
    ensures |f| <= TokenLength(s) && TokenLength(s) >= 2
  {
    assert forall i :: 0 <= i < |f| ==> f[i] == s[i];
  }

  lemma LongestFixed(s: string)
    requires s != ""
    ensures TokenLength(s) == 1 || FixedAt(s, s[..TokenLength(s)])
  {
    var t := s[..TokenLength(s)];
    assert forall i :: 0 <= i < |t| ==> t[i] == s[i];
    if |t| == 2 {
      assert t == [s[0], s[1]];
    } else if |t| == 3 {
      assert t == [s[0], s[1], s[2]];
    } else if |t| == 4 {
      assert t == [s[0], s[1], s[2], s[3]];
    }
  }

  lemma FirstTokenLength(s: string, t: string)
    requires s != "" && t <= s
    ensures FirstToken(s, t) <==> |t| == TokenLength(s)
  {
    var u := s[..TokenLength(s)];
    LongestFixed(s);
    forall f: string | FixedAt(s, f)
      ensures |f| <= |u| && |u| >= 2
    {
      FixedLength(s, f);
    }
    assert FirstToken(s, u);
    if |t| == |u| {
      assert t == u;
    }
  }

  /** The tokenizer cuts off the longest token every time, and there is no other way to cut the input so. */
  lemma {:induction false} TokensExactly(s: string, ts: List)
    ensures Cut(s, ts) <==> ts == Tokens(s)
    decreases ts
  {
    if s != "" && ts.Cons? {
      var t := ts.head;
      if t <= s {
        FirstTokenLength(s, t);
        assert t == s[..|t|];
        TokensExactly(s[|t|..], ts.tail);
      }
    }
  }

  // ----- the state machine -----

  datatype State = Markup | ImplDecl | Functions | HdrDecl | Methods | PreHandler | Block | Expr | Comment | Attr

  /** The state an opener token switches to; `<%-` is not an opener. */
  function Opener(t: string): Option<State> {
    if |t| < 2 || t[0] != '<' || t[1] != '%' then None
    else if |t| == 2 then Some(Block)
    else if |t| == 3 then
      match t[2] {
        case '%' => Some(PreHandler)
        case '!' => Some(Functions)
        case '@' => Some(Attr)
        case '=' => Some(Expr)
        case _ => None
      }
    else if |t| == 4 && t[2] == t[3] == '!' then Some(Methods)
    else if |t| == 4 && t[2] == t[3] == '-' then Some(Comment)
    else None
  }

  /** The seven openers and the blocks they open. */
  predicate Opens(t: string, kind: State) {
    || (t == "<%" && kind == Block)
    || (t == "<%%" && kind == PreHandler)
    || (t == "<%!" && kind == Functions)
    || (t == "<%!!" && kind == Methods)
    || (t == "<%@" && kind == Attr)
    || (t == "<%=" && kind == Expr)
    || (t == "<%--" && kind == Comment)
  }

  lemma OpenersListed(t: string, kind: State)
    ensures Opener(t) == Some(kind) <==> Opens(t, kind)
  {
    if Opener(t) == Some(kind) {
      assert |t| == 2 ==> t == [t[0], t[1]];
      assert |t| == 3 ==> t == [t[0], t[1], t[2]];
      assert |t| == 4 ==> t == [t[0], t[1], t[2], t[3]];
    }
  }

  datatype Page = Page(
    handler: string,
    preHandler: string,
    functions: string,
    methods: string,
    headerDecls: string,
    implDecls: string,
    attributes: map<string, string>)
  {
    function H(text: string): Page { this.(handler := handler + text) }
  }

  datatype Error =
    | Unclosed
    | BadAttribute(problem: AttrProblem)
    | PageInclusion(path: string)   // reading the included page is not part of this model

  datatype Result<T> = Ok(value: T) | Err(error: Error)
  {
    predicate IsFailure() { Err? }
    function PropagateFailure<U>(): Result<U> requires Err? { Err(error) }
    function Extract(): T requires Ok? { value }
  }

  datatype Machine = Machine(state: State, attrs: string, page: Page)

  /** What an ordinary character of markup adds to the handler. */
  function MarkupText(t: string): string {
    if t == "\n" then "\\n" + MARKUP_END + MARKUP_BEGIN
    else if t == "\t" then "\\t"
    else if t == "\"" then "\\\""
    else if t == "\r" then ""
    else t
  }

  function WriteText(m: Machine, t: string): Machine {
    match m.state
    case Markup => m.(page := m.page.H(MarkupText(t)))
    case ImplDecl => m.(page := m.page.(implDecls := m.page.implDecls + t))
    case Functions => m.(page := m.page.(functions := m.page.functions + t))
    case HdrDecl => m.(page := m.page.(headerDecls := m.page.headerDecls + t))
    case Methods => m.(page := m.page.(methods := m.page.methods + t))
    case PreHandler => m.(page := m.page.(preHandler := m.page.preHandler + t))
    case Block => m.(page := m.page.H(t))
    case Expr => m.(page := m.page.H(t))
    case Comment => m
    case Attr => m.(attrs := m.attrs + t)
  }

  function Close(m: Machine): Result<Machine> {
    match m.state
    case Markup => Ok(m.(page := m.page.H("%>")))
    case Expr => Ok(m.(state := Markup, page := m.page.H(EXPR_END + MARKUP_BEGIN)))
    case Attr =>
      var page :- ApplyDirective(m.page, m.attrs);
      Ok(Machine(Markup, "", page.H(MARKUP_BEGIN)))
    case _ => Ok(m.(state := Markup, page := m.page.H(MARKUP_BEGIN)))
  }

  function Step(m: Machine, t: string): Result<Machine> {
    match Opener(t)
    case Some(target) =>
      if m.state != Markup then Ok(m.(page := m.page.H(t)))
      else Ok(Machine(target, if target == Attr then "" else m.attrs,
                      m.page.H(MARKUP_END + if target == Expr then EXPR_BEGIN else "")))
    case None => if t == "%>" then Close(m) else Ok(WriteText(m, t))
  }

  function Finish(m: Machine, ts: List): Result<Page>
    decreases ts
  {
    match ts
    case Nil => if m.state == Markup then Ok(m.page.H(MARKUP_END)) else Err(Unclosed)
    case Cons(t, rest) =>
      match Step(m, t)
      case Err(e) => Err(e)
      case Ok(m') => Finish(m', rest)
  }

  function Compile(page: Page, input: string): Result<Page> {
    Finish(Machine(Markup, "", page.H(MARKUP_BEGIN)), Tokens(input))
  }

  // ----- directives -----

  datatype AttrProblem = EqualsExpected | DoubleQuoteExpected | SingleQuoteExpected | QuoteExpected

  /** The attributes read before the end of the directive or before the first syntax error. */
  datatype AttrList = AttrList(items: seq<(string, string)>, problem: Option<AttrProblem>)

  predicate IsSpace(c: char) { IsSpaceCode(c as int) }

  predicate IsAlnum(c: char) { '0' <= c <= '9' || 'A' <= c <= 'Z' || 'a' <= c <= 'z' }

  function Alnums(s: string): (n: nat)
    ensures n <= |s|
  {
    if s != "" && IsAlnum(s[0]) then 1 + Alnums(s[1..]) else 0
  }

  function UpTo(s: string, c: char): (n: nat)
    ensures n <= |s|
  {
    if s == "" || s[0] == c then 0 else 1 + UpTo(s[1..], c)
  }

  function SkipSpaces(s: string): (r: string)
    ensures |r| <= |s|
  {
    if s != "" && IsSpace(s[0]) then SkipSpaces(s[1..]) else s
  }

  datatype Scanned = Attribute(name: string, value: string, rest: string) | Problem(problem: AttrProblem)

  /** One `name = "value"` at the front, and what follows it once spaces are skipped. */
  function ScanAttribute(s: string): (r: Scanned)
    ensures r.Attribute? ==> |r.rest| < |s|
  {
    var n := Alnums(s);
    var eq := SkipSpaces(s[n..]);
    if eq == "" || eq[0] != '=' then Problem(EqualsExpected)
    else ScanValue(s[..n], SkipSpaces(eq[1..]))
  }

  function ScanValue(name: string, q: string): (r: Scanned)
    ensures r.Attribute? ==> |r.rest| < |q|
  {
    if q == "" || (q[0] != '"' && q[0] != '\'') then Problem(QuoteExpected)
    else
      var v := UpTo(q[1..], q[0]);
      if v == |q| - 1 then Problem(if q[0] == '"' then DoubleQuoteExpected else SingleQuoteExpected)
      else Attribute(name, q[1..v + 1], SkipSpaces(q[v + 2..]))
  }

  function Attributes(s: string, base: string): AttrList
    decreases |s|
  {
    if s == "" then AttrList([], None)
    else
      match ScanAttribute(s)
      case Problem(p) => AttrList([], Some(p))
      case Attribute(name, value, rest) =>
        var more := Attributes(rest, base);
        AttrList([(base + "." + name, value)] + more.items, more.problem)
  }

  function DirectiveAttributes(attrs: string): AttrList {
    var s := SkipSpaces(attrs);
    Attributes(SkipSpaces(s[Alnums(s)..]), s[..Alnums(s)])
  }

  function IncludeLine(file: string): string { "#include \"" + (file + "\"\n") }

  function SystemLine(file: string): string { "#include <" + (file + ">\n") }

  function HandleAttribute(page: Page, name: string, value: string): Result<Page> {
    if name == "include.page" then Err(PageInclusion(value))
    else if name == "include.path" then Ok(page.H(IncludeText(Path(value))))
    else if name == "include.component" then Ok(page.H(IncludeText(Component(value))))
    else if name == "header.include" then Ok(page.(headerDecls := page.headerDecls + IncludeLine(value)))
    else if name == "header.sinclude" then Ok(page.(headerDecls := page.headerDecls + SystemLine(value)))
    else if name == "impl.include" then Ok(page.(implDecls := page.implDecls + IncludeLine(value)))
    else if name == "impl.sinclude" then Ok(page.(implDecls := page.implDecls + SystemLine(value)))
    else if name in page.attributes then Ok(page)
    else Ok(page.(attributes := page.attributes[name := value]))
  }

  function HandleAttributes(page: Page, items: seq<(string, string)>): Result<Page>
    decreases |items|
  {
    if items == [] then Ok(page)
    else
      var p :- HandleAttribute(page, items[0].0, items[0].1);
      HandleAttributes(p, items[1..])
  }

  function ApplyDirective(page: Page, attrs: string): Result<Page> {
    ApplyList(page, DirectiveAttributes(attrs))
  }

  function ApplyList(page: Page, list: AttrList): Result<Page> {
    var p :- HandleAttributes(page, list.items);
    if list.problem.Some? then Err(BadAttribute(list.problem.value)) else Ok(p)
  }

  // ----- the syntax of directives -----

  predicate Alphanumeric(s: string) { forall i :: 0 <= i < |s| ==> IsAlnum(s[i]) }

  predicate Spaces(s: string) { forall i :: 0 <= i < |s| ==> IsSpace(s[i]) }

  /** An attribute as an author writes it: `name = "value"`, in either kind of quotes, with any spaces between. */
  datatype Entry = Entry(name: string, before: string, after: string, quote: char, value: string, gap: string)
  {
    /** Spaces in front of a missing name belong to what is written before. */
    predicate Valid() {
      && Alphanumeric(name) && Spaces(before) && Spaces(after) && Spaces(gap) && (name == "" ==> before == "")
      && (quote == '"' || quote == '\'') && quote !in value
    }

    function Quoted(rest: string): string { [quote] + (value + ([quote] + (gap + rest))) }

    function Text(rest: string): string { name + (before + ("=" + (after + Quoted(rest)))) }
  }

  function EntriesText(es: seq<Entry>): string {
    if es == [] then "" else es[0].Text(EntriesText(es[1..]))
  }

  /** The attributes the entries stand for. */
  function Qualified(base: string, es: seq<Entry>): seq<(string, string)> {
    if es == [] then [] else [(base + "." + es[0].name, es[0].value)] + Qualified(base, es[1..])
  }

  predicate AllValid(es: seq<Entry>) { forall i :: 0 <= i < |es| ==> es[i].Valid() }

  lemma {:induction false} AlnumsOf(s: string, rest: string)
    requires Alphanumeric(s) && (rest == "" || !IsAlnum(rest[0]))
    ensures Alnums(s + rest) == |s|
  {
    if s == "" {
      assert s + rest == rest;
    } else {
      assert (s + rest)[1..] == s[1..] + rest;
      AlnumsOf(s[1..], rest);
    }
  }

  lemma {:induction false} UpToOf(s: string, c: char, rest: string)
    requires c !in s && rest != "" && rest[0] == c
    ensures UpTo(s + rest, c) == |s|
  {
    if s == "" {
      assert s + rest == rest;
    } else {
      assert (s + rest)[1..] == s[1..] + rest;
      UpToOf(s[1..], c, rest);
    }
  }

  lemma {:induction false} SpacesSkipped(s: string, rest: string)
    requires Spaces(s)
    ensures SkipSpaces(s + rest) == SkipSpaces(rest)
  {
    if s == "" {
      assert s + rest == rest;
    } else {
      assert (s + rest)[1..] == s[1..] + rest;
      SpacesSkipped(s[1..], rest);
    }
  }

  lemma ScanEntry(e: Entry, rest: string)
    requires e.Valid() && SkipSpaces(rest) == rest
    ensures ScanAttribute(e.Text(rest)) == Attribute(e.name, e.value, rest)
    ensures SkipSpaces(e.Text(rest)) == e.Text(rest) && e.Text(rest) != ""
  {
    var q := e.Quoted(rest);
    var eq := "=" + (e.after + q);
    var tail := e.before + eq;
    var s := e.name + tail;
    assert !IsAlnum(tail[0]) by { assert tail[0] == if e.before == "" then '=' else e.before[0]; }
    AlnumsOf(e.name, tail);
    assert s[..|e.name|] == e.name && s[|e.name|..] == tail;
    SpacesSkipped(e.before, eq);
    assert SkipSpaces(eq) == eq && eq[1..] == e.after + q;
    SpacesSkipped(e.after, q);
    assert SkipSpaces(q) == q;
    ScanQuoted(e, rest);
    assert SkipSpaces(s) == s by { assert s[0] == if e.name == "" then '=' else e.name[0]; }
  }

  lemma ScanQuoted(e: Entry, rest: string)
    requires e.Valid() && SkipSpaces(rest) == rest
    ensures ScanValue(e.name, e.Quoted(rest)) == Attribute(e.name, e.value, rest)
  {
    var close := [e.quote] + (e.gap + rest);
    var tail := e.value + close;
    var q := [e.quote] + tail;
    assert q[1..] == tail;
    UpToOf(e.value, e.quote, close);
    assert q[|e.value| + 2..] == e.gap + rest;
    assert q[1..|e.value| + 1] == e.value;
    SpacesSkipped(e.gap, rest);
  }

  /** Reading back written attributes yields them in order, qualified by the name of the directive. */
  lemma {:induction false} AttributesRoundTrip(base: string, es: seq<Entry>)
    requires AllValid(es)
    ensures Attributes(EntriesText(es), base) == AttrList(Qualified(base, es), None)
    ensures SkipSpaces(EntriesText(es)) == EntriesText(es)
    decreases |es|
  {
    if es != [] {
      AttributesRoundTrip(base, es[1..]);
      ScanEntry(es[0], EntriesText(es[1..]));
    }
  }

  /** Spaces, the directive's name, spaces and attributes. The name ends where letters and digits do. */
  datatype Directive = Directive(lead: string, base: string, gap: string, entries: seq<Entry>)
  {
    function Tail(): string { gap + EntriesText(entries) }

    predicate Valid() {
      && Spaces(lead) && Alphanumeric(base) && Spaces(gap) && (base == "" ==> gap == "") && AllValid(entries)
      && (Tail() == "" || !IsAlnum(Tail()[0]))
    }

    function Text(): string { lead + (base + Tail()) }
  }

  /** The same for a whole directive with its name in front. */
  lemma DirectiveRoundTrip(d: Directive)
    requires d.Valid()
    ensures DirectiveAttributes(d.Text()) == AttrList(Qualified(d.base, d.entries), None)
  {
    var tail := d.Tail();
    var s := d.base + tail;
    AttributesRoundTrip(d.base, d.entries);
    SpacesSkipped(d.lead, s);
    SpacesSkipped(d.gap, EntriesText(d.entries));
    assert SkipSpaces(s) == s by {
      if d.base != "" {
        assert IsAlnum(s[0]) by { assert s[0] == d.base[0]; }
      } else {
        assert s == EntriesText(d.entries);
      }
    }
    AlnumsOf(d.base, tail);
    assert s[..|d.base|] == d.base && s[|d.base|..] == tail;
  }

  lemma {:induction false} SkippedPart(s: string) returns (gap: string)
    ensures Spaces(gap) && s == gap + SkipSpaces(s) && SkipSpaces(SkipSpaces(s)) == SkipSpaces(s)
  {
    if s != "" && IsSpace(s[0]) {
      gap := SkippedPart(s[1..]);
      gap := [s[0]] + gap;
      assert s == [s[0]] + s[1..];
    } else {
      gap := "";
    }
  }

  lemma {:induction false} AlnumPart(s: string)
    ensures Alphanumeric(s[..Alnums(s)]) && s == s[..Alnums(s)] + s[Alnums(s)..]
    ensures Alnums(s) == |s| || !IsAlnum(s[Alnums(s)])
  {
    if s != "" && IsAlnum(s[0]) {
      AlnumPart(s[1..]);
      var n := Alnums(s);
      assert s[..n] == [s[0]] + s[1..][..n - 1];
    }
  }

  lemma {:induction false} UpToPart(s: string, c: char)
    ensures c !in s[..UpTo(s, c)] && (UpTo(s, c) < |s| ==> s[UpTo(s, c)] == c)
  {
    if s != "" && s[0] != c {
      UpToPart(s[1..], c);
      var n := UpTo(s, c);
      assert s[..n] == [s[0]] + s[1..][..n - 1];
    }
  }

  lemma CutAtQuote(q: string, v: nat)
    requires v + 1 < |q|
    ensures q == [q[0]] + (q[1..v + 1] + ([q[v + 1]] + q[v + 2..]))
    ensures q[1..][..v] == q[1..v + 1] && q[1..][v] == q[v + 1]
  {
  }

  lemma QuotedPart(name: string, q: string) returns (e: Entry)
    requires ScanValue(name, q).Attribute?
    ensures Spaces(e.gap) && (e.quote == '"' || e.quote == '\'') && e.quote !in e.value
    ensures var r := ScanValue(name, q);
      r == Attribute(name, e.value, r.rest) && q == e.Quoted(r.rest) && SkipSpaces(r.rest) == r.rest
  {
    var v := UpTo(q[1..], q[0]);
    UpToPart(q[1..], q[0]);
    CutAtQuote(q, v);
    var gap := SkippedPart(q[v + 2..]);
    e := Entry(name, "", "", q[0], q[1..v + 1], gap);
  }

  lemma EntryPart(s: string) returns (e: Entry)
    requires ScanAttribute(s).Attribute? && SkipSpaces(s) == s
    ensures e.Valid() && var r := ScanAttribute(s); r == Attribute(e.name, e.value, r.rest) && s == e.Text(r.rest) && SkipSpaces(r.rest) == r.rest
  {
    var n := Alnums(s);
    AlnumPart(s);
    var before := SkippedPart(s[n..]);
    var eq := SkipSpaces(s[n..]);
    var after := SkippedPart(eq[1..]);
    var q := SkipSpaces(eq[1..]);
    e := QuotedPart(s[..n], q);
    e := e.(name := s[..n], before := before, after := after);
    assert eq == "=" + eq[1..];
    var start := SkippedPart(s);
    assert n == 0 ==> before == "";
  }

  /** Exactly the written attributes are read without an error. */
  lemma {:induction false} AttributesExactly(s: string, base: string) returns (es: seq<Entry>)
    requires SkipSpaces(s) == s && Attributes(s, base).problem.None?
    ensures AllValid(es) && s == EntriesText(es)
    decreases |s|
  {
    if s == "" {
      es := [];
    } else {
      var e := EntryPart(s);
      var r := ScanAttribute(s);
      es := AttributesExactly(r.rest, base);
      es := [e] + es;
    }
  }

  lemma DirectiveExactly(attrs: string) returns (d: Directive)
    requires DirectiveAttributes(attrs).problem.None?
    ensures d.Valid() && d.Text() == attrs
  {
    var lead := SkippedPart(attrs);
    var s := SkipSpaces(attrs);
    AlnumPart(s);
    var n := Alnums(s);
    var gap := SkippedPart(s[n..]);
    var rest := SkipSpaces(s[n..]);
    var es := AttributesExactly(rest, s[..n]);
    d := Directive(lead, s[..n], gap, es);
  }

  // ----- the reader -----

  lemma StepOpener(m: Machine, t: string)
    requires Opener(t).Some?
    ensures var target := Opener(t).value;
      Step(m, t) == Ok(
        if m.state != Markup then m.(page := m.page.H(t))
        else if target == Expr then Machine(Expr, m.attrs, m.page.H(MARKUP_END).H(EXPR_BEGIN))
        else Machine(target, if target == Attr then "" else m.attrs, m.page.H(MARKUP_END)))
  {
    var h := m.page.handler;
    assert MARKUP_END + "" == MARKUP_END;
    assert h + MARKUP_END + EXPR_BEGIN == h + (MARKUP_END + EXPR_BEGIN);
  }

  method EatSpaces(s: string, i: nat) returns (j: nat)
    requires i <= |s|
    ensures i <= j <= |s| && s[j..] == SkipSpaces(s[i..])
  {
    j := i;
    while j < |s| && IsSpace(s[j])
      invariant i <= j <= |s| && SkipSpaces(s[j..]) == SkipSpaces(s[i..])
    {
      assert s[j..][1..] == s[j + 1..];
      j := j + 1;
    }
  }

  method EatAlnums(s: string, i: nat) returns (j: nat)
    requires i <= |s|
    ensures i <= j <= |s| && j - i == Alnums(s[i..])
  {
    j := i;
    while j < |s| && IsAlnum(s[j])
      invariant i <= j <= |s| && j - i + Alnums(s[j..]) == Alnums(s[i..])
    {
      assert s[j..][1..] == s[j + 1..];
      j := j + 1;
    }
  }

  method EatUpTo(s: string, i: nat, c: char) returns (j: nat)
    requires i <= |s|
    ensures i <= j <= |s| && j - i == UpTo(s[i..], c)
  {
    j := i;
    while j < |s| && s[j] != c
      invariant i <= j <= |s| && j - i + UpTo(s[j..], c) == UpTo(s[i..], c)
    {
      assert s[j..][1..] == s[j + 1..];
      j := j + 1;
    }
  }

  datatype Parsed = Done | Failed(error: Error)

  lemma DirectiveAt(s: string, b: nat, n: nat, i: nat)
    requires b <= n <= i <= |s| && s[b..] == SkipSpaces(s[0..]) && n - b == Alnums(s[b..]) && s[i..] == SkipSpaces(s[n..])
    ensures DirectiveAttributes(s) == Attributes(s[i..], s[b..n])
  {
    assert s[0..] == s;
    assert s[b..][..n - b] == s[b..n] && s[b..][n - b..] == s[n..];
  }

  lemma ScanAt(s: string, i: nat, n: nat, e: nat)
    requires i <= n <= e <= |s| && n - i == Alnums(s[i..]) && s[e..] == SkipSpaces(s[n..])
    ensures ScanAttribute(s[i..]) ==
      if e == |s| || s[e] != '=' then Problem(EqualsExpected) else ScanValue(s[i..n], SkipSpaces(s[e + 1..]))
  {
    var rest := s[i..];
    assert rest[..n - i] == s[i..n] && rest[n - i..] == s[n..];
    if e < |s| {
      assert s[e..][1..] == s[e + 1..];
    }
  }

  lemma ListStep(page: Page, base: string, s: string, one: Scanned)
    requires s != "" && one == ScanAttribute(s) && one.Attribute?
    ensures var p := HandleAttribute(page, base + "." + one.name, one.value);
      ApplyList(page, Attributes(s, base)) == if p.Err? then p else ApplyList(p.value, Attributes(one.rest, base))
  {
    var more := Attributes(one.rest, base).items;
    assert ([(base + "." + one.name, one.value)] + more)[1..] == more;
  }

  class Reader {
    var page: Page
    var attrs: string

    constructor (page: Page)
      ensures this.page == page && attrs == ""
    {
      this.page := page;
      attrs := "";
    }

    method NextToken(input: string, pos: nat) returns (token: string, next: nat)
      requires pos <= |input|
      ensures next == pos + TokenLength(input[pos..]) && token == input[pos..next]
    {
      token, next := "", pos;
      if next < |input| {
        var ch := input[next];
        next := next + 1;
        token := [ch];
        if ch == '<' && next < |input| && input[next] == '%' {
          token, next := token + "%", next + 1;
          if next < |input| {
            ch := input[next];
            if ch == '%' || ch == '@' || ch == '=' {
              token, next := token + [ch], next + 1;
            } else if ch == '!' || ch == '-' {
              token, next := token + [ch], next + 1;
              if next < |input| && input[next] == ch {
                token, next := token + [ch], next + 1;
              }
            }
          }
        } else if ch == '%' && next < |input| && input[next] == '>' {
          token, next := token + ">", next + 1;
        }
      }
    }

    method ParseAttributes() returns (r: Parsed)
      modifies this`page
      ensures var p := ApplyDirective(old(page), attrs);
        if p.Ok? then r == Done && page == p.value else r == Failed(p.error)
    {
      var s := attrs;
      var b := EatSpaces(s, 0);
      var n := EatAlnums(s, b);
      var base := s[b..n];
      var i := EatSpaces(s, n);
      DirectiveAt(s, b, n, i);
      ghost var goal := ApplyDirective(old(page), s);
      while i < |s|
        invariant i <= |s|
        invariant ApplyList(page, Attributes(s[i..], base)) == goal
      {
        ghost var rest := s[i..];
        var one, next := NextAttribute(s, i);
        if one.Problem? {
          return Failed(BadAttribute(one.problem));
        }
        i := next;
        ListStep(page, base, rest, one);
        r := TakeAttribute(base + "." + one.name, one.value);
        if r.Failed? {
          return;
        }
      }
      assert s[i..] == "";
      r := Done;
    }

    method NextAttribute(s: string, i: nat) returns (one: Scanned, next: nat)
      requires i < |s|
      ensures one == ScanAttribute(s[i..])
      ensures one.Attribute? ==> i < next <= |s| && one.rest == s[next..]
    {
      next := i;
      var n := EatAlnums(s, i);
      var e := EatSpaces(s, n);
      ScanAt(s, i, n, e);
      if e == |s| || s[e] != '=' {
        return Problem(EqualsExpected), next;
      }
      var q := EatSpaces(s, e + 1);
      one, next := NextValue(s, q, s[i..n]);
    }

    method NextValue(s: string, q: nat, name: string) returns (one: Scanned, next: nat)
      requires q <= |s|
      ensures one == ScanValue(name, s[q..])
      ensures one.Attribute? ==> q < next <= |s| && one.rest == s[next..]
    {
      next := q;
      if q == |s| || (s[q] != '"' && s[q] != '\'') {
        return Problem(QuoteExpected), next;
      }
      assert s[q..][1..] == s[q + 1..];
      var v := EatUpTo(s, q + 1, s[q]);
      if v == |s| {
        return Problem(if s[q] == '"' then DoubleQuoteExpected else SingleQuoteExpected), next;
      }
      assert s[q..][1..v - q] == s[q + 1..v] && s[q..][v - q + 1..] == s[v + 1..];
      next := EatSpaces(s, v + 1);
      one := Attribute(name, s[q + 1..v], s[next..]);
    }

    method TakeAttribute(name: string, value: string) returns (r: Parsed)
      modifies this`page
      ensures var p := HandleAttribute(old(page), name, value);
        if p.Ok? then r == Done && page == p.value else r == Failed(p.error)
    {
      r := Done;
      if name == "include.page" {
        r := Failed(PageInclusion(value));
      } else if name == "include.path" {
        page := page.H(IncludeText(Path(value)));
      } else if name == "include.component" {
        page := page.H(IncludeText(Component(value)));
      } else if name == "header.include" {
        page := page.(headerDecls := page.headerDecls + IncludeLine(value));
      } else if name == "header.sinclude" {
        page := page.(headerDecls := page.headerDecls + SystemLine(value));
      } else if name == "impl.include" {
        page := page.(implDecls := page.implDecls + IncludeLine(value));
      } else if name == "impl.sinclude" {
        page := page.(implDecls := page.implDecls + SystemLine(value));
      } else if name !in page.attributes {
        page := page.(attributes := page.attributes[name := value]);
      }
    }

    /** Ordinary text, by state. */
    method WriteToken(state: State, token: string)
      modifies this
      ensures Machine(state, attrs, page) == WriteText(Machine(state, old(attrs), old(page)), token)
    {
      match state
      case Markup =>
        if token == "\n" {
          page := page.H("\\n" + MARKUP_END + MARKUP_BEGIN);
        } else if token == "\t" {
          page := page.H("\\t");
        } else if token == "\"" {
          page := page.H("\\\"");
        } else if token != "\r" {
          page := page.H(token);
        } else {
          assert page.handler + "" == page.handler;
        }
      case ImplDecl => page := page.(implDecls := page.implDecls + token);
      case Functions => page := page.(functions := page.functions + token);
      case HdrDecl => page := page.(headerDecls := page.headerDecls + token);
      case Methods => page := page.(methods := page.methods + token);
      case PreHandler => page := page.(preHandler := page.preHandler + token);
      case Block => page := page.H(token);
      case Expr => page := page.H(token);
      case Comment =>
      case Attr => attrs := attrs + token;
    }

    /** The closing token, by state. */
    method CloseBlock(state: State) returns (next: State, r: Parsed)
      modifies this
      ensures var m := Close(Machine(state, old(attrs), old(page)));
        if m.Ok? then r == Done && Machine(next, attrs, page) == m.value else r == Failed(m.error)
    {
      r := Done;
      next := Markup;
      if state == Expr {
        assert page.handler + EXPR_END + MARKUP_BEGIN == page.handler + (EXPR_END + MARKUP_BEGIN);
        page := page.H(EXPR_END);
        page := page.H(MARKUP_BEGIN);
      } else if state == Attr {
        r := ParseAttributes();
        if r == Done {
          attrs := "";
          page := page.H(MARKUP_BEGIN);
        }
      } else if state != Markup {
        page := page.H(MARKUP_BEGIN);
      } else {
        page := page.H("%>");
      }
    }

    /** An opener switches the state only in markup. */
    method OpenBlock(state: State, token: string) returns (next: State)
      requires Opener(token).Some?
      modifies this
      ensures Step(Machine(state, old(attrs), old(page)), token) == Ok(Machine(next, attrs, page))
    {
      StepOpener(Machine(state, attrs, page), token);
      next := state;
      if state == Markup {
        next := Opener(token).value;
        page := page.H(MARKUP_END);
        if next == Attr {
          attrs := "";
        } else if next == Expr {
          page := page.H(EXPR_BEGIN);
        }
      } else {
        page := page.H(token);
      }
    }

    /** The parsing loop: it leaves in `page` what the compiled page is, or reports the first error. */
    method Parse(input: string) returns (r: Parsed)
      requires attrs == ""
      modifies this
      ensures var p := Compile(old(page), input);
        if p.Ok? then r == Done && page == p.value else r == Failed(p.error)
    {
      var state := Markup;
      ghost var goal := Compile(old(page), input);
      page := page.H(MARKUP_BEGIN);
      var token, pos := NextToken(input, 0);
      assert input[0..] == input;
      ghost var at := 0;
      while token != ""
        invariant at <= pos <= |input| && pos == at + TokenLength(input[at..]) && token == input[at..pos]
        invariant Finish(Machine(state, attrs, page), Tokens(input[at..])) == goal
        decreases |input| - at
      {
        FinishStep(Machine(state, attrs, page), input, at, pos);
        if Opener(token).Some? {
          state := OpenBlock(state, token);
        } else if token == "%>" {
          state, r := CloseBlock(state);
          if r.Failed? {
            return;
          }
        } else {
          WriteToken(state, token);
        }
        at := pos;
        token, pos := NextToken(input, pos);
      }
      assert input[at..] == "";
      if state == Markup {
        page := page.H(MARKUP_END);
        r := Done;
      } else {
        r := Failed(Unclosed);
      }
    }
  }

  lemma FinishStep(m: Machine, input: string, at: nat, pos: nat)
    requires at < pos <= |input| && pos == at + TokenLength(input[at..])
    ensures var next := Step(m, input[at..pos]);
      Finish(m, Tokens(input[at..])) == if next.Err? then Err(next.error) else Finish(next.value, Tokens(input[pos..]))
  {
    assert input[at..][..pos - at] == input[at..pos] && input[at..][pos - at..] == input[pos..];
  }
}
