/** The page as markup and blocks, and the theorem that compiling it preserves its meaning. */
module PageMeaning {
  import opened Common
  import opened CppText
  import opened PageTarget
  import opened PageReader

  /** Markup up to an opener, a block up to the next closer, and so on to the end of the page. */
  datatype Reading =
    | Last(markup: string)
    | NeverClosed(markup: string)
    | Then(markup: string, kind: State, body: List, rest: Reading)
  {
    /** The same reading with more markup in front. */
    function After(text: string): Reading { this.(markup := text + markup) }
  }

  function Read(ts: List): Reading
    decreases ts
  {
    match ts
    case Nil => Last("")
    case Cons(t, rest) =>
      if Opener(t).Some? then ReadBlock(Opener(t).value, rest) else Read(rest).After(t)
  }

  function ReadBlock(kind: State, ts: List): (r: Reading)
    ensures r.markup == "" && !r.Last? && (r.Then? ==> r.kind == kind)
    decreases ts
  {
    match ts
    case Nil => NeverClosed("")
    case Cons(t, rest) =>
      if t == "%>" then Then("", kind, Nil, Read(rest))
      else
        var r := ReadBlock(kind, rest);
        if r.Then? then r.(body := Cons(t, r.body)) else r
  }

  predicate Closed(r: Reading) {
    match r case Last(_) => true case NeverClosed(_) => false case Then(_, _, _, rest) => Closed(rest)
  }

  // ----- the reading is the page -----

  function OpenerText(kind: State): string {
    match kind
    case Block => "<%"
    case PreHandler => "<%%"
    case Functions => "<%!"
    case Methods => "<%!!"
    case Comment => "<%--"
    case Attr => "<%@"
    case _ => "<%="
  }

  function Source(r: Reading): string {
    match r
    case Last(m) => m
    case NeverClosed(m) => m
    case Then(m, kind, body, rest) => m + (OpenerText(kind) + (Flatten(body) + ("%>" + Source(rest))))
  }

  lemma OpenerTextOf(t: string)
    requires Opener(t).Some?
    ensures OpenerText(Opener(t).value) == t
  {
  }

  /** A closed reading spells back the page, character for character. */
  lemma {:induction false} ReadingIsThePage(ts: List)
    ensures Closed(Read(ts)) ==> Source(Read(ts)) == Flatten(ts)
    decreases ts
  {
    match ts
    case Nil =>
    case Cons(t, rest) =>
      if Opener(t).Some? {
        OpenerTextOf(t);
        BlockIsThePage(Opener(t).value, rest);
      } else {
        ReadingIsThePage(rest);
        var r := Read(rest);
        if r.Then? {
          Assoc(t, r.markup, OpenerText(r.kind) + (Flatten(r.body) + ("%>" + Source(r.rest))));
        }
      }
  }

  lemma {:induction false} BlockIsThePage(kind: State, ts: List)
    ensures var r := ReadBlock(kind, ts); Closed(r) ==> Source(r) == OpenerText(kind) + Flatten(ts)
    decreases ts
  {
    match ts
    case Nil =>
    case Cons(t, rest) =>
      if t == "%>" {
        ReadingIsThePage(rest);
      } else {
        BlockIsThePage(kind, rest);
        var r := ReadBlock(kind, rest);
        if Closed(r) {
          ThenSource(kind, r.body, r.rest);
          ThenSource(kind, Cons(t, r.body), r.rest);
          BodyPrefix(OpenerText(kind), t, Flatten(r.body), "%>" + Source(r.rest), Flatten(rest));
        }
      }
  }

  lemma ThenSource(kind: State, body: List, rest: Reading)
    ensures Source(Then("", kind, body, rest)) == OpenerText(kind) + (Flatten(body) + ("%>" + Source(rest)))
  {
  }

  lemma BodyPrefix(o: string, t: string, b: string, z: string, f: string)
    requires o + (b + z) == o + f
    ensures o + ((t + b) + z) == o + (t + f)
  {
    assert (o + (b + z))[|o|..] == b + z;
    assert (o + f)[|o|..] == f;
  }

  // ----- what the reader makes of a reading -----

  function KeptToken(t: string): string { if Opener(t).None? then t else "" }

  function StrayToken(t: string): string { if Opener(t).Some? then t else "" }

  function KeptChar(c: char): string { if c == '\r' then "" else [c] }

  /** The tokens of a body that are ordinary text. */
  function Kept(body: List): string {
    match body case Nil => "" case Cons(t, rest) => KeptToken(t) + Kept(rest)
  }

  /** The tokens of a body that are openers. */
  function Strayed(body: List): string {
    match body case Nil => "" case Cons(t, rest) => StrayToken(t) + Strayed(rest)
  }

  function NoCR(s: string): string { FlatMap(KeptChar, s) }

  function AddMarkup(page: Page, markup: string): Page {
    page.H(Emit(Prints(NoCR(markup))))
  }

  /** A block's text goes to its section, except that openers inside it go to the handler. */
  function AddBlock(page: Page, kind: State, body: List): Result<Page> {
    match kind
    case Block => Ok(page.H(Flatten(body)))
    case Expr => Ok(page.H(EXPR_BEGIN + (Flatten(body) + EXPR_END)))
    case Functions => Ok(page.(functions := page.functions + Kept(body)).H(Strayed(body)))
    case Methods => Ok(page.(methods := page.methods + Kept(body)).H(Strayed(body)))
    case PreHandler => Ok(page.(preHandler := page.preHandler + Kept(body)).H(Strayed(body)))
    case Attr => ApplyDirective(page.H(Strayed(body)), Kept(body))
    case _ => Ok(page.H(Strayed(body)))
  }

  function AddReading(page: Page, r: Reading): Result<Page>
    decreases r
  {
    match r
    case Last(m) => Ok(AddMarkup(page, m))
    case NeverClosed(_) => Err(Unclosed)
    case Then(m, kind, body, rest) =>
      var p :- AddBlock(AddMarkup(page, m), kind, body);
      AddReading(p, rest)
  }

  /** Tokens other than openers are one character, or characters that need no spelling. */
  predicate Plain(t: string) {
    |t| == 1 || t == "%>" || t == "<%-"
  }

  predicate Tokenized(ts: List) {
    ts.Cons? ==> (Plain(ts.head) || Opener(ts.head).Some?) && Tokenized(ts.tail)
  }

  lemma FirstTokenPlain(s: string)
    requires s != ""
    ensures var t := s[..TokenLength(s)]; Plain(t) || Opener(t).Some?
  {
    var t := s[..TokenLength(s)];
    assert forall i :: 0 <= i < |t| ==> t[i] == s[i];
    if |t| == 2 && s[0] == '%' {
      assert t == "%>";
    } else if |t| == 3 && s[2] == '-' {
      assert t == "<%-";
    }
  }

  lemma {:induction false} TokensTokenized(s: string)
    ensures Tokenized(Tokens(s))
  {
    if s != "" {
      FirstTokenPlain(s);
      TokensTokenized(s[TokenLength(s)..]);
    }
  }

  lemma PlainWritten(t: string)
    requires Plain(t)
    ensures Written(NoCR(t)) == if t == "%>" then t else MarkupText(t)
  {
    if |t| == 1 {
      var c := t[0];
      assert t == [c] && t[1..] == "" && NoCR(t[1..]) == "" && Written("") == "";
      if c == '\r' {
        assert NoCR(t) == "";
      } else {
        assert NoCR(t) == [c] && [c][1..] == "";
        assert Written([c]) == WrittenChar(c);
      }
    } else {
      PlainUnchanged(t);
    }
  }

  lemma {:induction false} PlainUnchanged(t: string)
    requires forall i :: 0 <= i < |t| ==> t[i] != '\r' && WrittenChar(t[i]) == [t[i]]
    ensures NoCR(t) == t && Written(t) == t
  {
    if t != "" {
      PlainUnchanged(t[1..]);
      assert t == [t[0]] + t[1..];
    }
  }

  lemma HandlerTwice(page: Page, a: string, b: string)
    ensures page.H(a).H(b) == page.H(a + b)
  {
    Assoc(page.handler, a, b);
  }

  /** The machine after a body: text in its section or the attribute buffer, openers in the handler. */
  function AfterBody(m: Machine, body: List): Machine {
    match m.state
    case Block => m.(page := m.page.H(Flatten(body)))
    case Expr => m.(page := m.page.H(Flatten(body)))
    case Functions => m.(page := m.page.(functions := m.page.functions + Kept(body)).H(Strayed(body)))
    case Methods => m.(page := m.page.(methods := m.page.methods + Kept(body)).H(Strayed(body)))
    case PreHandler => m.(page := m.page.(preHandler := m.page.preHandler + Kept(body)).H(Strayed(body)))
    case Attr => m.(attrs := m.attrs + Kept(body), page := m.page.H(Strayed(body)))
    case _ => m.(page := m.page.H(Strayed(body)))
  }

  predicate BlockKind(s: State) {
    s.Block? || s.Expr? || s.Functions? || s.Methods? || s.PreHandler? || s.Comment? || s.Attr?
  }

  lemma BodyStep(m: Machine, t: string, body: List)
    requires BlockKind(m.state) && t != "%>"
    ensures Step(m, t).Ok? && Step(m, t).value.state == m.state
    ensures AfterBody(Step(m, t).value, body) == AfterBody(m, Cons(t, body))
  {
    var p, k, s := m.page, Kept(body), Strayed(body);
    Assoc(p.handler, t, Flatten(body));
    Assoc(p.handler, StrayToken(t), s);
    Assoc(p.functions, KeptToken(t), k);
    Assoc(p.methods, KeptToken(t), k);
    Assoc(p.preHandler, KeptToken(t), k);
    Assoc(m.attrs, KeptToken(t), k);
    assert p.handler + "" == p.handler && p.functions + "" == p.functions && p.methods + "" == p.methods;
    assert p.preHandler + "" == p.preHandler && m.attrs + "" == m.attrs;
  }

  /** Closing markup: the statements for it are complete. */
  lemma MarkupDone(page: Page, markup: string)
    ensures page.H(MARKUP_BEGIN).H(Written(NoCR(markup))).H(MARKUP_END) == AddMarkup(page, markup)
  {
    var text := Written(NoCR(markup));
    PrintsText(NoCR(markup));
    HandlerTwice(page.H(MARKUP_BEGIN), text, MARKUP_END);
    HandlerTwice(page, MARKUP_BEGIN, text + MARKUP_END);
  }

  /** The page when a block closes, before the next markup begins. */
  function CloseBody(m: Machine): Result<Page> {
    match m.state
    case Expr => Ok(m.page.H(EXPR_END))
    case Attr => ApplyDirective(m.page, m.attrs)
    case _ => Ok(m.page)
  }

  lemma BlockCloses(m: Machine)
    requires BlockKind(m.state) && (m.state != Attr ==> m.attrs == "")
    ensures var p := CloseBody(m);
      Close(m) == if p.Err? then Err(p.error) else Ok(Machine(Markup, "", p.value.H(MARKUP_BEGIN)))
  {
    HandlerTwice(m.page, EXPR_END, MARKUP_BEGIN);
  }

  /** From an opener to its closer, the reader adds exactly the block. */
  lemma BlockDone(page: Page, kind: State, body: List)
    requires BlockKind(kind)
    ensures var m := Machine(kind, "", page.H(if kind == Expr then EXPR_BEGIN else ""));
      CloseBody(AfterBody(m, body)) == AddBlock(page, kind, body)
  {
    assert page.H("") == page;
    assert "" + Kept(body) == Kept(body);
    if kind == Expr {
      HandlerTwice(page.H(EXPR_BEGIN), Flatten(body), EXPR_END);
      HandlerTwice(page, EXPR_BEGIN, Flatten(body) + EXPR_END);
    }
  }

  /** The state machine computes what the reading says: in markup, after some text has been written, ... */
  lemma {:induction false} FinishReads(page: Page, before: string, ts: List)
    requires Tokenized(ts)
    ensures Finish(Machine(Markup, "", page.H(MARKUP_BEGIN).H(Written(NoCR(before)))), ts)
         == AddReading(page, Read(ts).After(before))
    decreases ts
  {
    var m := Machine(Markup, "", page.H(MARKUP_BEGIN).H(Written(NoCR(before))));
    match ts
    case Nil =>
      assert before + "" == before;
      MarkupDone(page, before);
    case Cons(t, rest) =>
      if Opener(t).Some? {
        FinishOpener(page, before, t, rest);
      } else {
        FinishText(page, before, t);
        FinishReads(page, before + t, rest);
        Assoc(before, t, Read(rest).markup);
      }
  }

  lemma FinishText(page: Page, before: string, t: string)
    requires Plain(t)
    ensures var m := Machine(Markup, "", page.H(MARKUP_BEGIN).H(Written(NoCR(before))));
      Step(m, t) == Ok(m.(page := page.H(MARKUP_BEGIN).H(Written(NoCR(before + t)))))
  {
    PlainWritten(t);
    FlatMapAppend(KeptChar, before, t);
    FlatMapAppend(WrittenChar, NoCR(before), NoCR(t));
    HandlerTwice(page.H(MARKUP_BEGIN), Written(NoCR(before)), Written(NoCR(t)));
  }

  lemma {:induction false} FinishOpener(page: Page, before: string, t: string, rest: List)
    requires Tokenized(rest) && Opener(t).Some?
    ensures Finish(Machine(Markup, "", page.H(MARKUP_BEGIN).H(Written(NoCR(before)))), Cons(t, rest))
         == AddReading(page, ReadBlock(Opener(t).value, rest).After(before))
    decreases rest, 1
  {
    var kind := Opener(t).value;
    var m := Machine(Markup, "", page.H(MARKUP_BEGIN).H(Written(NoCR(before))));
    var p := AddMarkup(page, before);
    var m' := Machine(kind, "", p.H(if kind == Expr then EXPR_BEGIN else ""));
    MarkupDone(page, before);
    StepOpener(m, t);
    assert p.H("") == p;
    assert Step(m, t) == Ok(m');
    FinishBody(m', rest);
    assert before + "" == before;
    var r := ReadBlock(kind, rest);
    if r.Then? {
      BlockDone(p, kind, r.body);
    }
  }

  /** What the reader adds from inside a block on. */
  function FromBlock(m: Machine, r: Reading): Result<Page> {
    if !r.Then? then Err(Unclosed)
    else
      var p :- CloseBody(AfterBody(m, r.body));
      AddReading(p, r.rest)
  }

  /** ... and inside a block, from what its body adds to what follows it. */
  lemma {:induction false} FinishBody(m: Machine, ts: List)
    requires Tokenized(ts) && BlockKind(m.state) && (m.state != Attr ==> m.attrs == "")
    ensures Finish(m, ts) == FromBlock(m, ReadBlock(m.state, ts))
    decreases ts, 0
  {
    match ts
    case Nil =>
    case Cons(t, rest) =>
      if t == "%>" {
        AfterNothing(m);
        BlockCloses(m);
        var closed := CloseBody(m);
        if closed.Ok? {
          assert closed.value.H(MARKUP_BEGIN).H("") == closed.value.H(MARKUP_BEGIN);
          FinishReads(closed.value, "", rest);
          assert Read(rest).After("") == Read(rest);
        }
      } else {
        var r := ReadBlock(m.state, rest);
        BodyStep(m, t, if r.Then? then r.body else Nil);
        var m' := Step(m, t).value;
        FinishBody(m', rest);
      }
  }

  lemma AfterNothing(m: Machine)
    requires BlockKind(m.state)
    ensures AfterBody(m, Nil) == m
  {
    var p := m.page;
    assert p.handler + "" == p.handler && p.functions + "" == p.functions && p.methods + "" == p.methods;
    assert p.preHandler + "" == p.preHandler && m.attrs + "" == m.attrs;
  }

  /** Compiling a page is adding its markup and its blocks in order. */
  lemma CompileReads(page: Page, input: string)
    ensures Compile(page, input) == AddReading(page, Read(Tokens(input)))
  {
    TokensTokenized(input);
    assert page.H(MARKUP_BEGIN).H("") == page.H(MARKUP_BEGIN);
    FinishReads(page, "", Tokens(input));
    assert Read(Tokens(input)).After("") == Read(Tokens(input));
  }

  // ----- the handler as pieces, the sections as text -----

  type Item = (string, string)

  function IncludeOf(item: Item): seq<Include> {
    if item.0 == "include.path" then [Path(item.1)]
    else if item.0 == "include.component" then [Component(item.1)]
    else []
  }

  function HeaderOf(item: Item): string {
    if item.0 == "header.include" then IncludeLine(item.1)
    else if item.0 == "header.sinclude" then SystemLine(item.1)
    else ""
  }

  function ImplOf(item: Item): string {
    if item.0 == "impl.include" then IncludeLine(item.1)
    else if item.0 == "impl.sinclude" then SystemLine(item.1)
    else ""
  }

  predicate IsAttribute(item: Item) {
    IncludeOf(item) == [] && HeaderOf(item) == "" && ImplOf(item) == "" && item.0 != "include.page"
  }

  /** Other attributes are kept under their name, the first of each. */
  function Noted(attributes: map<string, string>, items: seq<Item>): map<string, string>
    decreases |items|
  {
    if items == [] then attributes
    else
      Noted(if !IsAttribute(items[0]) || items[0].0 in attributes then attributes else attributes[items[0].0 := items[0].1],
            items[1..])
  }

  function Asked(attrs: string): seq<Include> { FlatMap(IncludeOf, DirectiveAttributes(attrs).items) }

  function BlockPiece(kind: State, body: List): Piece {
    match kind
    case Block => Raw(Flatten(body))
    case Expr => PrintExpr(Flatten(body))
    case Attr => Aside(Strayed(body), Asked(Kept(body)), Asked(Flatten(body)))
    case _ => Aside(Strayed(body), [], [])
  }

  /** The pieces of the handler, in order. */
  function Pieces(r: Reading): seq<Piece> {
    match r
    case Last(m) => Prints(NoCR(m))
    case NeverClosed(_) => []
    case Then(m, kind, body, rest) => Prints(NoCR(m)) + ([BlockPiece(kind, body)] + Pieces(rest))
  }

  /** The text of all blocks of one kind. */
  function Section(r: Reading, kind: State): string {
    if r.Then? then (if r.kind == kind then Kept(r.body) else "") + Section(r.rest, kind) else ""
  }

  function BlockItems(kind: State, body: List): seq<Item> {
    if kind == Attr then DirectiveAttributes(Kept(body)).items else []
  }

  /** The attributes of all directives, in order. */
  function Items(r: Reading): seq<Item> {
    if r.Then? then BlockItems(r.kind, r.body) + Items(r.rest) else []
  }

  /** What a list of attributes adds to a page. */
  function WithItems(page: Page, items: seq<Item>): Page {
    page.(
      handler := page.handler + FlatMap(IncludeText, FlatMap(IncludeOf, items)),
      headerDecls := page.headerDecls + FlatMap(HeaderOf, items),
      implDecls := page.implDecls + FlatMap(ImplOf, items),
      attributes := Noted(page.attributes, items))
  }

  lemma IncludeLinesShow(file: string)
    ensures IncludeLine(file) != "" && SystemLine(file) != ""
  {
    assert |IncludeLine(file)| >= 2 && |SystemLine(file)| >= 2;
  }

  lemma OneItem(page: Page, item: Item)
    requires HandleAttribute(page, item.0, item.1).Ok?
    ensures HandleAttribute(page, item.0, item.1) == Ok(WithItems(page, [item]))
  {
    var none: seq<Item> := [];
    assert [item][1..] == none;
    FlatMapOne(HeaderOf, item);
    FlatMapOne(ImplOf, item);
    FlatMapOne(IncludeOf, item);
    IncludeLinesShow(item.1);
    assert Noted(page.attributes, [item]) == Noted(
      if !IsAttribute(item) || item.0 in page.attributes then page.attributes else page.attributes[item.0 := item.1], none);
    assert page.handler + "" == page.handler && page.headerDecls + "" == page.headerDecls && page.implDecls + "" == page.implDecls;
    if IncludeOf(item) != [] {
      FlatMapOne(IncludeText, IncludeOf(item)[0]);
      assert IncludeOf(item) == [IncludeOf(item)[0]];
    }
  }

  lemma ItemsThen(page: Page, item: Item, items: seq<Item>)
    ensures WithItems(WithItems(page, [item]), items) == WithItems(page, [item] + items)
  {
    var all := [item] + items;
    assert all[1..] == items && [item][1..] == [];
    FlatMapAppend(IncludeOf, [item], items);
    FlatMapAppend(IncludeText, FlatMap(IncludeOf, [item]), FlatMap(IncludeOf, items));
    FlatMapAppend(HeaderOf, [item], items);
    FlatMapAppend(ImplOf, [item], items);
    Assoc(page.handler, FlatMap(IncludeText, FlatMap(IncludeOf, [item])), FlatMap(IncludeText, FlatMap(IncludeOf, items)));
    Assoc(page.headerDecls, FlatMap(HeaderOf, [item]), FlatMap(HeaderOf, items));
    Assoc(page.implDecls, FlatMap(ImplOf, [item]), FlatMap(ImplOf, items));
    NotedAppend(page.attributes, [item], items);
  }

  lemma {:induction false} ItemsHandled(page: Page, items: seq<Item>)
    requires HandleAttributes(page, items).Ok?
    ensures HandleAttributes(page, items) == Ok(WithItems(page, items))
    decreases |items|
  {
    if items == [] {
      assert page.handler + "" == page.handler && page.headerDecls + "" == page.headerDecls && page.implDecls + "" == page.implDecls;
    } else {
      OneItem(page, items[0]);
      ItemsHandled(WithItems(page, [items[0]]), items[1..]);
      ItemsThen(page, items[0], items[1..]);
      assert items == [items[0]] + items[1..];
    }
  }

  /** Text added to the sections: what blocks of one kind hold. */
  function Own(kind: State, section: State, body: List): string { if kind == section then Kept(body) else "" }

  /** What a block adds to each stream. */
  function WithBlock(page: Page, kind: State, body: List): Page {
    page.(
      handler := page.handler + Emitted(BlockPiece(kind, body)),
      functions := page.functions + Own(kind, Functions, body),
      methods := page.methods + Own(kind, Methods, body),
      preHandler := page.preHandler + Own(kind, PreHandler, body),
      headerDecls := page.headerDecls + FlatMap(HeaderOf, BlockItems(kind, body)),
      implDecls := page.implDecls + FlatMap(ImplOf, BlockItems(kind, body)),
      attributes := Noted(page.attributes, BlockItems(kind, body)))
  }

  lemma NothingAdded(page: Page)
    ensures page.functions + "" == page.functions && page.methods + "" == page.methods && page.preHandler + "" == page.preHandler
    ensures page.headerDecls + "" == page.headerDecls && page.implDecls + "" == page.implDecls
  {
  }

  lemma BlockAdded(page: Page, kind: State, body: List, p: Page)
    requires BlockKind(kind) && AddBlock(page, kind, body) == Ok(p)
    ensures p == WithBlock(page, kind, body)
  {
    NothingAdded(page);
    if kind == Attr {
      DirectiveAdded(page, Strayed(body), Kept(body), p);
    } else {
      OutsideAdded(page, kind, body);
    }
  }

  lemma OutsideAdded(page: Page, kind: State, body: List)
    requires BlockKind(kind) && kind != Attr
    ensures AddBlock(page, kind, body) == Ok(WithBlock(page, kind, body))
  {
    NothingAdded(page);
    var stray := Strayed(body);
    assert FlatMap(IncludeText, []) == "" && stray + "" == stray;
    assert FlatMap(HeaderOf, []) == "" && FlatMap(ImplOf, []) == "";
    assert Noted(page.attributes, []) == page.attributes;
  }

  lemma DirectiveAdded(page: Page, stray: string, attrs: string, p: Page)
    requires ApplyDirective(page.H(stray), attrs) == Ok(p)
    ensures var items := DirectiveAttributes(attrs).items;
      p == WithItems(page, items).(handler := page.handler + (stray + FlatMap(IncludeText, FlatMap(IncludeOf, items))))
  {
    var items := DirectiveAttributes(attrs).items;
    ItemsHandled(page.H(stray), items);
    Assoc(page.handler, stray, FlatMap(IncludeText, FlatMap(IncludeOf, items)));
  }

  /** The reading's blocks are of kinds that openers open. */
  predicate Opened(r: Reading) {
    r.Then? ==> BlockKind(r.kind) && Opened(r.rest)
  }

  lemma {:induction false} ReadOpened(ts: List)
    ensures Opened(Read(ts))
    ensures forall kind :: BlockKind(kind) ==> Opened(ReadBlock(kind, ts))
    decreases ts
  {
    if ts.Cons? {
      ReadOpened(ts.tail);
    }
  }

  /** What the reader adds for a reading, stream by stream. */
  ghost predicate Adds(page: Page, r: Reading, p: Page) {
    && p.handler == page.handler + Emit(Pieces(r))
    && p.functions == page.functions + Section(r, Functions)
    && p.methods == page.methods + Section(r, Methods)
    && p.preHandler == page.preHandler + Section(r, PreHandler)
    && p.headerDecls == page.headerDecls + FlatMap(HeaderOf, Items(r))
    && p.implDecls == page.implDecls + FlatMap(ImplOf, Items(r))
    && p.attributes == Noted(page.attributes, Items(r))
  }

  lemma {:induction false} NotedAppend(m: map<string, string>, a: seq<Item>, b: seq<Item>)
    ensures Noted(m, a + b) == Noted(Noted(m, a), b)
    decreases |a|
  {
    if a == [] {
      assert a + b == b;
    } else {
      var n := if !IsAttribute(a[0]) || a[0].0 in m then m else m[a[0].0 := a[0].1];
      NotedAppend(n, a[1..], b);
      assert (a + b)[1..] == a[1..] + b;
    }
  }

  lemma {:induction false} ReadingAdded(page: Page, r: Reading)
    requires Opened(r) && AddReading(page, r).Ok?
    ensures Closed(r) && Adds(page, r, AddReading(page, r).value)
    decreases r
  {
    if r.Then? {
      var p1 := AddMarkup(page, r.markup);
      var p2 := AddBlock(p1, r.kind, r.body).value;
      BlockAdded(p1, r.kind, r.body, p2);
      ReadingAdded(p2, r.rest);
      ThenAdds(page, r, p2, AddReading(page, r).value);
    } else {
      LastAdds(page, r.markup);
    }
  }

  lemma LastAdds(page: Page, markup: string)
    ensures Adds(page, Last(markup), AddMarkup(page, markup))
  {
    assert page.functions + "" == page.functions && page.methods + "" == page.methods && page.preHandler + "" == page.preHandler;
    assert page.headerDecls + "" == page.headerDecls && page.implDecls + "" == page.implDecls;
  }

  lemma ThenAdds(page: Page, r: Reading, p2: Page, p: Page)
    requires r.Then? && Adds(p2, r.rest, p)
    requires p2 == WithBlock(AddMarkup(page, r.markup), r.kind, r.body)
    ensures Adds(page, r, p)
  {
    var items := BlockItems(r.kind, r.body);
    ThenText(page.handler, Prints(NoCR(r.markup)), BlockPiece(r.kind, r.body), Pieces(r.rest));
    Assoc(page.functions, Own(r.kind, Functions, r.body), Section(r.rest, Functions));
    Assoc(page.methods, Own(r.kind, Methods, r.body), Section(r.rest, Methods));
    Assoc(page.preHandler, Own(r.kind, PreHandler, r.body), Section(r.rest, PreHandler));
    FlatMapAppend(HeaderOf, items, Items(r.rest));
    FlatMapAppend(ImplOf, items, Items(r.rest));
    Assoc(page.headerDecls, FlatMap(HeaderOf, items), FlatMap(HeaderOf, Items(r.rest)));
    Assoc(page.implDecls, FlatMap(ImplOf, items), FlatMap(ImplOf, Items(r.rest)));
    NotedAppend(page.attributes, items, Items(r.rest));
  }

  lemma ThenText(h: string, a: seq<Piece>, p: Piece, c: seq<Piece>)
    ensures h + Emit(a) + Emitted(p) + Emit(c) == h + Emit(a + ([p] + c))
  {
    FlatMapAppend(Emitted, a, [p] + c);
    FlatMapAppend(Emitted, [p], c);
    FlatMapOne(Emitted, p);
    Assoc(h, Emit(a), Emitted(p) + Emit(c));
    Assoc(h + Emit(a), Emitted(p), Emit(c));
  }

  // ----- meaning -----

  function BlockMeaning(kind: State, body: List): seq<Event> {
    match kind
    case Block => Execute(Lexemes(Flatten(body)))
    case Expr => Execute(Wanted(PrintExpr(Flatten(body))))
    case Attr => Inclusions(Asked(Flatten(body)))
    case _ => []
  }

  /** What serving the page does: markup is written without `\r`; code, by itself, and includes take their place. */
  function Meaning(r: Reading): seq<Event> {
    match r
    case Last(m) => Outs(NoCR(m))
    case NeverClosed(_) => []
    case Then(m, kind, body, rest) => Outs(NoCR(m)) + (BlockMeaning(kind, body) + Meaning(rest))
  }

  /** The pieces, in order, do what the page means. */
  lemma {:induction false} PiecesMean(r: Reading)
    requires Opened(r)
    ensures FlatMap(Does, Pieces(r)) == Meaning(r)
    decreases r
  {
    if r.Last? {
      PrintsRun(NoCR(r.markup));
    } else if r.Then? {
      PrintsRun(NoCR(r.markup));
      PiecesMean(r.rest);
      ThenDoes(Prints(NoCR(r.markup)), BlockPiece(r.kind, r.body), Pieces(r.rest));
      BlockDoes(r.kind, r.body);
    }
  }

  lemma BlockDoes(kind: State, body: List)
    requires BlockKind(kind)
    ensures Does(BlockPiece(kind, body)) == BlockMeaning(kind, body)
  {
    assert Inclusions([]) == [];
  }

  lemma ThenDoes(a: seq<Piece>, p: Piece, c: seq<Piece>)
    ensures FlatMap(Does, a + ([p] + c)) == FlatMap(Does, a) + (Does(p) + FlatMap(Does, c))
  {
    FlatMapAppend(Does, a, [p] + c);
    FlatMapAppend(Does, [p], c);
    FlatMapOne(Does, p);
  }

  // ----- what an author has to keep to -----

  predicate NoBackslash(r: Reading) {
    '\\' !in r.markup && (r.Then? ==> NoBackslash(r.rest))
  }

  predicate Openerless(body: List) {
    body.Cons? ==> Opener(body.head).None? && Openerless(body.tail)
  }

  /** No opener token inside a block whose text does not go to the handler. */
  predicate NoStray(r: Reading) {
    r.Then? ==>
      && (r.kind == Block || r.kind == Expr || Openerless(r.body))
      && NoStray(r.rest)
  }

  /** The code of every block and expression ends in code: outside comments, literals and directives. */
  predicate CodeEnds(r: Reading) {
    r.Then? ==>
      && (r.kind == Block ==> EndsInCode(Start, Flatten(r.body)))
      && (r.kind == Expr ==> EndsInCode(Middle, Flatten(r.body)))
      && CodeEnds(r.rest)
  }

  /** Included paths and components hold no quote, backslash or line end. */
  predicate PlainIncludes(r: Reading) {
    r.Then? ==>
      && (r.kind == Attr ==> AllVerbatim(Asked(Flatten(r.body))))
      && PlainIncludes(r.rest)
  }

  predicate Compilable(r: Reading) { NoBackslash(r) && NoStray(r) && CodeEnds(r) && PlainIncludes(r) }

  lemma {:induction false} StrayedText(body: List)
    ensures Strayed(body) == "" <==> Openerless(body)
    ensures Strayed(body) != "" ==> Strayed(body)[0] == '<'
    ensures Openerless(body) ==> Kept(body) == Flatten(body)
  {
    if body.Cons? {
      StrayedText(body.tail);
    }
  }

  /** Carriage returns are left out of the markup, and nothing else. */
  lemma NoCRExactly(a: string, c: char, b: string)
    ensures NoCR(a + ([c] + b)) == NoCR(a) + ((if c == '\r' then "" else [c]) + NoCR(b))
  {
    FlatMapAppend(KeptChar, a, [c] + b);
    FlatMapAppend(KeptChar, [c], b);
    FlatMapOne(KeptChar, c);
  }

  lemma {:induction false} NoCRBackslash(s: string)
    ensures '\\' in NoCR(s) <==> '\\' in s
  {
    if s != "" {
      NoCRBackslash(s[1..]);
      assert s == [s[0]] + s[1..];
    }
  }

  lemma BlockFits(kind: State, body: List)
    requires BlockKind(kind)
    ensures var p := BlockPiece(kind, body);
      && GoodAside(p) && !p.Print?
      && (Fits(p) <==>
           && (kind == Block || kind == Expr || Openerless(body))
           && (kind == Block ==> EndsInCode(Start, Flatten(body)))
           && (kind == Expr ==> EndsInCode(Middle, Flatten(body)))
           && (kind == Attr ==> AllVerbatim(Asked(Flatten(body)))))
  {
    StrayedText(body);
  }

  /** Every piece fits exactly if the author kept to the rules. */
  lemma {:induction false} PiecesFit(r: Reading)
    requires Opened(r) && Closed(r)
    ensures AllFit(Pieces(r)) <==> Compilable(r)
    decreases r
  {
    var prints := Prints(NoCR(r.markup));
    PrintsFit(NoCR(r.markup));
    NoCRBackslash(r.markup);
    if r.Then? {
      var piece := BlockPiece(r.kind, r.body);
      PiecesFit(r.rest);
      BlockFits(r.kind, r.body);
      FitsAppend(prints, [piece] + Pieces(r.rest));
      FitsFirst(piece, Pieces(r.rest));
    }
  }

  lemma PrintsChained(ps: seq<Piece>, rest: seq<Piece>)
    requires (forall i :: 0 <= i < |ps| ==> ps[i].Print?) && Chained(rest)
    ensures Chained(ps + rest)
  {
    var all := ps + rest;
    forall i | 0 <= i < |all|
      ensures LinkedAt(all, i)
    {
      if i >= |ps| {
        assert LinkedAt(rest, i - |ps|);
      }
    }
  }

  lemma PieceChained(p: Piece, rest: seq<Piece>)
    requires GoodAside(p) && rest != [] && rest[0].Print? && Chained(rest)
    ensures Chained([p] + rest)
  {
    var all := [p] + rest;
    forall i | 0 <= i < |all|
      ensures LinkedAt(all, i)
    {
      if i > 0 {
        assert LinkedAt(rest, i - 1);
      }
    }
  }

  lemma {:induction false} PiecesChained(r: Reading)
    requires Opened(r) && Closed(r)
    ensures Chained(Pieces(r)) && Pieces(r) != [] && Pieces(r)[0].Print?
    decreases r
  {
    var prints := Prints(NoCR(r.markup));
    if r.Then? {
      PiecesChained(r.rest);
      BlockFits(r.kind, r.body);
      PieceChained(BlockPiece(r.kind, r.body), Pieces(r.rest));
      PrintsChained(prints, [BlockPiece(r.kind, r.body)] + Pieces(r.rest));
    } else {
      PrintsChained(prints, []);
      assert prints + [] == prints;
    }
  }

  // ----- the theorems -----

  /**
   Compilation preserves meaning. Whenever the reader accepts a page, the text it adds to the handler is read by a
   C++ lexer as the program of the page, whose execution is what the page means, if and only if no markup holds a
   backslash, no block outside the handler holds an opener, the code of every block ends in code, and included
   names are plain. The other streams hold what their blocks and directives say.
   */
  lemma CompilationPreservesMeaning(page: Page, input: string)
    requires Compile(page, input).Ok?
    ensures var r := Read(Tokens(input));
      && Source(r) == input
      && Adds(page, r, Compile(page, input).value)
      && Execute(Want(Pieces(r))) == Meaning(r)
      && (Lexemes(Emit(Pieces(r))) == Want(Pieces(r)) <==> Compilable(r))
      && (Compilable(r) ==> Execute(Lexemes(Emit(Pieces(r)))) == Meaning(r))
  {
    var r := Read(Tokens(input));
    CompileReads(page, input);
    ReadOpened(Tokens(input));
    ReadingAdded(page, r);
    ReadingIsThePage(Tokens(input));
    TokensLossless(input);
    PiecesMean(r);
    PiecesChained(r);
    PiecesFit(r);
    ProgramReads(Pieces(r));
    ProgramExecutes(Pieces(r));
  }

  /** The directives of the page, in order, all apply. */
  predicate DirectivesApply(page: Page, r: Reading)
    decreases r
  {
    match r
    case Then(m, kind, body, rest) =>
      var p := AddBlock(AddMarkup(page, m), kind, body);
      p.Ok? && DirectivesApply(p.value, rest)
    case _ => true
  }

  lemma {:induction false} RejectsReading(page: Page, r: Reading)
    ensures AddReading(page, r).Ok? <==> DirectivesApply(page, r) && Closed(r)
    ensures DirectivesApply(page, r) && !Closed(r) ==> AddReading(page, r) == Err(Unclosed)
    decreases r
  {
    if r.Then? {
      var p := AddBlock(AddMarkup(page, r.markup), r.kind, r.body);
      if p.Ok? {
        RejectsReading(p.value, r.rest);
      }
    }
  }

  /** A page whose directives apply is rejected exactly when it ends inside a block. */
  lemma RejectsExactlyUnclosed(page: Page, input: string)
    requires DirectivesApply(page, Read(Tokens(input)))
    ensures Compile(page, input) == Err(Unclosed) <==> !Closed(Read(Tokens(input)))
    ensures Compile(page, input).Ok? <==> Closed(Read(Tokens(input)))
  {
    CompileReads(page, input);
    RejectsReading(page, Read(Tokens(input)));
  }

  // ----- the page as its author writes it -----

  predicate PairAt(s: string, i: nat, a: char, b: char) { i + 1 < |s| && s[i] == a && s[i + 1] == b }

  /** No `ab` starts in `s`, which `rest` follows. */
  predicate Without(s: string, rest: string, a: char, b: char) {
    forall i :: 0 <= i < |s| ==> !PairAt(s + rest, i, a, b)
  }

  /** The character behind an opener does not make it a longer one. */
  predicate Apart(open: string, next: char) {
    && (open == "<%" ==> next !in "%@=!-")
    && (open == "<%!" ==> next != '!')
  }

  /** Markup without `<%`, and blocks of code without `<%` and `%>`. */
  datatype Script =
    | Ending(markup: string)
    | Blocked(markup: string, open: string, kind: State, code: string, rest: Script)

  predicate WellWritten(w: Script) {
    match w
    case Ending(m) => Without(m, "", '<', '%')
    case Blocked(m, open, kind, code, rest) =>
      && Without(m, "", '<', '%') && CodeFor(open, kind, code) && WellWritten(rest)
  }

  predicate CodeFor(open: string, kind: State, code: string) {
    && Opens(open, kind) && Apart(open, (code + "%>")[0])
    && Without(code, "%>", '<', '%') && Without(code, "", '%', '>')
  }

  function PageText(w: Script): string {
    match w
    case Ending(m) => m
    case Blocked(m, open, _, code, rest) => m + (open + (code + ("%>" + PageText(rest))))
  }

  /** Each character of the code is a token of its own. */
  function CharList(s: string, tail: List): List {
    if s == "" then tail else Cons([s[0]], CharList(s[1..], tail))
  }

  function ReadingOf(w: Script): Reading {
    match w
    case Ending(m) => Last(m)
    case Blocked(m, _, kind, code, rest) => Then(m, kind, CharList(code, Nil), ReadingOf(rest))
  }

  lemma TokensFrom(t: string, rest: string)
    requires t != "" && TokenLength(t + rest) == |t|
    ensures Tokens(t + rest) == Cons(t, Tokens(rest))
  {
    assert (t + rest)[..|t|] == t && (t + rest)[|t|..] == rest;
  }

  lemma OpenerTaken(open: string, kind: State, rest: string)
    requires Opens(open, kind) && rest != "" && Apart(open, rest[0])
    ensures Tokens(open + rest) == Cons(open, Tokens(rest)) && Opener(open) == Some(kind)
  {
    OpenersListed(open, kind);
    var s := open + rest;
    assert s[|open|] == rest[0] && forall i :: 0 <= i < |open| ==> s[i] == open[i];
    TokensFrom(open, rest);
  }

  lemma WithoutRest(s: string, rest: string, a: char, b: char)
    requires s != "" && Without(s, rest, a, b)
    ensures Without(s[1..], rest, a, b) && s + rest == [s[0]] + (s[1..] + rest)
    ensures !PairAt([s[0]] + (s[1..] + rest), 0, a, b)
  {
    assert s + rest == [s[0]] + (s[1..] + rest);
    forall i | 0 <= i < |s| - 1
      ensures !PairAt(s[1..] + rest, i, a, b)
    {
      assert !PairAt(s + rest, i + 1, a, b);
    }
    assert !PairAt(s + rest, 0, a, b);
  }

  lemma {:induction false} CodeTokens(s: string, rest: string)
    requires Without(s, rest, '<', '%') && Without(s, rest, '%', '>')
    ensures Tokens(s + rest) == CharList(s, Tokens(rest))
  {
    if s == "" {
      assert s + rest == rest;
    } else {
      WithoutRest(s, rest, '<', '%');
      WithoutRest(s, rest, '%', '>');
      TokensFrom([s[0]], s[1..] + rest);
      CodeTokens(s[1..], rest);
    }
  }

  lemma {:induction false} CharBody(kind: State, s: string, rest: List)
    ensures ReadBlock(kind, CharList(s, Cons("%>", rest))) == Then("", kind, CharList(s, Nil), Read(rest))
    ensures Flatten(CharList(s, Nil)) == s && Openerless(CharList(s, Nil))
  {
    if s == "" {
    } else {
      CharBody(kind, s[1..], rest);
      assert s == [s[0]] + s[1..] && Opener([s[0]]).None?;
    }
  }

  lemma CodeCloses(code: string, after: string)
    requires Without(code, "%>", '<', '%') && Without(code, "", '%', '>')
    ensures Without(code, "%>" + after, '<', '%') && Without(code, "%>" + after, '%', '>')
  {
    var s := code + ("%>" + after);
    forall i | 0 <= i < |code|
      ensures !PairAt(s, i, '<', '%') && !PairAt(s, i, '%', '>')
    {
      assert !PairAt(code + "%>", i, '<', '%') && !PairAt(code + "", i, '%', '>');
      assert s[i + 1] == (code + "%>")[i + 1];
    }
  }

  /** A block and whatever is behind it. */
  lemma OneBlock(open: string, kind: State, code: string, after: string)
    requires CodeFor(open, kind, code)
    ensures Read(Tokens(open + (code + ("%>" + after)))) == Then("", kind, CharList(code, Nil), Read(Tokens(after)))
    ensures Flatten(CharList(code, Nil)) == code && Openerless(CharList(code, Nil)) && Kept(CharList(code, Nil)) == code
  {
    var rest := code + ("%>" + after);
    assert rest[0] == (code + "%>")[0];
    OpenerTaken(open, kind, rest);
    CodeCloses(code, after);
    CodeTokens(code, "%>" + after);
    TokensFrom("%>", after);
    CharBody(kind, code, Tokens(after));
    StrayedText(CharList(code, Nil));
  }

  /** Markup without `<%` in front of an opener or at the end; `%>` in it is markup too. */
  lemma {:induction false} MarkupThen(m: string, rest: string)
    requires Without(m, "", '<', '%') && (rest == "" || rest[0] == '<')
    ensures Read(Tokens(m + rest)) == Read(Tokens(rest)).After(m)
    decreases |m|
  {
    var r := Read(Tokens(rest));
    if m == "" {
      assert m + rest == rest && "" + r.markup == r.markup;
    } else {
      var n := if PairAt(m, 0, '%', '>') then 2 else 1;
      var t, more := m[..n], m[n..];
      assert m == t + more && m + rest == t + (more + rest);
      assert !PairAt(m + "", 0, '<', '%');
      WithoutTail(m, n);
      assert TokenLength(t + (more + rest)) == n;
      TokensFrom(t, more + rest);
      MarkupThen(more, rest);
      Assoc(t, more, r.markup);
    }
  }

  lemma WithoutTail(m: string, n: nat)
    requires Without(m, "", '<', '%') && n <= |m|
    ensures Without(m[n..], "", '<', '%')
  {
    forall i | 0 <= i < |m| - n
      ensures !PairAt(m[n..] + "", i, '<', '%')
    {
      assert !PairAt(m + "", n + i, '<', '%');
    }
  }

  /** The reading of a page is what its author wrote, for every page of markup and blocks. */
  lemma {:induction false} PageAsWritten(w: Script)
    requires WellWritten(w)
    ensures Read(Tokens(PageText(w))) == ReadingOf(w)
    decreases w
  {
    match w
    case Ending(m) =>
      MarkupThen(m, "");
      assert m + "" == m;
    case Blocked(m, open, kind, code, rest) =>
      PageAsWritten(rest);
      var block := open + (code + ("%>" + PageText(rest)));
      assert block[0] == open[0] == '<';
      OneBlock(open, kind, code, PageText(rest));
      MarkupThen(m, block);
      assert m + "" == m;
  }

  /** So what is compiled is what the author wrote, and serving it does what that means. */
  lemma WrittenPageMeans(page: Page, w: Script)
    requires WellWritten(w) && Compile(page, PageText(w)).Ok?
    ensures var r := ReadingOf(w);
      && Adds(page, r, Compile(page, PageText(w)).value)
      && (Compilable(r) ==> Execute(Lexemes(Emit(Pieces(r)))) == Meaning(r))
  {
    PageAsWritten(w);
    CompilationPreservesMeaning(page, PageText(w));
  }

  // ----- pages that are accepted and not read as their program -----

  /** Accepted, and not read as the program of the page. */
  ghost predicate Loses(page: Page, input: string) {
    var r := Read(Tokens(input));
    Compile(page, input).Ok? && Lexemes(Emit(Pieces(r))) != Want(Pieces(r))
  }

  lemma LosesMeaning(page: Page, input: string, r: Reading)
    requires Read(Tokens(input)) == r && AddReading(page, r).Ok? && !Compilable(r)
    ensures Loses(page, input)
  {
    CompileReads(page, input);
    CompilationPreservesMeaning(page, input);
  }

  /** A backslash in markup. */
  lemma BackslashLosesMeaning(page: Page)
    ensures Loses(page, "\\")
    ensures var r := Read(Tokens("\\")); NoStray(r) && CodeEnds(r) && PlainIncludes(r)
  {
    MarkupThen("\\", "");
    assert "\\" + "" == "\\";
    LosesMeaning(page, "\\", Last("\\"));
  }

  /** An opener inside a block outside the handler. */
  lemma StrayLosesMeaning(page: Page)
    ensures Loses(page, "<%!<%a%>")
    ensures var r := Read(Tokens("<%!<%a%>")); NoBackslash(r) && CodeEnds(r) && PlainIncludes(r)
  {
    StrayTokens();
    StrayReading();
    LosesMeaning(page, "<%!<%a%>", Then("", Functions, Cons("<%", Cons("a", Nil)), Last("")));
  }

  lemma StrayReading()
    ensures Read(Cons("<%!", Cons("<%", Cons("a", Cons("%>", Nil))))) ==
      Then("", Functions, Cons("<%", Cons("a", Nil)), Last(""))
  {
    assert ReadBlock(Functions, Cons("%>", Nil)) == Then("", Functions, Nil, Last(""));
    assert ReadBlock(Functions, Cons("a", Cons("%>", Nil))) == Then("", Functions, Cons("a", Nil), Last(""));
  }

  lemma StrayTokens()
    ensures Tokens("<%!<%a%>") == Cons("<%!", Cons("<%", Cons("a", Cons("%>", Nil))))
  {
    assert "<%!" + "<%a%>" == "<%!<%a%>";
    TokensFrom("<%!", "<%a%>");
    BlockTokens();
  }

  lemma BlockTokens()
    ensures Tokens("<%a%>") == Cons("<%", Cons("a", Cons("%>", Nil)))
  {
    assert "<%" + "a%>" == "<%a%>" && "a" + "%>" == "a%>" && "%>" + "" == "%>";
    TokensFrom("<%", "a%>");
    TokensFrom("a", "%>");
    TokensFrom("%>", "");
  }

  /** Code that ends in a comment, a literal or a directive, whatever markup follows. */
  lemma OpenCodeLosesMeaning(page: Page, code: string, after: string)
    requires CodeFor("<%", Block, code) && Without(after, "", '<', '%') && '\\' !in after && !EndsInCode(Start, code)
    ensures var input := "<%" + (code + ("%>" + after));
      Loses(page, input) && var r := Read(Tokens(input)); NoBackslash(r) && NoStray(r) && PlainIncludes(r)
  {
    OneBlock("<%", Block, code, after);
    MarkupThen(after, "");
    assert after + "" == after;
    LosesMeaning(page, "<%" + (code + ("%>" + after)), Then("", Block, CharList(code, Nil), Last(after)));
  }

  /** A directive that includes a path with a quote, a backslash or a line end. */
  lemma DirectiveLosesMeaning(page: Page, input: string, body: List, path: string)
    requires Read(Tokens(input)) == Then("", Attr, body, Last("")) && Openerless(body) && Kept(body) == Flatten(body)
    requires DirectiveAttributes(Flatten(body)) == AttrList([("include.path", path)], None) && !Verbatim(path)
    ensures Loses(page, input)
    ensures var r := Read(Tokens(input)); NoBackslash(r) && NoStray(r) && CodeEnds(r)
  {
    DirectiveCompiles(page, Flatten(body), path, body);
    NotPlain(Flatten(body), path, body);
    DirectiveFacts(body);
    LosesMeaning(page, input, Then("", Attr, body, Last("")));
  }

  lemma DirectiveFacts(body: List)
    requires Openerless(body)
    ensures var r := Then("", Attr, body, Last("")); NoBackslash(r) && NoStray(r) && CodeEnds(r)
  {
  }

  lemma NotPlain(attrs: string, path: string, body: List)
    requires DirectiveAttributes(attrs) == AttrList([("include.path", path)], None) && !Verbatim(path) && Flatten(body) == attrs
    ensures !PlainIncludes(Then("", Attr, body, Last("")))
  {
    AskedPath(attrs, path);
    assert Asked(attrs)[0] == Path(path);
  }

  lemma DirectiveCompiles(page: Page, attrs: string, path: string, body: List)
    requires DirectiveAttributes(attrs) == AttrList([("include.path", path)], None) && Kept(body) == attrs
    ensures AddReading(page, Then("", Attr, body, Last(""))).Ok?
  {
    var p := AddMarkup(page, "");
    PathApplies(p.H(Strayed(body)), attrs, path);
    assert AddBlock(p, Attr, body).Ok?;
    LastIsAdded(AddBlock(p, Attr, body).value);
  }

  lemma LastIsAdded(page: Page)
    ensures AddReading(page, Last("")).Ok?
  {
  }

  lemma AskedPath(attrs: string, path: string)
    requires DirectiveAttributes(attrs) == AttrList([("include.path", path)], None)
    ensures Asked(attrs) == [Path(path)]
  {
    FlatMapOne(IncludeOf, ("include.path", path));
  }

  /** So does every path with a quote, a backslash or a line end, however the directive is written. */
  lemma PathLosesMeaning(page: Page, d: Directive)
    requires d.Valid() && d.base == "include" && |d.entries| == 1 && d.entries[0].name == "path" && !Verbatim(d.entries[0].value)
    requires CodeFor("<%@", Attr, d.Text())
    ensures var input := "<%@" + (d.Text() + ("%>" + ""));
      Loses(page, input) && var r := Read(Tokens(input)); NoBackslash(r) && NoStray(r) && CodeEnds(r)
  {
    DirectiveRoundTrip(d);
    PathQualified(d.entries[0]);
    assert d.entries == [d.entries[0]];
    OneBlock("<%@", Attr, d.Text(), "");
    assert Read(Tokens("")) == Last("");
    DirectiveLosesMeaning(page, "<%@" + (d.Text() + ("%>" + "")), CharList(d.Text(), Nil), d.entries[0].value);
  }

  lemma PathApplies(page: Page, attrs: string, path: string)
    requires DirectiveAttributes(attrs) == AttrList([("include.path", path)], None)
    ensures ApplyDirective(page, attrs).Ok?
  {
    var items := [("include.path", path)];
    assert items[1..] == [];
    assert HandleAttributes(page.H(IncludeText(Path(path))), items[1..]).Ok?;
  }

  lemma PathQualified(e: Entry)
    requires e.name == "path"
    ensures Qualified("include", [e]) == [("include.path", e.value)]
  {
    assert [e][1..] == [];
    assert Qualified("include", [e]) == [("include" + "." + "path", e.value)] + Qualified("include", []);
    assert "include" + "." + "path" == "include.path";
  }

  /** Behind two slashes the print statement for "a" is a comment: the page is accepted and never writes it. */
  lemma CommentSwallowsMarkup(page: Page)
    ensures Loses(page, "<%//%>a")
    ensures var r := Read(Tokens("<%//%>a"));
      && NoBackslash(r) && NoStray(r) && PlainIncludes(r)
      && Out('a') in Meaning(r) && Out('a') !in Execute(Lexemes(Emit(Pieces(r))))
  {
    assert "<%//%>a" == "<%" + ("//" + ("%>" + "a"));
    SlashesOpen();
    OpenCodeLosesMeaning(page, "//", "a");
    OneBlock("<%", Block, "//", "a");
    MarkupThen("a", "");
    assert "a" + "" == "a";
    var r := Read(Tokens("<%//%>a"));
    SwallowedPieces(r);
    SwallowedText();
  }

  lemma SlashesOpen()
    ensures !EndsInCode(Start, "//") && ModeAfter(Code(Start), "//") == LineComment(false) && Given(Code(Start), "//") == []
  {
    var s := "//";
    assert s[1..] == "/" && "/"[1..] == "";
    assert ModeAfter(Slash(Start), "/") == ModeAfter(LineComment(false), "");
    assert Given(Slash(Start), "/") == Given(LineComment(false), "");
  }

  lemma SwallowedPieces(r: Reading)
    requires r == Then("", Block, CharList("//", Nil), Last("a")) && Flatten(CharList("//", Nil)) == "//"
    ensures Emit(Pieces(r)) == Emitted(Print("")) + ("//" + Emitted(Print("a")))
    ensures Out('a') in Meaning(r)
  {
    var a := "a";
    assert a[1..] == "" && NoCR("") == "" && NoCR(a) == KeptChar('a') + NoCR("") == a;
    assert Prints("") == [Print("")];
    assert Prints(a) == [Print("a" + "")] + [Print("")][1..];
    assert Prints(a) == [Print("a")];
    ThenText("", [Print("")], Raw("//"), [Print("a")]);
    FlatMapOne(Emitted, Print(""));
    FlatMapOne(Emitted, Print("a"));
    var text := Emit(Pieces(r));
    assert "" + text == text && "" + Emitted(Print("")) == Emitted(Print(""));
    Assoc(Emitted(Print("")), "//", Emitted(Print("a")));
    assert Outs("a")[0] == Out('a');
    assert Meaning(Last("a")) == Outs("a");
    assert Meaning(r) == Outs("") + (Execute(Lexemes("//")) + Outs("a"));
  }

  lemma SwallowedText()
    ensures Out('a') !in Execute(Lexemes(Emitted(Print("")) + ("//" + Emitted(Print("a")))))
  {
    var line := PRINT + ("\"" + ("a" + "\";"));
    PrintedA(line);
    CommentedLine(line);
    var w := "//" + (line + "\n");
    PrintReads("", w, Lexemes(w));
    ExecutePrint("", Lexemes(w));
    BlankExecutes();
  }

  lemma BlankExecutes()
    ensures Execute([Sym(' '), Sym('\n')]) == [Token(Sym(' ')), Token(Sym('\n'))]
  {
    var ls := [Sym(' '), Sym('\n')];
    CallLetters();
    assert ls[1..] == [Sym('\n')] && [Sym('\n')][1..] == [];
    assert Execute(ls[1..]) == [Token(Sym('\n'))];
  }

  lemma PrintedA(line: string)
    requires line == PRINT + ("\"" + ("a" + "\";"))
    ensures Emitted(Print("a")) == line + "\n" && '\n' !in line && '\\' !in line
  {
    FlatMapOne(Spell, 'a');
    assert Spelling("a") == "a";
    PrintIsOneLine();
    assert MARKUP_END == "\";" + "\n";
    PrintedChain(PRINT, "\"", "a", "\";", "\n");
    var tail := "\"" + ("a" + "\";");
    assert tail == "\"a\";" && '\n' !in tail && '\\' !in tail;
  }

  lemma PrintedChain(a: string, b: string, c: string, d: string, e: string)
    ensures (a + b) + (c + (d + e)) == (a + (b + (c + d))) + e
  {
  }

  lemma CommentedLine(line: string)
    requires '\n' !in line && '\\' !in line
    ensures Lexemes("//" + (line + "\n")) == [Sym(' '), Sym('\n')]
  {
    SlashesOpen();
    LexParts(Code(Start), "//", line + "\n");
    CommentTakesLine(line, "");
    assert "\n" + "" == "\n" && Lexemes("") == [];
  }

  lemma PrintIsOneLine()
    ensures '\n' !in PRINT && '\\' !in PRINT
  {
    ResponseIsBare();
    assert '\\' !in RESPONSE && '\n' !in RESPONSE;
    var a, b := "Stream", " << ";
    assert '\\' !in a && '\n' !in a && '\\' !in b && '\n' !in b;
  }

  lemma {:induction false} CommentTakesLine(line: string, rest: string)
    requires '\n' !in line && '\\' !in line
    ensures LexFrom(LineComment(false), line + ("\n" + rest)) == [Sym(' '), Sym('\n')] + Lexemes(rest)
  {
    var w := line + ("\n" + rest);
    LexStep(LineComment(false), w);
    if line == "" {
      assert w[0] == '\n' && w[1..] == rest;
    } else {
      assert w[0] == line[0] && w[1..] == line[1..] + ("\n" + rest);
      CommentTakesLine(line[1..], rest);
    }
  }
}
