/** Variables in configuration values: the replace loop, and expansion by recursion over references. */
module Config {
  import opened Common

  datatype Outcome = Done(text: string) | Missing(key: string) | Stuck

  // ----- searching `${name}` -----

  predicate IsAlpha(c: char) { 'A' <= c <= 'Z' || 'a' <= c <= 'z' }

  predicate IsNameChar(c: char) { IsAlpha(c) || '0' <= c <= '9' || c == '-' }

  function NameEnd(s: string, j: nat): (e: nat)
    requires j <= |s|
    ensures j <= e <= |s| && forall i :: j <= i < e ==> IsNameChar(s[i])
    ensures e < |s| ==> !IsNameChar(s[e])
    decreases |s| - j
  {
    if j < |s| && IsNameChar(s[j]) then NameEnd(s, j + 1) else j
  }

  /** Where a reference that starts at `i` ends. */
  function RefAt(s: string, i: nat): (r: Option<nat>)
    ensures r.Some? ==> i + 4 <= r.value <= |s|
  {
    if i + 3 < |s| && s[i] == '$' && s[i + 1] == '{' && IsAlpha(s[i + 2]) then
      var e := NameEnd(s, i + 3);
      if e < |s| && s[e] == '}' then Some(e + 1) else None
    else None
  }

  datatype Match = NoMatch | Match(begin: nat, end: nat)

  /** The leftmost reference. */
  function Search(s: string, i: nat): (m: Match)
    requires i <= |s|
    ensures m.Match? ==> i <= m.begin && m.begin + 4 <= m.end <= |s|
    decreases |s| - i
  {
    if i == |s| then NoMatch
    else
      match RefAt(s, i)
      case Some(e) => Match(i, e)
      case None => Search(s, i + 1)
  }

  function Key(s: string, m: Match): string
    requires m.Match? && m.begin + 4 <= m.end <= |s|
  {
    s[m.begin + 2..m.end - 1]
  }

  function Replaced(s: string, m: Match, value: string): string
    requires m.Match? && m.begin <= m.end <= |s|
  {
    s[..m.begin] + value + s[m.end..]
  }

  // ----- the loop -----

  /** What the loop makes of a value in at most `n` replacements. */
  function Loop(vars: map<string, string>, n: nat, s: string): Outcome {
    var m := Search(s, 0);
    if m.NoMatch? then Done(s)
    else if Key(s, m) !in vars then Missing(Key(s, m))
    else if n == 0 then Stuck
    else Loop(vars, n - 1, Replaced(s, m, vars[Key(s, m)]))
  }

  /** The loop itself, on every value for which it ends: `steps` is any number of rounds that suffices. */
  method ResolveVariables(vars: map<string, string>, val0: string, ghost steps: nat) returns (r: Outcome)
    requires Loop(vars, steps, val0) != Stuck
    ensures r == Loop(vars, steps, val0)
  {
    var val := val0;
    ghost var n := steps;
    var m := Search(val, 0);
    while m.Match?
      invariant m == Search(val, 0)
      invariant Loop(vars, n, val) == Loop(vars, steps, val0)
      decreases n
    {
      var key := Key(val, m);
      if key !in vars {
        return Missing(key);
      }
      val := Replaced(val, m, vars[key]);
      n := n - 1;
      m := Search(val, 0);
    }
    r := Done(val);
  }

  // ----- text as references and characters -----

  datatype Text = End | Char(c: char, rest: Text) | Ref(key: string, rest: Text)

  predicate ValidKey(k: string) {
    k != "" && IsAlpha(k[0]) && forall i :: 0 <= i < |k| ==> IsNameChar(k[i])
  }

  /** References are well formed; loose characters are any. */
  predicate WellFormed(t: Text) {
    match t
    case End => true
    case Char(_, rest) => WellFormed(rest)
    case Ref(k, rest) => ValidKey(k) && WellFormed(rest)
  }

  /** In addition every loose dollar sign is directly followed by a character other than an opening brace. */
  predicate Valid(t: Text) {
    match t
    case End => true
    case Char(c, rest) => (c == '$' ==> rest.Char? && rest.c != '{') && Valid(rest)
    case Ref(k, rest) => ValidKey(k) && Valid(rest)
  }

  function RefText(k: string): string { "${" + (k + "}") }

  function Print(t: Text): string {
    match t
    case End => ""
    case Char(c, rest) => [c] + Print(rest)
    case Ref(k, rest) => RefText(k) + Print(rest)
  }

  function Append(a: Text, b: Text): Text {
    match a
    case End => b
    case Char(c, rest) => Char(c, Append(rest, b))
    case Ref(k, rest) => Ref(k, Append(rest, b))
  }

  type Defs = map<string, Text>

  predicate WellFormedDefs(defs: Defs) { forall k :: k in defs ==> WellFormed(defs[k]) }

  predicate ValidDefs(defs: Defs) { forall k :: k in defs ==> Valid(defs[k]) }

  function Printed(defs: Defs): map<string, string> { map k | k in defs :: Print(defs[k]) }

  function Then(a: string, o: Outcome): Outcome { if o.Done? then Done(a + o.text) else o }

  /** Full expansion, references nested at most `depth` deep, from left to right. */
  function Expand(defs: Defs, depth: nat, t: Text): Outcome
    decreases depth, t
  {
    match t
    case End => Done("")
    case Char(c, rest) => Then([c], Expand(defs, depth, rest))
    case Ref(k, rest) =>
      if k !in defs then Missing(k)
      else if depth == 0 then Stuck
      else
        var first := Expand(defs, depth - 1, defs[k]);
        if first.Done? then Then(first.text, Expand(defs, depth, rest)) else first
  }

  /** The loop on such text, at most `n` replacements: each puts the value in front of the rest. */
  function Rounds(defs: Defs, n: nat, t: Text): Outcome
    decreases n, t
  {
    match t
    case End => Done("")
    case Char(c, rest) => Then([c], Rounds(defs, n, rest))
    case Ref(k, rest) =>
      if k !in defs then Missing(k)
      else if n == 0 then Stuck
      else Rounds(defs, n - 1, Append(defs[k], rest))
  }

  // ----- printed text is searched reference by reference -----

  lemma {:induction false} PrintAppend(a: Text, b: Text)
    ensures Print(Append(a, b)) == Print(a) + Print(b)
  {
    match a
    case End =>
    case Char(c, rest) =>
      PrintAppend(rest, b);
      Assoc([c], Print(rest), Print(b));
    case Ref(k, rest) =>
      PrintAppend(rest, b);
      Assoc(RefText(k), Print(rest), Print(b));
  }

  lemma {:induction false} ValidAppend(a: Text, b: Text)
    ensures WellFormed(a) && WellFormed(b) ==> WellFormed(Append(a, b))
    ensures Valid(a) && Valid(b) ==> Valid(Append(a, b))
  {
    match a
    case End =>
    case Char(_, rest) => ValidAppend(rest, b);
    case Ref(_, rest) => ValidAppend(rest, b);
  }

  lemma {:induction false} ValidIsWellFormed(t: Text)
    requires Valid(t)
    ensures WellFormed(t)
  {
    match t
    case End =>
    case Char(_, rest) => ValidIsWellFormed(rest);
    case Ref(_, rest) => ValidIsWellFormed(rest);
  }

  lemma {:induction false} NameEndIs(s: string, j: nat, e: nat)
    requires j <= e <= |s| && (forall i :: j <= i < e ==> IsNameChar(s[i])) && (e < |s| ==> !IsNameChar(s[e]))
    ensures NameEnd(s, j) == e
    decreases e - j
  {
    if j < e {
      NameEndIs(s, j + 1, e);
    }
  }

  /** No reference starts anywhere in the text. */
  predicate Clean(s: string) { forall i :: 0 <= i < |s| ==> RefAt(s, i).None? }

  lemma {:induction false} SearchSkips(s: string, i: nat, k: nat)
    requires i <= k <= |s| && forall j :: i <= j < k ==> RefAt(s, j).None?
    ensures Search(s, i) == Search(s, k)
    decreases k - i
  {
    if i < k {
      SearchSkips(s, i + 1, k);
    }
  }

  lemma {:induction false} NoneFound(s: string, i: nat, j: nat)
    requires i <= j < |s| && Search(s, i).NoMatch?
    ensures RefAt(s, j).None?
    decreases j - i
  {
    if i < j {
      NoneFound(s, i + 1, j);
    }
  }

  lemma CleanIsNoMatch(s: string)
    ensures Clean(s) <==> Search(s, 0).NoMatch?
  {
    if Clean(s) {
      SearchSkips(s, 0, |s|);
    } else if Search(s, 0).NoMatch? {
      forall j | 0 <= j < |s| ensures RefAt(s, j).None? { NoneFound(s, 0, j); }
    }
  }

  /** A reference inside a text stays one whatever follows. */
  lemma RefStays(p: string, w: string, i: nat)
    requires RefAt(p, i).Some?
    ensures RefAt(p + w, i).Some?
  {
    var s, e := p + w, NameEnd(p, i + 3);
    assert forall j :: 0 <= j < |p| ==> s[j] == p[j];
    NameEndIs(s, i + 3, e);
  }

  lemma CleanPrefix(p: string, w: string)
    requires Clean(p + w)
    ensures Clean(p)
  {
    forall i | 0 <= i < |p|
      ensures RefAt(p, i).None?
    {
      assert RefAt(p + w, i).None?;
      if RefAt(p, i).Some? {
        RefStays(p, w, i);
      }
    }
  }

  /** A reference that starts before a dollar sign ends before it: it does not reach into what is written there. */
  lemma NotAcrossDollar(p: string, w: string, i: nat)
    requires w != "" && w[0] == '$' && i < |p| && RefAt(p, i).None?
    ensures RefAt(p + w, i).None?
  {
    var s := p + w;
    assert s[|p|] == '$' && forall j :: 0 <= j < |p| ==> s[j] == p[j];
    if RefAt(s, i).Some? {
      var e := NameEnd(s, i + 3);
      assert i + 2 < |p|;
      assert e < |p|;
      NameEndIs(p, i + 3, e);
    }
  }

  /** A reference behind clean text is the leftmost match. */
  lemma SearchFinds(pre: string, k: string, rest: string)
    requires Clean(pre) && ValidKey(k)
    ensures var s, m := pre + (RefText(k) + rest), Match(|pre|, |pre| + |k| + 3);
      Search(s, 0) == m && Key(s, m) == k
  {
    var w := RefText(k) + rest;
    var s, i := pre + w, |pre|;
    assert w[0] == '$';
    forall j | 0 <= j < i ensures RefAt(s, j).None? { NotAcrossDollar(pre, w, j); }
    SearchSkips(s, 0, i);
    RefStands(pre, k, rest);
  }

  lemma RefStands(pre: string, k: string, rest: string)
    requires ValidKey(k)
    ensures var s := pre + (RefText(k) + rest);
      RefAt(s, |pre|) == Some(|pre| + |k| + 3) && s[|pre| + 2..|pre| + |k| + 2] == k
  {
    var s, i := pre + (RefText(k) + rest), |pre|;
    assert forall j :: 0 <= j < |k| ==> s[i + 2 + j] == k[j];
    assert s[i] == '$' && s[i + 1] == '{' && s[i + 2 + |k|] == '}';
    assert s[i + 2] == k[0];
    NameAt(s, i, k);
  }

  lemma NameAt(s: string, i: nat, k: string)
    requires ValidKey(k) && i + 2 + |k| < |s| && s[i + 2 + |k|] == '}'
    requires forall j :: 0 <= j < |k| ==> s[i + 2 + j] == k[j]
    ensures NameEnd(s, i + 3) == i + 2 + |k|
  {
    forall x | i + 3 <= x < i + 2 + |k|
      ensures IsNameChar(s[x])
    {
      assert s[i + 2 + (x - i - 2)] == k[x - i - 2];
    }
    NameEndIs(s, i + 3, i + 2 + |k|);
  }

  /** One round of the loop at the first reference. */
  lemma LoopAt(vars: map<string, string>, n: nat, pre: string, k: string, rest: string)
    requires Clean(pre) && ValidKey(k)
    ensures Loop(vars, n, pre + (RefText(k) + rest)) ==
      if k !in vars then Missing(k) else if n == 0 then Stuck else Loop(vars, n - 1, pre + vars[k] + rest)
  {
    SearchFinds(pre, k, rest);
    RefLength(k);
    LoopAtRef(vars, n, pre, RefText(k), rest, k);
  }

  lemma RefLength(k: string)
    ensures |RefText(k)| == |k| + 3
  {
  }

  lemma LoopAtRef(vars: map<string, string>, n: nat, pre: string, ref: string, rest: string, k: string)
    requires |ref| >= 4
    requires var s, m := pre + (ref + rest), Match(|pre|, |pre| + |ref|); Search(s, 0) == m && Key(s, m) == k
    ensures Loop(vars, n, pre + (ref + rest)) ==
      if k !in vars then Missing(k) else if n == 0 then Stuck else Loop(vars, n - 1, pre + vars[k] + rest)
  {
    LoopStep(vars, n, pre + (ref + rest), Match(|pre|, |pre| + |ref|));
    if k in vars {
      ReplacedInside(pre, ref, rest, vars[k]);
    }
  }

  lemma LoopStep(vars: map<string, string>, n: nat, s: string, m: Match)
    requires m.Match? && m == Search(s, 0)
    ensures Loop(vars, n, s) ==
      if Key(s, m) !in vars then Missing(Key(s, m))
      else if n == 0 then Stuck
      else Loop(vars, n - 1, Replaced(s, m, vars[Key(s, m)]))
  {
  }

  lemma ReplacedInside(pre: string, ref: string, rest: string, value: string)
    ensures var s := pre + (ref + rest); Replaced(s, Match(|pre|, |pre| + |ref|), value) == pre + value + rest
  {
    var s := pre + (ref + rest);
    assert s[..|pre|] == pre && s[|pre| + |ref|..] == rest;
  }

  lemma ThenThen(a: string, b: string, o: Outcome)
    ensures Then(a, Then(b, o)) == Then(a + b, o)
  {
    if o.Done? {
      Assoc(a, b, o.text);
    }
  }

  /** The characters that stand for good when the loop on references stops. */
  function Settled(defs: Defs, n: nat, t: Text): string
    decreases n, t
  {
    match t
    case End => ""
    case Char(c, rest) => [c] + Settled(defs, n, rest)
    case Ref(k, rest) => if k !in defs || n == 0 then "" else Settled(defs, n - 1, Append(defs[k], rest))
  }

  lemma {:induction false} SettledIsText(defs: Defs, n: nat, t: Text)
    requires Rounds(defs, n, t).Done?
    ensures Settled(defs, n, t) == Rounds(defs, n, t).text
    decreases n, t
  {
    match t
    case End =>
    case Char(_, rest) => SettledIsText(defs, n, rest);
    case Ref(k, rest) => SettledIsText(defs, n - 1, Append(defs[k], rest));
  }

  /** As long as settled characters do not make a reference, the loop on the text goes round by round with the references. */
  lemma {:induction false} LoopIsRounds(defs: Defs, n: nat, pre: string, t: Text)
    requires WellFormedDefs(defs) && WellFormed(t) && Clean(pre + Settled(defs, n, t))
    ensures Loop(Printed(defs), n, pre + Print(t)) == Then(pre, Rounds(defs, n, t))
    decreases n, t
  {
    match t
    case End =>
      assert pre + "" == pre;
      CleanIsNoMatch(pre);
    case Char(c, rest) =>
      Assoc(pre, [c], Settled(defs, n, rest));
      LoopIsRounds(defs, n, pre + [c], rest);
      Assoc(pre, [c], Print(rest));
      ThenThen(pre, [c], Rounds(defs, n, rest));
    case Ref(k, rest) =>
      CleanPrefix(pre, Settled(defs, n, t));
      LoopAt(Printed(defs), n, pre, k, Print(rest));
      if k in defs && n > 0 {
        assert WellFormed(defs[k]);
        ValidAppend(defs[k], rest);
        LoopIsRounds(defs, n - 1, pre, Append(defs[k], rest));
        PrintAppend(defs[k], rest);
        Assoc(pre, Print(defs[k]), Print(rest));
      }
  }

  /** Nothing that an opening brace could turn into a reference. */
  predicate Unopened(s: string) { forall i :: 0 <= i < |s| - 1 ==> !(s[i] == '$' && s[i + 1] == '{') }

  lemma UnopenedIsClean(s: string)
    requires Unopened(s)
    ensures Clean(s)
  {
  }

  lemma {:induction false} SettledUnopened(defs: Defs, n: nat, t: Text)
    requires ValidDefs(defs) && Valid(t)
    ensures Unopened(Settled(defs, n, t))
    decreases n, t
  {
    match t
    case End =>
    case Char(c, rest) =>
      SettledUnopened(defs, n, rest);
      var s, tail := Settled(defs, n, t), Settled(defs, n, rest);
      assert rest.Char? ==> tail[0] == rest.c;
      forall i | 0 <= i < |s| - 1
        ensures !(s[i] == '$' && s[i + 1] == '{')
      {
        if i > 0 {
          assert s[i] == tail[i - 1] && s[i + 1] == tail[i - 1 + 1];
        }
      }
    case Ref(k, rest) =>
      if k in defs && n > 0 {
        assert Valid(defs[k]);
        ValidAppend(defs[k], rest);
        SettledUnopened(defs, n - 1, Append(defs[k], rest));
      }
  }

  // ----- rounds against expansion -----

  lemma {:induction false} RoundsMonotone(defs: Defs, n: nat, m: nat, t: Text)
    requires n <= m && Rounds(defs, n, t) != Stuck
    ensures Rounds(defs, m, t) == Rounds(defs, n, t)
    decreases n, t
  {
    match t
    case End =>
    case Char(_, rest) => RoundsMonotone(defs, n, m, rest);
    case Ref(k, rest) =>
      if k in defs {
        RoundsMonotone(defs, n - 1, m - 1, Append(defs[k], rest));
      }
  }

  lemma StuckEarlier(defs: Defs, n: nat, m: nat, t: Text)
    requires n <= m && Rounds(defs, m, t) == Stuck
    ensures Rounds(defs, n, t) == Stuck
  {
    if Rounds(defs, n, t) != Stuck {
      RoundsMonotone(defs, n, m, t);
    }
  }

  /** Rounds that a finished expansion takes. */
  function Cost(defs: Defs, depth: nat, t: Text): nat
    decreases depth, t
  {
    match t
    case End => 0
    case Char(_, rest) => Cost(defs, depth, rest)
    case Ref(k, rest) =>
      (if k !in defs || depth == 0 then 0 else 1 + Cost(defs, depth - 1, defs[k])) + Cost(defs, depth, rest)
  }

  /** When a piece expands, the loop reaches its expansion; when a name is missing, so it is for the loop. */
  lemma {:induction false} RoundsReach(defs: Defs, depth: nat, a: Text, n: nat, b: Text)
    ensures var o, later := Expand(defs, depth, a), Rounds(defs, n + Cost(defs, depth, a), Append(a, b));
      (o.Done? ==> later == Then(o.text, Rounds(defs, n, b))) && (o.Missing? ==> later == o)
    decreases depth, a
  {
    match a
    case End =>
      assert Then("", Rounds(defs, n, b)) == Rounds(defs, n, b);
    case Char(c, rest) =>
      RoundsReach(defs, depth, rest, n, b);
      var o := Expand(defs, depth, rest);
      if o.Done? {
        ThenThen([c], o.text, Rounds(defs, n, b));
      }
    case Ref(k, rest) =>
      if k in defs && depth > 0 {
        var first, o, later := Expand(defs, depth - 1, defs[k]), Expand(defs, depth, rest), Cost(defs, depth, rest);
        RoundsReach(defs, depth - 1, defs[k], n + later, Append(rest, b));
        RoundsReach(defs, depth, rest, n, b);
        if first.Done? && o.Done? {
          ThenThen(first.text, o.text, Rounds(defs, n, b));
        }
      }
  }

  /** An expansion deeper than `depth` keeps the loop busy for that many rounds. */
  lemma {:induction false} DeepIsLong(defs: Defs, depth: nat, a: Text, b: Text)
    requires Expand(defs, depth, a) == Stuck
    ensures Rounds(defs, depth, Append(a, b)) == Stuck
    decreases depth, a
  {
    match a
    case Char(_, rest) => DeepIsLong(defs, depth, rest, b);
    case Ref(k, rest) =>
      if depth > 0 {
        var first, tail := Expand(defs, depth - 1, defs[k]), Append(rest, b);
        if first == Stuck {
          DeepIsLong(defs, depth - 1, defs[k], tail);
        } else {
          DeepIsLong(defs, depth, rest, b);
          RoundsReach(defs, depth - 1, defs[k], depth, tail);
          StuckEarlier(defs, depth, depth + Cost(defs, depth - 1, defs[k]) + 1, Ref(k, tail));
        }
      }
  }

  // ----- main results -----

  lemma {:induction false} AppendEnd(t: Text)
    ensures Append(t, End) == t
  {
    match t
    case End =>
    case Char(_, rest) => AppendEnd(rest);
    case Ref(_, rest) => AppendEnd(rest);
  }

  /** The loop on a printed value is the loop on its references. */
  lemma LoopOnPrinted(defs: Defs, n: nat, t: Text)
    requires ValidDefs(defs) && Valid(t)
    ensures Loop(Printed(defs), n, Print(t)) == Rounds(defs, n, t)
  {
    ValidIsWellFormed(t);
    forall k | k in defs ensures WellFormed(defs[k]) { ValidIsWellFormed(defs[k]); }
    SettledUnopened(defs, n, t);
    UnopenedIsClean(Settled(defs, n, t));
    assert "" + Settled(defs, n, t) == Settled(defs, n, t);
    LoopIsRounds(defs, n, "", t);
    assert "" + Print(t) == Print(t);
    var o := Rounds(defs, n, t);
    assert o.Done? ==> "" + o.text == o.text;
  }

  lemma {:induction false} DoneIsClean(vars: map<string, string>, n: nat, s: string)
    requires Loop(vars, n, s).Done?
    ensures Search(Loop(vars, n, s).text, 0).NoMatch?
    decreases n
  {
    var m := Search(s, 0);
    if m.Match? {
      DoneIsClean(vars, n - 1, Replaced(s, m, vars[Key(s, m)]));
    }
  }

  /** Whatever the loose characters are: the loop gives the full expansion exactly if that holds no reference itself. */
  lemma ExpansionExactly(defs: Defs, t: Text, depth: nat)
    requires WellFormedDefs(defs) && WellFormed(t) && Expand(defs, depth, t).Done?
    ensures (exists n :: Loop(Printed(defs), n, Print(t)) == Expand(defs, depth, t)) <==>
      Search(Expand(defs, depth, t).text, 0).NoMatch?
  {
    var x := Expand(defs, depth, t).text;
    if Search(x, 0).NoMatch? {
      var n := ReachedIfClean(defs, t, depth);
    } else if n :| Loop(Printed(defs), n, Print(t)) == Done(x) {
      DoneIsClean(Printed(defs), n, Print(t));
    }
  }

  lemma ReachedIfClean(defs: Defs, t: Text, depth: nat) returns (n: nat)
    requires WellFormedDefs(defs) && WellFormed(t) && Expand(defs, depth, t).Done?
    requires Search(Expand(defs, depth, t).text, 0).NoMatch?
    ensures Loop(Printed(defs), n, Print(t)) == Expand(defs, depth, t)
  {
    var x := Expand(defs, depth, t).text;
    n := Cost(defs, depth, t);
    RoundsReach(defs, depth, t, 0, End);
    AppendEnd(t);
    assert x + "" == x;
    SettledIsText(defs, n, t);
    CleanIsNoMatch(x);
    assert "" + x == x && "" + Print(t) == Print(t);
    LoopIsRounds(defs, n, "", t);
  }

  /** If full expansion of a value ends, so does the loop, with the same text or the same missing name. */
  lemma ExpansionIsReached(defs: Defs, t: Text, depth: nat) returns (n: nat)
    requires ValidDefs(defs) && Valid(t) && Expand(defs, depth, t) != Stuck
    ensures Loop(Printed(defs), n, Print(t)) == Expand(defs, depth, t)
  {
    n := Cost(defs, depth, t);
    LoopOnPrinted(defs, n, t);
    RoundsReach(defs, depth, t, 0, End);
    AppendEnd(t);
    var o := Expand(defs, depth, t);
    assert o.Done? ==> o.text + "" == o.text;
  }

  /** If the loop ends after `n` rounds, full expansion ends, at a depth of at most `n`, with the same outcome. */
  lemma LoopIsExpansion(defs: Defs, t: Text, n: nat)
    requires ValidDefs(defs) && Valid(t) && Loop(Printed(defs), n, Print(t)) != Stuck
    ensures Expand(defs, n, t) == Loop(Printed(defs), n, Print(t))
  {
    LoopOnPrinted(defs, n, t);
    AppendEnd(t);
    if Expand(defs, n, t) == Stuck {
      DeepIsLong(defs, n, t, End);
    }
    var m := ExpansionIsReached(defs, t, n);
    LoopOnPrinted(defs, m, t);
    if n <= m {
      RoundsMonotone(defs, n, m, t);
    } else {
      RoundsMonotone(defs, m, n, t);
    }
  }

  /** References go from higher to lower rank. */
  predicate Acyclic(defs: Defs, rank: map<string, nat>) {
    && defs.Keys <= rank.Keys
    && forall k :: k in defs ==> Below(defs, rank, defs[k], rank[k])
  }

  predicate Below(defs: Defs, rank: map<string, nat>, t: Text, bound: nat) {
    match t
    case End => true
    case Char(_, rest) => Below(defs, rank, rest, bound)
    case Ref(k, rest) => (k in defs ==> k in rank && rank[k] < bound) && Below(defs, rank, rest, bound)
  }

  lemma {:induction false} BelowMore(defs: Defs, rank: map<string, nat>, t: Text, a: nat, b: nat)
    requires Below(defs, rank, t, a) && a <= b
    ensures Below(defs, rank, t, b)
  {
    match t
    case End =>
    case Char(_, rest) => BelowMore(defs, rank, rest, a, b);
    case Ref(_, rest) => BelowMore(defs, rank, rest, a, b);
  }

  lemma {:induction false} AcyclicExpands(defs: Defs, rank: map<string, nat>, t: Text, depth: nat)
    requires Acyclic(defs, rank) && Below(defs, rank, t, depth)
    ensures Expand(defs, depth, t) != Stuck
    decreases depth, t
  {
    match t
    case End =>
    case Char(_, rest) => AcyclicExpands(defs, rank, rest, depth);
    case Ref(k, rest) =>
      AcyclicExpands(defs, rank, rest, depth);
      if k in defs {
        BelowMore(defs, rank, defs[k], rank[k], depth - 1);
        AcyclicExpands(defs, rank, defs[k], depth - 1);
      }
  }

  /** Without cycles the loop ends on every value, and its outcome is the full expansion. */
  lemma AcyclicResolves(defs: Defs, rank: map<string, nat>, t: Text, depth: nat) returns (n: nat)
    requires ValidDefs(defs) && Valid(t) && Acyclic(defs, rank) && Below(defs, rank, t, depth)
    ensures Loop(Printed(defs), n, Print(t)) == Expand(defs, depth, t) != Stuck
  {
    AcyclicExpands(defs, rank, t, depth);
    n := ExpansionIsReached(defs, t, depth);
  }

  // ----- exactly when the loop never ends -----

  lemma {:induction false} ExpandMonotone(defs: Defs, a: nat, b: nat, t: Text)
    requires a <= b && Expand(defs, a, t) != Stuck
    ensures Expand(defs, b, t) == Expand(defs, a, t)
    decreases a, t
  {
    match t
    case End =>
    case Char(_, rest) => ExpandMonotone(defs, a, b, rest);
    case Ref(k, rest) =>
      if k in defs {
        ExpandMonotone(defs, a - 1, b - 1, defs[k]);
        if Expand(defs, a - 1, defs[k]).Done? {
          ExpandMonotone(defs, a, b, rest);
        }
      }
  }

  /** The text comes to the reference `k`: every reference before it expands, at that depth. */
  predicate MeetsAt(defs: Defs, depth: nat, t: Text, k: string) {
    match t
    case End => false
    case Char(_, rest) => MeetsAt(defs, depth, rest, k)
    case Ref(j, rest) =>
      j == k || (j in defs && depth > 0 && Expand(defs, depth - 1, defs[j]).Done? && MeetsAt(defs, depth, rest, k))
  }

  ghost predicate Meets(defs: Defs, t: Text, k: string) {
    exists depth :: MeetsAt(defs, depth, t, k)
  }

  /** A chain of defined references, from a text through the values of the ones before. */
  ghost predicate Chain(defs: Defs, t: Text, p: seq<string>) {
    && |p| > 0 && (forall i :: 0 <= i < |p| ==> p[i] in defs)
    && Meets(defs, t, p[0])
    && forall i :: 0 < i < |p| ==> Leads(defs, p, i)
  }

  ghost predicate Leads(defs: Defs, p: seq<string>, i: nat)
    requires 0 < i < |p|
  {
    p[i - 1] in defs && Meets(defs, defs[p[i - 1]], p[i])
  }

  /** The text comes to a reference that comes to itself, before it comes to a missing name. */
  ghost predicate MeetsCycle(defs: Defs, t: Text) {
    exists p, i :: Chain(defs, t, p) && 0 <= i < |p| - 1 && p[i] == p[|p| - 1]
  }

  /** If a reference that the text meets is stuck at some depth, so is the text. */
  lemma {:induction false} StuckThrough(defs: Defs, d: nat, depth: nat, t: Text, k: string)
    requires MeetsAt(defs, d, t, k) && k in defs && (depth > 0 ==> Expand(defs, depth - 1, defs[k]) == Stuck)
    ensures Expand(defs, depth, t) == Stuck
    decreases t
  {
    match t
    case Char(_, rest) => StuckThrough(defs, d, depth, rest, k);
    case Ref(j, rest) =>
      if j != k && depth > 0 {
        var first := Expand(defs, depth - 1, defs[j]);
        if first != Stuck {
          if d <= depth {
            ExpandMonotone(defs, d - 1, depth - 1, defs[j]);
          } else {
            ExpandMonotone(defs, depth - 1, d - 1, defs[j]);
          }
          StuckThrough(defs, d, depth, rest, k);
        }
      }
  }

  lemma StuckByMeeting(defs: Defs, depth: nat, t: Text, k: string)
    requires Meets(defs, t, k) && k in defs && (depth > 0 ==> Expand(defs, depth - 1, defs[k]) == Stuck)
    ensures Expand(defs, depth, t) == Stuck
  {
    var d :| MeetsAt(defs, d, t, k);
    StuckThrough(defs, d, depth, t, k);
  }

  /** On a chain that ends where it was before, no value ever expands. */
  lemma {:induction false} CycleIsStuck(defs: Defs, t: Text, p: seq<string>, i: nat, depth: nat, j: nat)
    requires Chain(defs, t, p) && i < |p| - 1 && p[i] == p[|p| - 1] && i <= j < |p|
    ensures Expand(defs, depth, defs[p[j]]) == Stuck
    decreases depth
  {
    var at := if j == |p| - 1 then i else j;
    assert defs[p[at]] == defs[p[j]];
    assert Leads(defs, p, at + 1);
    if depth > 0 {
      CycleIsStuck(defs, t, p, i, depth - 1, at + 1);
    }
    StuckByMeeting(defs, depth, defs[p[at]], p[at + 1]);
  }

  lemma {:induction false} BeforeCycleIsStuck(defs: Defs, t: Text, p: seq<string>, i: nat, depth: nat, j: nat)
    requires Chain(defs, t, p) && i < |p| - 1 && p[i] == p[|p| - 1] && j <= i
    ensures Expand(defs, depth, defs[p[j]]) == Stuck
    decreases depth
  {
    if j == i {
      CycleIsStuck(defs, t, p, i, depth, i);
    } else {
      assert Leads(defs, p, j + 1);
      if depth > 0 {
        BeforeCycleIsStuck(defs, t, p, i, depth - 1, j + 1);
      }
      StuckByMeeting(defs, depth, defs[p[j]], p[j + 1]);
    }
  }

  lemma CycleNeverExpands(defs: Defs, t: Text, depth: nat)
    requires MeetsCycle(defs, t)
    ensures Expand(defs, depth, t) == Stuck
  {
    var p, i :| Chain(defs, t, p) && 0 <= i < |p| - 1 && p[i] == p[|p| - 1];
    if depth > 0 {
      BeforeCycleIsStuck(defs, t, p, i, depth - 1, 0);
    }
    StuckByMeeting(defs, depth, t, p[0]);
  }

  /** A text that is stuck meets a reference whose value is stuck one level less deep. */
  lemma {:induction false} StuckAt(defs: Defs, depth: nat, t: Text) returns (k: string)
    requires Expand(defs, depth, t) == Stuck
    ensures k in defs && MeetsAt(defs, depth, t, k) && (depth > 0 ==> Expand(defs, depth - 1, defs[k]) == Stuck)
    decreases t
  {
    match t
    case Char(_, rest) => k := StuckAt(defs, depth, rest);
    case Ref(j, rest) =>
      k := j;
      if depth > 0 && Expand(defs, depth - 1, defs[j]) != Stuck {
        k := StuckAt(defs, depth, rest);
      }
  }

  lemma ChainFrom(defs: Defs, t: Text, k: string, p: seq<string>)
    requires k in defs && Meets(defs, t, k) && Chain(defs, defs[k], p)
    ensures Chain(defs, t, [k] + p)
  {
    var q := [k] + p;
    forall i | 0 < i < |q|
      ensures Leads(defs, q, i)
    {
      if i > 1 {
        assert Leads(defs, p, i - 1);
      }
    }
  }

  /** Stuck at a depth: a chain of references one longer. */
  lemma {:induction false} StuckChain(defs: Defs, depth: nat, t: Text) returns (p: seq<string>)
    requires Expand(defs, depth, t) == Stuck
    ensures Chain(defs, t, p) && |p| == depth + 1
    decreases depth
  {
    var k := StuckAt(defs, depth, t);
    if depth == 0 {
      p := [k];
    } else {
      var rest := StuckChain(defs, depth - 1, defs[k]);
      ChainFrom(defs, t, k, rest);
      p := [k] + rest;
    }
  }

  lemma {:induction false} Repeats(p: seq<string>, keys: set<string>) returns (i: nat, j: nat)
    requires |p| > |keys| && forall x :: x in p ==> x in keys
    ensures i < j < |p| && p[i] == p[j]
    decreases |p|
  {
    var last := |p| - 1;
    if x :| 0 <= x < last && p[x] == p[last] {
      return x, last;
    }
    i, j := Repeats(p[..last], keys - {p[last]});
  }

  lemma ChainPrefix(defs: Defs, t: Text, p: seq<string>, n: nat)
    requires Chain(defs, t, p) && 0 < n <= |p|
    ensures Chain(defs, t, p[..n])
  {
    forall i | 0 < i < n
      ensures Leads(defs, p[..n], i)
    {
      assert Leads(defs, p, i);
    }
  }

  lemma StuckMeetsCycle(defs: Defs, t: Text)
    requires Expand(defs, |defs|, t) == Stuck
    ensures MeetsCycle(defs, t)
  {
    var p := StuckChain(defs, |defs|, t);
    assert |defs.Keys| == |defs|;
    var i, j := Repeats(p, defs.Keys);
    ChainPrefix(defs, t, p, j + 1);
    var q := p[..j + 1];
    assert q[i] == q[|q| - 1];
  }

  /** The loop goes on for ever exactly if the value comes to a cyclic reference before it comes to a missing name. */
  lemma LoopNeverEndsExactly(defs: Defs, t: Text)
    requires ValidDefs(defs) && Valid(t)
    ensures (forall n :: Loop(Printed(defs), n, Print(t)) == Stuck) <==> MeetsCycle(defs, t)
  {
    if MeetsCycle(defs, t) {
      forall n | true
        ensures Loop(Printed(defs), n, Print(t)) == Stuck
      {
        CycleNeverExpands(defs, t, n);
        if Loop(Printed(defs), n, Print(t)) != Stuck {
          LoopIsExpansion(defs, t, n);
        }
      }
    } else {
      if Expand(defs, |defs|, t) == Stuck {
        StuckMeetsCycle(defs, t);
      }
      var n := ExpansionIsReached(defs, t, |defs|);
    }
  }

  /**
   A loose dollar sign before a reference: replacing `${a}` completes a new reference, so the loop resolves more than
   was written and never gives the expansion.
   */
  lemma LooseDollarMakesReference()
    ensures var defs := map["a" := Char('{', Char('b', Char('}', End))), "b" := Char('x', End)];
      var t := Char('$', Ref("a", End));
      && Print(t) == "$${a}" && Expand(defs, 1, t) == Done("${b}")
      && (forall n :: Loop(Printed(defs), n, Print(t)) != Expand(defs, 1, t))
      && Loop(Printed(defs), 2, Print(t)) == Done("x")
  {
    var defs := map["a" := Char('{', Char('b', Char('}', End))), "b" := Char('x', End)];
    var t := Char('$', Ref("a", End));
    LooseText(defs, t);
    assert "" + (RefText("b") + "") == "${b}";
    SearchFinds("", "b", "");
    ExpansionExactly(defs, t, 1);
    LooseLoop(Printed(defs));
  }

  lemma LooseText(defs: Defs, t: Text)
    requires t == Char('$', Ref("a", End)) && "a" in defs && defs["a"] == Char('{', Char('b', Char('}', End)))
    requires "b" in defs && defs["b"] == Char('x', End)
    ensures Print(t) == "$${a}" && Expand(defs, 1, t) == Done("${b}") && Printed(defs)["a"] == "{b}" && Printed(defs)["b"] == "x"
  {
    assert Print(Ref("a", End)) == RefText("a") + "" == "${a}";
    assert Print(Char('}', End)) == "}" && Print(Char('b', Char('}', End))) == "b}";
    assert Expand(defs, 0, Char('}', End)) == Done("}");
    assert Expand(defs, 0, Char('b', Char('}', End))) == Done("b}");
    assert Expand(defs, 0, defs["a"]) == Done("{b}");
    assert Expand(defs, 1, Ref("a", End)) == Then("{b}", Done("")) == Done("{b}");
    assert Expand(defs, 1, t) == Then("$", Done("{b}"));
    assert Print(Char('x', End)) == "x";
  }

  lemma LooseLoop(vars: map<string, string>)
    requires "a" in vars && vars["a"] == "{b}" && "b" in vars && vars["b"] == "x"
    ensures Loop(vars, 2, "$${a}") == Done("x")
  {
    assert "$" + (RefText("a") + "") == "$${a}";
    LoopAt(vars, 2, "$", "a", "");
    assert "$" + "{b}" + "" == "${b}";
    assert "" + (RefText("b") + "") == "${b}";
    LoopAt(vars, 1, "", "b", "");
    assert "" + "x" + "" == "x";
    CleanIsNoMatch("x");
  }

  // ----- which text is a reference -----

  predicate Letter(c: char) { c in UPPER || c in LOWER }

  predicate NameLetter(c: char) { Letter(c) || c in DIGITS || c == '-' }

  /** A name: a letter, then letters, digits and hyphens. */
  predicate Name(k: string) {
    k != "" && Letter(k[0]) && forall i :: 0 <= i < |k| ==> NameLetter(k[i])
  }

  /** The text from `b` to `e` is a name in braces behind a dollar sign. */
  predicate Reference(s: string, b: nat, e: nat) {
    b + 4 <= e <= |s| && s[b] == '$' && s[b + 1] == '{' && s[e - 1] == '}' && Name(s[b + 2..e - 1])
  }

  lemma NameChars(c: char)
    ensures IsAlpha(c) <==> Letter(c)
    ensures IsNameChar(c) <==> NameLetter(c)
  {
    UpperChars(c);
    LowerChars(c);
    DigitChars(c);
  }

  lemma KeyIsName(k: string)
    ensures Name(k) <==> ValidKey(k)
  {
    forall c
      ensures (IsAlpha(c) <==> Letter(c)) && (IsNameChar(c) <==> NameLetter(c))
    {
      NameChars(c);
    }
  }

  lemma RefAtBraces(s: string, b: nat, e: nat)
    ensures RefAt(s, b) == Some(e) <==>
      b + 4 <= e <= |s| && s[b] == '$' && s[b + 1] == '{' && s[e - 1] == '}' && ValidKey(s[b + 2..e - 1])
  {
    if b + 4 <= e <= |s| {
      var k := s[b + 2..e - 1];
      assert forall j :: 0 <= j < |k| ==> k[j] == s[b + 2 + j];
      if s[e - 1] == '}' && ValidKey(k) {
        forall j | b + 2 <= j < e - 1
          ensures IsNameChar(s[j])
        {
          assert s[j] == k[j - b - 2];
        }
        assert NameEnd(s, b + 3) == e - 1;
      }
    }
  }

  lemma {:induction false} SearchLeftmost(s: string, i: nat, b: nat, e: nat)
    requires i <= |s|
    ensures var m := Search(s, i);
      && (m.Match? ==> RefAt(s, m.begin) == Some(m.end))
      && (i <= b && RefAt(s, b) == Some(e) ==> m.Match? && (m.begin < b || (m.begin == b && m.end == e)))
    decreases |s| - i
  {
    if i < |s| {
      SearchLeftmost(s, i + 1, b, e);
    }
  }

  /** The search finds a reference, no other one starts further left, and it finds none only if there is none. */
  lemma SearchExactly(s: string, b: nat, e: nat)
    ensures var m := Search(s, 0);
      && (m.Match? ==> Reference(s, m.begin, m.end))
      && (Reference(s, b, e) ==> m.Match? && (m.begin < b || (m.begin == b && m.end == e)))
  {
    var m := Search(s, 0);
    SearchLeftmost(s, 0, b, e);
    RefAtBraces(s, b, e);
    if b + 4 <= e <= |s| {
      KeyIsName(s[b + 2..e - 1]);
    }
    if m.Match? {
      RefAtBraces(s, m.begin, m.end);
      KeyIsName(s[m.begin + 2..m.end - 1]);
    }
  }
}
