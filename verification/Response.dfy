/** The response side of a request: settings until the headers go out, then body bytes only. */
module Response {
  import opened Common
  import opened Bytes
  import Multipart
  import MultipartForm

  type bytes = seq<byte>
  type Entry = (bytes, bytes)

  function Ascii(s: string): bytes { seq(|s|, i requires 0 <= i < |s| => s[i] as int % 256) }

  // ----- ordered maps -----

  function Lex(a: seq<int>, b: seq<int>): bool {
    if b == [] then false
    else if a == [] then true
    else a[0] < b[0] || (a[0] == b[0] && Lex(a[1..], b[1..]))
  }

  /** Keys are compared by an image of theirs. */
  type Norm = bytes -> seq<int>

  /** Header names, without regard to case; char is signed. */
  function NameOrder(k: bytes): seq<int> {
    seq(|k|, i requires 0 <= i < |k| => if k[i] >= 128 then k[i] - 256 else Multipart.Lower(k[i]))
  }

  function CookieOrder(k: bytes): seq<int> { seq(|k|, i requires 0 <= i < |k| => k[i]) }

  /** map[k] = v: an equivalent key keeps its spelling. */
  function SetEntry(norm: Norm, q: seq<Entry>, k: bytes, v: bytes): seq<Entry> {
    if q == [] then [(k, v)]
    else if Lex(norm(k), norm(q[0].0)) then [(k, v)] + q
    else if Lex(norm(q[0].0), norm(k)) then [q[0]] + SetEntry(norm, q[1..], k, v)
    else [(q[0].0, v)] + q[1..]
  }

  ghost predicate Sorted(norm: Norm, q: seq<Entry>) {
    forall i, j :: 0 <= i < j < |q| ==> Lex(norm(q[i].0), norm(q[j].0))
  }

  /** The map holds `v` for `k`, once. */
  ghost predicate HoldsOnce(norm: Norm, q: seq<Entry>, k: bytes, v: bytes) {
    exists i :: 0 <= i < |q| && q[i].1 == v && OnlyAt(norm, q, k, i)
  }

  ghost predicate OnlyAt(norm: Norm, q: seq<Entry>, k: bytes, i: nat) {
    forall j :: 0 <= j < |q| ==> (norm(q[j].0) == norm(k) <==> j == i)
  }

  lemma {:induction false} LexTotal(a: seq<int>, b: seq<int>)
    ensures Lex(a, b) || Lex(b, a) || a == b
    ensures !(Lex(a, b) && Lex(b, a)) && !Lex(a, a)
  {
    if a != [] && b != [] {
      LexTotal(a[1..], b[1..]);
      assert a == [a[0]] + a[1..] && b == [b[0]] + b[1..];
    } else if a != [] {
      LexTotal(a[1..], a[1..]);
    }
  }

  /** The order of a dictionary: the first difference decides, and a beginning comes before what goes on. */
  lemma {:induction false} LexExactly(a: seq<int>, b: seq<int>)
    ensures Lex(a, b) <==> exists k :: 0 <= k < |b| && DifferAt(a, b, k)
  {
    if a != [] && b != [] {
      LexExactly(a[1..], b[1..]);
      if k :| 0 <= k < |b[1..]| && DifferAt(a[1..], b[1..], k) {
        assert a[0] == b[0] ==> DifferAt(a, b, k + 1) by { DifferLater(a, b, k); }
      }
      if k :| 0 < k < |b| && DifferAt(a, b, k) {
        assert DifferAt(a[1..], b[1..], k - 1) by { DifferLater(a, b, k - 1); }
      }
      assert a[0] < b[0] <==> DifferAt(a, b, 0);
    } else if b != [] {
      assert DifferAt(a, b, 0);
    }
  }

  ghost predicate DifferAt(a: seq<int>, b: seq<int>, k: int) {
    0 <= k <= |a| && k < |b| && a[..k] == b[..k] && (k == |a| || a[k] < b[k])
  }

  lemma DifferLater(a: seq<int>, b: seq<int>, k: nat)
    requires a != [] && b != []
    ensures DifferAt(a, b, k + 1) <==> a[0] == b[0] && DifferAt(a[1..], b[1..], k)
  {
    if k < |a| && k + 1 < |b| {
      assert a[..k + 1] == [a[0]] + a[1..][..k] && b[..k + 1] == [b[0]] + b[1..][..k];
    }
  }

  lemma {:induction false} LexTrans(a: seq<int>, b: seq<int>, c: seq<int>)
    requires Lex(a, b) && Lex(b, c)
    ensures Lex(a, c)
  {
    if a != [] {
      if a[0] == b[0] == c[0] {
        LexTrans(a[1..], b[1..], c[1..]);
      }
    }
  }

  lemma SortedCons(norm: Norm, e: Entry, q: seq<Entry>)
    requires Sorted(norm, q) && (q != [] ==> Lex(norm(e.0), norm(q[0].0)))
    ensures Sorted(norm, [e] + q)
  {
    var r := [e] + q;
    forall i, j | 0 <= i < j < |r|
      ensures Lex(norm(r[i].0), norm(r[j].0))
    {
      if i > 0 {
        assert Lex(norm(q[i - 1].0), norm(q[j - 1].0));
      } else if j > 1 {
        LexTrans(norm(e.0), norm(q[0].0), norm(q[j - 1].0));
      }
    }
  }

  lemma SortedTail(norm: Norm, q: seq<Entry>)
    requires q != [] && Sorted(norm, q)
    ensures Sorted(norm, q[1..])
    ensures |q| > 1 ==> Lex(norm(q[0].0), norm(q[1].0))
  {
    var r := q[1..];
    forall i, j | 0 <= i < j < |r|
      ensures Lex(norm(r[i].0), norm(r[j].0))
    {
      assert Lex(norm(q[i + 1].0), norm(q[j + 1].0));
    }
  }

  /** Setting keeps the order, so the keys stay distinct. */
  lemma {:induction false} SetKeepsSorted(norm: Norm, q: seq<Entry>, k: bytes, v: bytes)
    requires Sorted(norm, q)
    ensures Sorted(norm, SetEntry(norm, q, k, v))
    ensures var r := SetEntry(norm, q, k, v); norm(r[0].0) == norm(k) || (q != [] && r[0].0 == q[0].0)
  {
    if q != [] {
      SortedTail(norm, q);
      LexTotal(norm(k), norm(q[0].0));
      if Lex(norm(k), norm(q[0].0)) {
        SortedCons(norm, (k, v), q);
      } else if Lex(norm(q[0].0), norm(k)) {
        SetKeepsSorted(norm, q[1..], k, v);
        SortedCons(norm, q[0], SetEntry(norm, q[1..], k, v));
      } else {
        SortedCons(norm, (q[0].0, v), q[1..]);
      }
    }
  }

  lemma {:induction false} SetPlaces(norm: Norm, q: seq<Entry>, k: bytes, v: bytes) returns (i: nat)
    ensures var r := SetEntry(norm, q, k, v); i < |r| && r[i].1 == v && norm(r[i].0) == norm(k)
  {
    i := 0;
    if q != [] {
      LexTotal(norm(k), norm(q[0].0));
      if Lex(norm(q[0].0), norm(k)) {
        var n := SetPlaces(norm, q[1..], k, v);
        i := n + 1;
      }
    }
  }

  /** After setting, the map holds the value for the key and no second entry for it. */
  lemma SetHoldsOnce(norm: Norm, q: seq<Entry>, k: bytes, v: bytes)
    requires Sorted(norm, q)
    ensures HoldsOnce(norm, SetEntry(norm, q, k, v), k, v)
  {
    SetKeepsSorted(norm, q, k, v);
    var r := SetEntry(norm, q, k, v);
    var i := SetPlaces(norm, q, k, v);
    forall j | 0 <= j < |r|
      ensures norm(r[j].0) == norm(k) <==> j == i
    {
      LexTotal(norm(k), norm(k));
      if j < i {
        assert Lex(norm(r[j].0), norm(r[i].0));
      } else if i < j {
        assert Lex(norm(r[i].0), norm(r[j].0));
      }
    }
    assert OnlyAt(norm, r, k, i);
  }

  // ----- texts -----

  function Decimal(n: nat): bytes {
    if n < 10 then [48 + n] else Decimal(n / 10) + [48 + n % 10]
  }

  function StatusText(n: nat): string {
    if n < 300 then SuccessText(n) else if n < 400 then MovedText(n) else if n < 500 then RefusedText(n) else FailedText(n)
  }

  function SuccessText(n: nat): string {
    match n
    case 200 => "OK"
    case 201 => "Created"
    case 202 => "Accepted"
    case 203 => "Partial Information"
    case 204 => "No Response"
    case _ => UnknownText()
  }

  function MovedText(n: nat): string {
    match n
    case 301 => "Moved"
    case 302 => "Moved Temporarily"
    case 303 => "Method"
    case 304 => "Not Modified"
    case _ => UnknownText()
  }

  function RefusedText(n: nat): string {
    if n > 402 then DeniedText(n)
    else
      match n
      case 400 => "Bad request"
      case 401 => "Unauthorized"
      case 402 => "PaymentRequired"
      case _ => UnknownText()
  }

  function DeniedText(n: nat): string {
    match n
    case 403 => "Forbidden"
    case 404 => "Not found"
    case 405 => "Method not allowed"
    case _ => UnknownText()
  }

  function FailedText(n: nat): string {
    match n
    case 500 => "Internal Error"
    case 501 => "Not implemented"
    case 502 => "Bad Gateway"
    case 503 => "Service Unavailable"
    case _ => UnknownText()
  }

  function UnknownText(): string { "Unknown status" }

  function StatusValue(n: nat): bytes { Decimal(n) + [32] + Ascii(StatusText(n)) }

  function STATUS(): bytes { Ascii("Status") }

  function HeaderLine(e: Entry): bytes { e.0 + ([58, 32] + e.1) }

  function CookieLine(e: Entry): bytes { Ascii("Set-Cookie: ") + e.1 }

  function HeaderLines(q: seq<Entry>): seq<bytes> { seq(|q|, i requires 0 <= i < |q| => HeaderLine(q[i])) }

  function CookieLines(q: seq<Entry>): seq<bytes> { seq(|q|, i requires 0 <= i < |q| => CookieLine(q[i])) }

  /** Each line with its line end. */
  function Terminated(ls: seq<bytes>): bytes {
    if ls == [] then [] else ls[0] + CRLF + Terminated(ls[1..])
  }

  /** The header block: headers, cookies, a blank line. */
  function Block(headers: seq<Entry>, cookies: seq<Entry>): bytes {
    Terminated(HeaderLines(headers)) + Terminated(CookieLines(cookies)) + CRLF
  }

  function ErrorPage(n: nat): bytes {
    Ascii("<html><body><h1>") + StatusValue(n) + Ascii("</h1></body></html>")
  }

  // ----- calls and their meaning -----

  /** A response under construction; cookies are listed by name with their text. */
  datatype State = State(
    attached: bool,
    head: bool,
    sent: bool,
    status: nat,
    headers: seq<Entry>,
    cookies: seq<Entry>,
    output: bytes)

  datatype Call =
    | SetStatus(status: nat)
    | SetHeader(name: bytes, value: bytes)
    | SetCookie(cookie: bytes, text: bytes)
    | SendHeaders
    | Write(data: bytes)
    | SendError(error: nat)

  function Emit(st: State, data: bytes): State {
    if st.attached then st.(output := st.output + data) else st
  }

  function WithStatus(st: State): seq<Entry> { SetEntry(NameOrder, st.headers, STATUS(), StatusValue(st.status)) }

  function Send(st: State): State {
    if st.sent then st
    else Emit(st.(headers := WithStatus(st), sent := true), Block(WithStatus(st), st.cookies))
  }

  function HtmlType(): Entry { (Ascii("Content-type"), Ascii("text/html")) }

  function Cleared(st: State, n: nat): State {
    st.(headers := [HtmlType()], cookies := [], status := n)
  }

  /** The state after a call, and whether the call succeeded. */
  function Step(st: State, c: Call): (State, bool) {
    match c
    case SetStatus(n) => if st.sent then (st, false) else (st.(status := n), true)
    case SetHeader(k, v) =>
      if st.sent then (st, false) else (st.(headers := SetEntry(NameOrder, st.headers, k, v)), true)
    case SetCookie(k, v) =>
      if st.sent then (st, false) else (st.(cookies := SetEntry(CookieOrder, st.cookies, k, v)), true)
    case SendHeaders => (Send(st), true)
    case Write(data) => (if st.head then Send(st) else Emit(Send(st), data), true)
    case SendError(n) => if st.sent then (st, false) else (Emit(Send(Cleared(st, n)), ErrorPage(n)), true)
  }

  function Run(st: State, cs: seq<Call>): State
    decreases |cs|
  {
    if cs == [] then st else Run(Step(st, cs[0]).0, cs[1..])
  }

  function Fresh(attached: bool, head: bool): State { State(attached, head, false, 200, [], [], []) }

  // ----- the object -----

  class Request {
    const attached: bool
    const head: bool
    var sent: bool
    var status: nat
    var headers: seq<Entry>
    var cookies: seq<Entry>
    var output: bytes

    ghost function AsState(): State
      reads this
    {
      State(attached, head, sent, status, headers, cookies, output)
    }

    constructor (attached: bool, head: bool)
      ensures AsState() == Fresh(attached, head)
    {
      this.attached, this.head := attached, head;
      sent, status, headers, cookies, output := false, 200, [], [], [];
    }

    method SetStatus(n: nat) returns (ok: bool)
      modifies this
      ensures (AsState(), ok) == Step(old(AsState()), Call.SetStatus(n))
    {
      ok := !sent;
      if !sent {
        status := n;
      }
    }

    method SetHeader(name: bytes, value: bytes) returns (ok: bool)
      modifies this
      ensures (AsState(), ok) == Step(old(AsState()), Call.SetHeader(name, value))
    {
      ok := !sent;
      if !sent {
        headers := SetEntry(NameOrder, headers, name, value);
      }
    }

    method SetCookie(cookie: bytes, text: bytes) returns (ok: bool)
      modifies this
      ensures (AsState(), ok) == Step(old(AsState()), Call.SetCookie(cookie, text))
    {
      ok := !sent;
      if !sent {
        cookies := SetEntry(CookieOrder, cookies, cookie, text);
      }
    }

    method SendHeaders()
      modifies this
      ensures (AsState(), true) == Step(old(AsState()), Call.SendHeaders)
    {
      if !sent {
        headers := SetEntry(NameOrder, headers, STATUS(), StatusValue(status));
        if attached {
          WriteBlock();
        }
        sent := true;
      }
    }

    method WriteBlock()
      modifies this`output
      ensures output == old(output) + Block(headers, cookies)
    {
      ghost var before, hs, cs := output, HeaderLines(headers), CookieLines(cookies);
      assert hs[..0] == [] && before + Terminated([]) == before;
      for i := 0 to |headers|
        invariant output == before + Terminated(hs[..i])
      {
        var e := headers[i];
        LineEnds(before, hs, i);
        LineIsWritten(output, e.0, [58, 32], e.1);
        output := output + e.0;
        output := output + [58, 32];
        output := output + e.1;
        output := output + CRLF;
      }
      assert hs[..|headers|] == hs;
      before := output;
      assert cs[..0] == [] && before + Terminated([]) == before;
      for i := 0 to |cookies|
        invariant output == before + Terminated(cs[..i])
      {
        LineEnds(before, cs, i);
        LineIsWritten(output, Ascii("Set-Cookie: "), [], cookies[i].1);
        output := output + Ascii("Set-Cookie: ");
        output := output + cookies[i].1;
        output := output + CRLF;
      }
      assert cs[..|cookies|] == cs;
      BlockChain(old(output), Terminated(hs), Terminated(cs));
      output := output + CRLF;
    }

    method Write(data: bytes)
      modifies this
      ensures (AsState(), true) == Step(old(AsState()), Call.Write(data))
    {
      SendHeaders();
      if attached && !head {
        output := output + data;
      }
    }

    method WriteErrorPage(n: nat)
      modifies this`output
      ensures output == old(output) + ErrorPage(n)
    {
      var opening, text, closing := Ascii("<html><body><h1>"), Ascii(StatusText(n)), Ascii("</h1></body></html>");
      PageChain(output, opening, Decimal(n), text, closing);
      output := output + opening;
      output := output + Decimal(n);
      output := output + [32];
      output := output + text;
      output := output + closing;
    }

    method SendError(n: nat) returns (ok: bool)
      modifies this
      ensures (AsState(), ok) == Step(old(AsState()), Call.SendError(n))
    {
      if sent {
        return false;
      }
      cookies, headers := [], [];
      status := n;
      headers := [HtmlType()];
      assert AsState() == Cleared(old(AsState()), n);
      SendHeaders();
      if attached {
        WriteErrorPage(n);
      }
      ok := true;
    }
  }

  lemma LineEnds(before: bytes, ls: seq<bytes>, i: nat)
    requires i < |ls|
    ensures before + Terminated(ls[..i + 1]) == before + Terminated(ls[..i]) + (ls[i] + CRLF)
  {
    assert ls[..i + 1] == ls[..i] + [ls[i]];
    TerminatedAppend(ls[..i], ls[i]);
    Assoc(before, Terminated(ls[..i]), ls[i] + CRLF);
  }

  lemma {:induction false} TerminatedAppend(ls: seq<bytes>, l: bytes)
    ensures Terminated(ls + [l]) == Terminated(ls) + (l + CRLF)
  {
    if ls == [] {
      var one: seq<bytes> := [l];
      assert ls + [l] == one && one[1..] == [];
      assert Terminated(one) == l + CRLF + [];
    } else {
      TerminatedAppend(ls[1..], l);
      assert (ls + [l])[1..] == ls[1..] + [l];
      Assoc(ls[0] + CRLF, Terminated(ls[1..]), l + CRLF);
    }
  }

  lemma LineIsWritten(out: bytes, a: bytes, b: bytes, c: bytes)
    ensures out + a + b + c + CRLF == out + ((a + (b + c)) + CRLF)
    ensures b == [] ==> out + a + c + CRLF == out + ((a + c) + CRLF)
  {
  }

  lemma BlockChain(out: bytes, h: bytes, c: bytes)
    ensures out + h + c + CRLF == out + (h + c + CRLF)
  {
  }

  lemma PageChain(out: bytes, a: bytes, n: bytes, t: bytes, z: bytes)
    ensures out + a + n + [32] + t + z == out + (a + (n + [32] + t) + z)
  {
  }

  // ----- whole runs -----

  predicate Sends(c: Call) { c.SendHeaders? || c.Write? || c.SendError? }

  /** How many calls come before the first that sends. */
  function Settings(cs: seq<Call>): (i: nat)
    ensures i <= |cs| && (i < |cs| ==> Sends(cs[i])) && forall j :: 0 <= j < i ==> !Sends(cs[j])
  {
    if cs == [] || Sends(cs[0]) then 0 else Settings(cs[1..]) + 1
  }

  function WriteBody(c: Call, head: bool): bytes { if c.Write? && !head then c.data else [] }

  /** The bytes of the writes, none for HEAD. */
  function Bodies(cs: seq<Call>, head: bool): bytes {
    if cs == [] then [] else WriteBody(cs[0], head) + Bodies(cs[1..], head)
  }

  /** The settings that the first sending call finds: an error discards the headers and cookies set before. */
  function AtSend(st: State, c: Call): State { if c.SendError? then Cleared(st, c.error) else st }

  function FirstBody(c: Call, head: bool): bytes { if c.SendError? then ErrorPage(c.error) else WriteBody(c, head) }

  /** Once the headers are out, every setter fails, nothing but the output changes, and that only by writes. */
  lemma {:induction false} SentIsFinal(st: State, cs: seq<Call>)
    requires st.sent && st.attached
    ensures Run(st, cs) == st.(output := st.output + Bodies(cs, st.head))
    ensures forall i :: 0 <= i < |cs| && !cs[i].Write? && !cs[i].SendHeaders? ==> Step(Run(st, cs[..i]), cs[i]) == (Run(st, cs[..i]), false)
    decreases |cs|
  {
    if cs == [] {
      assert st.output + [] == st.output;
    } else {
      var next := Step(st, cs[0]).0;
      AfterSend(st, cs[0]);
      SentIsFinal(next, cs[1..]);
      Assoc(st.output, WriteBody(cs[0], st.head), Bodies(cs[1..], st.head));
      forall i | 0 <= i < |cs| && !cs[i].Write? && !cs[i].SendHeaders?
        ensures Step(Run(st, cs[..i]), cs[i]) == (Run(st, cs[..i]), false)
      {
        SentPrefix(st, cs[..i]);
      }
    }
  }

  lemma {:induction false} SentPrefix(st: State, cs: seq<Call>)
    requires st.sent
    ensures Run(st, cs).sent
    decreases |cs|
  {
    if cs != [] {
      SentPrefix(Step(st, cs[0]).0, cs[1..]);
    }
  }

  lemma AfterSend(st: State, c: Call)
    requires st.sent && st.attached
    ensures Step(st, c).0 == st.(output := st.output + WriteBody(c, st.head))
  {
    assert st.output + [] == st.output;
  }

  ghost predicate Open(st: State) {
    !st.sent && st.attached && st.output == [] && Sorted(NameOrder, st.headers) && Sorted(CookieOrder, st.cookies)
  }

  lemma SetterKeepsOpen(st: State, c: Call)
    requires Open(st) && !Sends(c)
    ensures Open(Step(st, c).0) && Step(st, c).0.head == st.head && Step(st, c).1
  {
    match c {
      case SetStatus(_) =>
      case SetHeader(k, v) => SetKeepsSorted(NameOrder, st.headers, k, v);
      case SetCookie(k, v) => SetKeepsSorted(CookieOrder, st.cookies, k, v);
    }
  }

  lemma {:induction false} SettersKeepOpen(st: State, cs: seq<Call>)
    requires Open(st) && forall j :: 0 <= j < |cs| ==> !Sends(cs[j])
    ensures Open(Run(st, cs)) && Run(st, cs).head == st.head
    decreases |cs|
  {
    if cs != [] {
      SetterKeepsOpen(st, cs[0]);
      SettersKeepOpen(Step(st, cs[0]).0, cs[1..]);
    }
  }

  lemma {:induction false} RunAppend(st: State, a: seq<Call>, b: seq<Call>)
    ensures Run(st, a + b) == Run(Run(st, a), b)
    decreases |a|
  {
    if a == [] {
      assert a + b == b;
    } else {
      RunAppend(Step(st, a[0]).0, a[1..], b);
      assert (a + b)[1..] == a[1..] + b;
    }
  }

  /** What was sent with the settings `at`: their header block and the body. */
  function Answered(at: State, body: bytes): State {
    at.(sent := true, headers := WithStatus(at), output := Block(WithStatus(at), at.cookies) + body)
  }

  /** The first sending call writes the block of the settings it finds, and its own body. */
  lemma FirstSend(st: State, c: Call)
    requires Open(st) && Sends(c)
    ensures Step(st, c) == (Answered(AtSend(st, c), FirstBody(c, st.head)), true)
  {
    var at := AtSend(st, c);
    SendOpen(at);
    assert Block(WithStatus(at), at.cookies) + [] == Block(WithStatus(at), at.cookies);
  }

  lemma SendOpen(at: State)
    requires !at.sent && at.attached && at.output == []
    ensures Send(at) == Answered(at, [])
  {
    NothingAround(Block(WithStatus(at), at.cookies));
  }

  lemma NothingAround(block: bytes)
    ensures [] + block == block == block + []
  {
  }

  lemma SendAndGoOn(st: State, c: Call, rest: seq<Call>)
    requires Open(st) && Sends(c)
    ensures Run(st, [c] + rest) == Answered(AtSend(st, c), FirstBody(c, st.head) + Bodies(rest, st.head))
  {
    var at, first := AtSend(st, c), FirstBody(c, st.head);
    FirstSend(st, c);
    assert ([c] + rest)[1..] == rest;
    SentIsFinal(Answered(at, first), rest);
    Assoc(Block(WithStatus(at), at.cookies), first, Bodies(rest, st.head));
  }

  /** The headers sent with the settings `at` hold one Status entry, with their status. */
  ghost predicate StatusOnce(at: State) {
    HoldsOnce(NameOrder, WithStatus(at), STATUS(), StatusValue(at.status))
  }

  lemma OneStatus(st: State, c: Call)
    requires Open(st) && Sends(c)
    ensures StatusOnce(AtSend(st, c))
  {
    var at := AtSend(st, c);
    SetHoldsOnce(NameOrder, at.headers, STATUS(), StatusValue(at.status));
  }

  /** `end` is what a run leaves when `c` is the first call that sends, after the settings of `pre`. */
  ghost predicate Shaped(start: State, pre: seq<Call>, c: Call, rest: seq<Call>, end: State) {
    var at := AtSend(Run(start, pre), c);
    end == Answered(at, FirstBody(c, start.head) + Bodies(rest, start.head)) && StatusOnce(at)
  }

  lemma ShapeFrom(start: State, cs: seq<Call>, pre: seq<Call>, c: Call, rest: seq<Call>)
    requires Open(start) && (forall j :: 0 <= j < |pre| ==> !Sends(pre[j])) && Sends(c) && cs == pre + ([c] + rest)
    ensures Shaped(start, pre, c, rest, Run(start, cs))
  {
    SettersKeepOpen(start, pre);
    RunAppend(start, pre, [c] + rest);
    SendAndGoOn(Run(start, pre), c, rest);
    OneStatus(Run(start, pre), c);
  }

  lemma FreshIsOpen(head: bool)
    ensures Open(Fresh(true, head))
  {
  }

  /**
   Whatever is called, the output is empty, or one header block followed by body bytes: the block is that of the
   settings at the first sending call and holds one Status entry, section 6.3.3 of RFC 3875.
   */
  lemma ResponseShape(start: State, cs: seq<Call>)
    requires start == Fresh(true, start.head)
    ensures var i := Settings(cs);
      if i == |cs| then Silent(Run(start, cs)) else Shaped(start, cs[..i], cs[i], cs[i + 1..], Run(start, cs))
  {
    var i := Settings(cs);
    FreshIsOpen(start.head);
    if i == |cs| {
      OnlySettings(start, cs);
    } else {
      SplitCalls(cs, i);
      ShapeFrom(start, cs, cs[..i], cs[i], cs[i + 1..]);
    }
  }

  /** Nothing was sent. */
  ghost predicate Silent(end: State) { end.output == [] && !end.sent }

  lemma OnlySettings(start: State, cs: seq<Call>)
    requires Open(start) && forall j :: 0 <= j < |cs| ==> !Sends(cs[j])
    ensures Silent(Run(start, cs))
  {
    SettersKeepOpen(start, cs);
  }

  lemma SplitCalls(cs: seq<Call>, i: nat)
    requires i < |cs|
    ensures cs == cs[..i] + ([cs[i]] + cs[i + 1..])
    ensures forall j :: 0 <= j < i ==> cs[..i][j] == cs[j]
  {
  }

  // ----- what the block holds -----

  function Lookup(norm: Norm, q: seq<Entry>, k: bytes): Option<bytes> {
    if q == [] then None else if norm(q[0].0) == norm(k) then Some(q[0].1) else Lookup(norm, q[1..], k)
  }

  lemma {:induction false} SetLookup(norm: Norm, q: seq<Entry>, k: bytes, v: bytes, x: bytes)
    ensures Lookup(norm, SetEntry(norm, q, k, v), x) == if norm(x) == norm(k) then Some(v) else Lookup(norm, q, x)
  {
    var r := SetEntry(norm, q, k, v);
    if q == [] {
      assert r[1..] == [];
    } else {
      LexTotal(norm(k), norm(q[0].0));
      if Lex(norm(k), norm(q[0].0)) {
        assert r[1..] == q;
      } else if Lex(norm(q[0].0), norm(k)) {
        SetLookup(norm, q[1..], k, v, x);
        assert r[1..] == SetEntry(norm, q[1..], k, v);
      } else {
        assert r[1..] == q[1..];
      }
    }
  }

  /** The value a run of setters leaves for a header: the last one set under an equivalent name. */
  function LastHeader(cs: seq<Call>, x: bytes, before: Option<bytes>): Option<bytes> {
    if cs == [] then before
    else LastHeader(cs[1..], x, if cs[0].SetHeader? && NameOrder(cs[0].name) == NameOrder(x) then Some(cs[0].value) else before)
  }

  function LastCookie(cs: seq<Call>, x: bytes, before: Option<bytes>): Option<bytes> {
    if cs == [] then before
    else LastCookie(cs[1..], x, if cs[0].SetCookie? && CookieOrder(cs[0].cookie) == CookieOrder(x) then Some(cs[0].text) else before)
  }

  function LastStatus(cs: seq<Call>, before: nat): nat {
    if cs == [] then before else LastStatus(cs[1..], if cs[0].SetStatus? then cs[0].status else before)
  }

  /** Before the headers are out, the last setting of each name counts. */
  lemma {:induction false} LastSettingWins(st: State, cs: seq<Call>, x: bytes)
    requires !st.sent && forall j :: 0 <= j < |cs| ==> !Sends(cs[j])
    ensures var end := Run(st, cs);
      && end.status == LastStatus(cs, st.status)
      && Lookup(NameOrder, end.headers, x) == LastHeader(cs, x, Lookup(NameOrder, st.headers, x))
      && Lookup(CookieOrder, end.cookies, x) == LastCookie(cs, x, Lookup(CookieOrder, st.cookies, x))
    decreases |cs|
  {
    if cs != [] {
      match cs[0] {
        case SetStatus(_) =>
        case SetHeader(k, v) => SetLookup(NameOrder, st.headers, k, v, x);
        case SetCookie(k, v) => SetLookup(CookieOrder, st.cookies, k, v, x);
      }
      LastSettingWins(Step(st, cs[0]).0, cs[1..], x);
    }
  }

  // ----- where the block ends -----

  predicate Clean(e: Entry) {
    && MultipartForm.OneLine(e.0) && MultipartForm.OneLine(e.1)
    && (e.0 != [] ==> e.0[0] != 32 && e.0[0] != 9)
  }

  predicate AllClean(q: seq<Entry>) { forall i :: 0 <= i < |q| ==> Clean(q[i]) }

  lemma {:induction false} TerminatedConcat(a: seq<bytes>, b: seq<bytes>)
    ensures Terminated(a + b) == Terminated(a) + Terminated(b)
  {
    if a == [] {
      assert a + b == b;
    } else {
      TerminatedConcat(a[1..], b);
      assert (a + b)[1..] == a[1..] + b;
      Assoc(a[0] + CRLF, Terminated(a[1..]), Terminated(b));
    }
  }

  lemma {:induction false} TerminatedIsJoined(ls: seq<bytes>)
    requires ls != []
    ensures Terminated(ls) == MultipartForm.JoinLines(CRLF, ls) + CRLF
  {
    if |ls| == 1 {
      assert ls[1..] == [];
      assert Terminated(ls) == ls[0] + CRLF + [];
    } else {
      TerminatedIsJoined(ls[1..]);
      JoinChain(ls[0], MultipartForm.JoinLines(CRLF, ls[1..]));
    }
  }

  lemma JoinChain(a: bytes, b: bytes)
    ensures a + CRLF + (b + CRLF) == (a + (CRLF + b)) + CRLF
  {
  }

  lemma BlankChain(a: bytes, rest: bytes)
    ensures (a + CRLF) + CRLF + rest == a + (Multipart.BLANK_LINE + rest)
  {
  }

  lemma HeaderIsLine(e: Entry)
    requires Clean(e)
    ensures MultipartForm.IsLine(HeaderLine(e)) && MultipartForm.IsLine(CookieLine(e))
  {
    assert MultipartForm.OneLine([58, 32] + e.1);
    CookieStart();
  }

  lemma CookieStart()
    ensures var t := Ascii("Set-Cookie: "); t != [] && t[0] == 83 && MultipartForm.OneLine(t)
  {
    var s := "Set-Cookie: ";
    assert forall i :: 0 <= i < |s| ==> s[i] >= ' ';
    assert forall i :: 0 <= i < |s| ==> s[i] < '~';
    assert forall i :: 0 <= i < |s| ==> Ascii(s)[i] >= 32;
  }

  /** With clean headers and cookies, the first blank line of the response is where the block ends. */
  lemma BlockEnds(headers: seq<Entry>, cookies: seq<Entry>, body: bytes)
    requires headers != [] && AllClean(headers) && AllClean(cookies)
    ensures |Block(headers, cookies)| >= 4
    ensures Find(Block(headers, cookies) + body, Multipart.BLANK_LINE) == |Block(headers, cookies)| - 4
  {
    var hs, cs := HeaderLines(headers), CookieLines(cookies);
    var ls := hs + cs;
    TerminatedConcat(hs, cs);
    TerminatedIsJoined(ls);
    var joined := MultipartForm.JoinLines(CRLF, ls);
    forall i | 0 <= i < |ls|
      ensures MultipartForm.IsLine(ls[i])
    {
      if i < |hs| {
        HeaderIsLine(headers[i]);
      } else {
        HeaderIsLine(cookies[i - |hs|]);
      }
    }
    BlankChain(joined, body);
    BlankChain(joined, []);
    BlankAt(ls, body);
  }

  lemma BlankAt(ls: seq<bytes>, body: bytes)
    requires ls != [] && MultipartForm.AreLines(ls)
    ensures Find(MultipartForm.JoinLines(CRLF, ls) + (Multipart.BLANK_LINE + body), Multipart.BLANK_LINE) == |MultipartForm.JoinLines(CRLF, ls)|
  {
    var joined := MultipartForm.JoinLines(CRLF, ls);
    var t := joined + (Multipart.BLANK_LINE + body);
    assert CRLF + CRLF == Multipart.BLANK_LINE;
    forall j | 0 <= j < |joined|
      ensures !MatchAt(t, Multipart.BLANK_LINE, j)
    {
      MultipartForm.FirstBlank(CRLF, ls, body, j);
    }
    assert t[|joined|..|joined| + 4] == Multipart.BLANK_LINE;
    FindIs(t, Multipart.BLANK_LINE, |joined|);
  }

  predicate Printable(s: string) { forall i :: 0 <= i < |s| ==> ' ' <= s[i] <= '~' }

  lemma PrintableLine(s: string)
    requires Printable(s)
    ensures MultipartForm.OneLine(Ascii(s))
  {
    assert forall i :: 0 <= i < |s| ==> Ascii(s)[i] >= 32;
  }

  lemma UnknownPrintable()
    ensures Printable(UnknownText())
  {
  }

  lemma SuccessPrintable(n: nat)
    ensures Printable(SuccessText(n))
  {
    UnknownPrintable();
  }

  lemma MovedPrintable(n: nat)
    ensures Printable(MovedText(n))
  {
    UnknownPrintable();
  }

  lemma RefusedPrintable(n: nat)
    ensures Printable(RefusedText(n))
  {
    UnknownPrintable();
    if n > 402 {
      DeniedPrintable(n);
    }
  }

  lemma DeniedPrintable(n: nat)
    ensures Printable(DeniedText(n))
  {
    UnknownPrintable();
  }

  lemma FailedPrintable(n: nat)
    ensures Printable(FailedText(n))
  {
    UnknownPrintable();
  }

  lemma StatusPrintable(n: nat)
    ensures Printable(StatusText(n))
  {
    if n < 300 {
      SuccessPrintable(n);
    } else if n < 400 {
      MovedPrintable(n);
    } else if n < 500 {
      RefusedPrintable(n);
    } else {
      FailedPrintable(n);
    }
  }

  lemma {:induction false} DecimalLine(n: nat)
    ensures MultipartForm.OneLine(Decimal(n))
  {
    if n >= 10 {
      DecimalLine(n / 10);
    }
  }

  lemma StatusClean(n: nat)
    ensures Clean((STATUS(), StatusValue(n)))
  {
    DecimalLine(n);
    StatusPrintable(n);
    PrintableLine(StatusText(n));
    PrintableLine("Status");
  }

  lemma {:induction false} SetKeepsClean(norm: Norm, q: seq<Entry>, k: bytes, v: bytes)
    requires AllClean(q) && Clean((k, v))
    ensures AllClean(SetEntry(norm, q, k, v)) && SetEntry(norm, q, k, v) != []
  {
    if q != [] {
      assert Clean(q[0]);
      SetKeepsClean(norm, q[1..], k, v);
    }
  }

  /** If no header or cookie smuggles in a line end, a reader finds the body exactly behind the block. */
  lemma AnswerIsDelimited(at: State, body: bytes)
    requires AllClean(at.headers) && AllClean(at.cookies)
    ensures var out := Answered(at, body).output;
      var i := Find(out, Multipart.BLANK_LINE);
      i + 4 <= |out| && out[..i + 4] == Block(WithStatus(at), at.cookies) && out[i + 4..] == body
  {
    StatusClean(at.status);
    SetKeepsClean(NameOrder, at.headers, STATUS(), StatusValue(at.status));
    BlockEnds(WithStatus(at), at.cookies, body);
  }

  // ----- what a reader finds in the block -----

  /** The lines up to the first empty one. */
  function ReadLines(s: bytes): seq<bytes>
    decreases |s|
  {
    var i := Find(s, CRLF);
    if i == 0 || i == |s| then [] else [s[..i]] + ReadLines(s[i + 2..])
  }

  lemma FirstLine(l: bytes, rest: bytes)
    requires MultipartForm.OneLine(l)
    ensures var s := l + CRLF + rest; Find(s, CRLF) == |l| && s[..|l|] == l && s[|l| + 2..] == rest
  {
    var s := l + CRLF + rest;
    forall j | 0 <= j < |l|
      ensures !MatchAt(s, CRLF, j)
    {
      assert s[j..j + 2][0] == s[j] == l[j];
    }
    assert s[|l|..|l| + 2] == CRLF;
    FindIs(s, CRLF, |l|);
  }

  lemma {:induction false} LinesRead(ls: seq<bytes>, rest: bytes)
    requires forall i :: 0 <= i < |ls| ==> MultipartForm.OneLine(ls[i]) && ls[i] != []
    ensures ReadLines(Terminated(ls) + (CRLF + rest)) == ls
  {
    if ls == [] {
      assert Terminated(ls) + (CRLF + rest) == [] + CRLF + rest;
      FirstLine([], rest);
    } else {
      var more := Terminated(ls[1..]) + (CRLF + rest);
      LinesRead(ls[1..], rest);
      Assoc(ls[0] + CRLF, Terminated(ls[1..]), CRLF + rest);
      assert MultipartForm.OneLine(ls[0]);
      FirstLine(ls[0], more);
      var s := ls[0] + CRLF + more;
      assert ReadLines(s) == [ls[0]] + ReadLines(s[|ls[0]| + 2..]);
    }
  }

  lemma BlockIsRead(headers: seq<Entry>, cookies: seq<Entry>, body: bytes)
    requires AllClean(headers) && AllClean(cookies)
    ensures ReadLines(Block(headers, cookies) + body) == HeaderLines(headers) + CookieLines(cookies)
  {
    var hs, cs := HeaderLines(headers), CookieLines(cookies);
    forall i | 0 <= i < |hs + cs|
      ensures MultipartForm.OneLine((hs + cs)[i]) && (hs + cs)[i] != []
    {
      HeaderIsLine(if i < |hs| then headers[i] else cookies[i - |hs|]);
    }
    TerminatedConcat(hs, cs);
    Assoc(Terminated(hs) + Terminated(cs), CRLF, body);
    LinesRead(hs + cs, body);
  }

  /** Line by line, `name: value` for each header and `Set-Cookie: text` for each cookie, and no more. */
  ghost predicate Listed(ls: seq<bytes>, headers: seq<Entry>, cookies: seq<Entry>) {
    && |ls| == |headers| + |cookies|
    && (forall i :: 0 <= i < |headers| ==> ls[i] == headers[i].0 + (Ascii(": ") + headers[i].1))
    && (forall i :: 0 <= i < |cookies| ==> ls[|headers| + i] == Ascii("Set-Cookie: ") + cookies[i].1)
  }

  lemma LinesListed(headers: seq<Entry>, cookies: seq<Entry>)
    ensures Listed(HeaderLines(headers) + CookieLines(cookies), headers, cookies)
  {
    assert Ascii(": ") == [58, 32];
    forall i | 0 <= i < |headers|
      ensures HeaderLine(headers[i]) == headers[i].0 + (Ascii(": ") + headers[i].1)
    {
    }
  }

  /** A reader finds the settings the answer was sent with. */
  lemma AnswerIsRead(at: State, body: bytes)
    requires AllClean(at.headers) && AllClean(at.cookies)
    ensures Listed(ReadLines(Answered(at, body).output), WithStatus(at), at.cookies)
  {
    StatusClean(at.status);
    SetKeepsClean(NameOrder, at.headers, STATUS(), StatusValue(at.status));
    BlockIsRead(WithStatus(at), at.cookies, body);
    LinesListed(WithStatus(at), at.cookies);
  }

  /** Two header names are the same if they differ only in the case of letters. */
  lemma NamesIgnoreCase(a: bytes, b: bytes)
    ensures NameOrder(a) == NameOrder(b) <==> |a| == |b| && forall i :: 0 <= i < |a| ==> SameLetter(a[i], b[i])
  {
    if |a| == |b| {
      if NameOrder(a) == NameOrder(b) {
        forall i | 0 <= i < |a|
          ensures SameLetter(a[i], b[i])
        {
          assert NameOrder(a)[i] == NameOrder(b)[i];
        }
      }
    } else {
      assert |NameOrder(a)| != |NameOrder(b)|;
    }
  }

  predicate SameLetter(c: byte, d: byte) {
    || c == d
    || (65 <= c <= 90 && d == c + 32)
    || (65 <= d <= 90 && c == d + 32)
  }

  // ----- the texts themselves -----

  /** The number that decimal digits write. */
  function Numeral(d: bytes): int {
    if d == [] then 0 else Numeral(d[..|d| - 1]) * 10 - 48 + d[|d| - 1]
  }

  /** The numeral of a number: digits only, the first one zero only for zero itself. */
  lemma {:induction false} DecimalIsNumeral(n: nat)
    ensures var d := Decimal(n);
      && d != [] && (forall i :: 0 <= i < |d| ==> 48 <= d[i] <= 57) && (n > 0 ==> d[0] != 48) && (n == 0 ==> d == [48])
      && Numeral(d) == n
  {
    var d := Decimal(n);
    if n < 10 {
      assert d[..0] == [];
      assert Numeral(d[..0]) == 0;
    } else {
      DecimalIsNumeral(n / 10);
      assert d[..|d| - 1] == Decimal(n / 10);
      assert d[0] == Decimal(n / 10)[0];
    }
  }

  lemma ErrorHeaders(st: State, n: nat)
    ensures WithStatus(Cleared(st, n)) == [HtmlType(), (STATUS(), StatusValue(n))]
  {
    var a, b := NameOrder(STATUS()), NameOrder(HtmlType().0);
    assert a[0] == 115 && b[0] == 99;
    var q := [HtmlType()];
    assert q[1..] == [];
    assert SetEntry(NameOrder, [], STATUS(), StatusValue(n)) == [(STATUS(), StatusValue(n))];
  }

  lemma TwoLines(a: bytes, b: bytes)
    ensures Terminated([a, b]) == a + CRLF + (b + CRLF)
  {
    var ls := [a, b];
    assert ls[1..] == [b] && [b][1..] == [];
    assert Terminated([b]) == b + CRLF + [];
  }

  /**
   An error answer is the same whatever was set before: a content type, the status and a page that tells the status.
   No header and no cookie set before is in it.
   */
  lemma ErrorAnswer(start: State, pre: seq<Call>, n: nat)
    requires start == Fresh(true, start.head) && forall j :: 0 <= j < |pre| ==> !Sends(pre[j])
    ensures Run(start, pre + [SendError(n)]).output ==
      Ascii("Content-type: text/html") + CRLF + (Ascii("Status: ") + StatusValue(n) + CRLF) + CRLF + ErrorPage(n)
  {
    var st := Run(start, pre);
    FreshIsOpen(start.head);
    SettersKeepOpen(start, pre);
    assert [SendError(n)] + [] == [SendError(n)];
    SendAndGoOn(st, SendError(n), []);
    RunAppend(start, pre, [SendError(n)]);
    ErrorBlock(st, n);
    ErrorChain(ErrorLines(n), ErrorPage(n));
  }

  function ErrorLines(n: nat): bytes {
    Ascii("Content-type: text/html") + CRLF + (Ascii("Status: ") + StatusValue(n) + CRLF)
  }

  lemma ErrorTexts(n: nat)
    ensures HeaderLine(HtmlType()) == Ascii("Content-type: text/html")
    ensures HeaderLine((STATUS(), StatusValue(n))) == Ascii("Status: ") + StatusValue(n)
  {
    Colon();
    AsciiParts("Content-type", ": " + "text/html");
    AsciiParts(": ", "text/html");
    assert "Content-type" + (": " + "text/html") == "Content-type: text/html";
    AsciiParts("Status", ": ");
    assert "Status" + ": " == "Status: ";
    Assoc(STATUS(), Ascii(": "), StatusValue(n));
  }

  lemma Colon()
    ensures Ascii(": ") == [58, 32]
  {
  }

  lemma AsciiParts(a: string, b: string)
    ensures Ascii(a + b) == Ascii(a) + Ascii(b)
  {
  }

  lemma ErrorBlock(st: State, n: nat)
    ensures Block(WithStatus(Cleared(st, n)), Cleared(st, n).cookies) == ErrorLines(n) + [] + CRLF
  {
    ErrorHeaders(st, n);
    ErrorTexts(n);
    var a, b := HeaderLine(HtmlType()), HeaderLine((STATUS(), StatusValue(n)));
    assert HeaderLines([HtmlType(), (STATUS(), StatusValue(n))]) == [a, b];
    TwoLines(a, b);
    assert Terminated(CookieLines([])) == [];
  }

  lemma ErrorChain(lines: bytes, page: bytes)
    ensures (lines + [] + CRLF) + (page + []) == lines + CRLF + page
  {
  }

  lemma StatusOk()
    ensures StatusValue(200) == Ascii("200 OK")
  {
    assert Decimal(2) == [50] && Decimal(20) == Decimal(2) + [48] && Decimal(200) == Decimal(20) + [48];
    assert Ascii("200") == [50, 48, 48] && Ascii(" ") == [32];
    AsciiParts("200", " ");
    AsciiParts("200" + " ", "OK");
    assert "200" + " " + "OK" == "200 OK";
  }

  lemma PlainBlock(st: State)
    requires st.headers == [] && st.cookies == [] && st.status == 200
    ensures Block(WithStatus(st), st.cookies) == Ascii("Status: 200 OK") + CRLF + [] + CRLF
  {
    StatusOk();
    ErrorTexts(200);
    AsciiParts("Status: ", "200 OK");
    assert "Status: " + "200 OK" == "Status: 200 OK";
    var line := HeaderLine((STATUS(), StatusValue(200)));
    var ls: seq<bytes> := [line];
    assert HeaderLines([(STATUS(), StatusValue(200))]) == ls && ls[1..] == [];
    assert Terminated(ls) == line + CRLF + [];
    assert Terminated(CookieLines([])) == [];
  }

  /** A request that sets nothing is answered with status 200 and what it writes. */
  lemma PlainAnswer(start: State, data: bytes)
    requires start == Fresh(true, start.head)
    ensures Run(start, [Write(data)]).output == Ascii("Status: 200 OK") + CRLF + CRLF + (if start.head then [] else data)
  {
    FreshIsOpen(start.head);
    assert [Write(data)] + [] == [Write(data)];
    SendAndGoOn(start, Write(data), []);
    PlainBlock(start);
    ErrorChain(Ascii("Status: 200 OK") + CRLF, WriteBody(Write(data), start.head));
  }
}
