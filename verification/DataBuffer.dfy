/**
 Views of a byte store and their iteration segment by segment.

 A store is flat (a vector) or seen through a window; both hold the same bytes, but a windowed one is
 handed out in segments that end at multiples of the window.
 */
module DataBuffer {
  import opened Common
  import opened Bytes
  import opened UrlCodec

  datatype Store = Flat(bytes: seq<byte>) | Windowed(bytes: seq<byte>, window: nat)
  {
    /** Where the segment holding `pos` ends. */
    function SegmentEnd(pos: nat): nat {
      if Windowed? && window > 0 then window * (pos / window) + window else |bytes|
    }
  }

  datatype View = View(store: Store, begin: nat, end: nat)
  {
    predicate Valid() {
      begin <= end <= |store.bytes| && (store.Windowed? ==> store.window > 0)
    }

    function Bytes(): seq<byte>
      requires Valid()
    {
      store.bytes[begin..end]
    }

    /** Where the chunk starting at `pos` ends. */
    function ChunkEnd(pos: nat): (e: nat)
      requires Valid() && begin <= pos < end
      ensures pos < e <= end
      ensures store.Flat? ==> e == end
    {
      SegmentProgress(store, pos);
      if store.SegmentEnd(pos) < end then store.SegmentEnd(pos) else end
    }

    function ChunksFrom(pos: nat): seq<seq<byte>>
      requires Valid() && begin <= pos <= end
      decreases end - pos
    {
      if pos == end then [] else [store.bytes[pos..ChunkEnd(pos)]] + ChunksFrom(ChunkEnd(pos))
    }

    /** The chunks that iterating over the view delivers. */
    function Chunks(): seq<seq<byte>>
      requires Valid()
    {
      ChunksFrom(begin)
    }
  }

  lemma SegmentProgress(store: Store, pos: nat)
    requires store.Windowed? ==> store.window > 0
    ensures store.Windowed? ==> pos < store.SegmentEnd(pos) <= pos + store.window
  {
  }

  function Concat(cs: seq<seq<byte>>): seq<byte> {
    if cs == [] then [] else cs[0] + Concat(cs[1..])
  }

  lemma ConcatStep(s: seq<byte>, cs: seq<seq<byte>>)
    requires cs != []
    ensures s + Concat(cs) == s + cs[0] + Concat(cs[1..])
  {
  }

  lemma {:induction false} ChunksFromJoin(v: View, pos: nat)
    requires v.Valid() && v.begin <= pos <= v.end
    ensures Concat(v.ChunksFrom(pos)) == v.store.bytes[pos..v.end]
    ensures forall i :: 0 <= i < |v.ChunksFrom(pos)| ==> v.ChunksFrom(pos)[i] != []
    decreases v.end - pos
  {
    if pos < v.end {
      var e := v.ChunkEnd(pos);
      ChunksFromJoin(v, e);
      assert v.store.bytes[pos..v.end] == v.store.bytes[pos..e] + v.store.bytes[e..v.end];
    }
  }

  /** The chunks partition the view: none is empty and together they are its bytes. */
  lemma ChunksPartition(v: View)
    requires v.Valid()
    ensures Concat(v.Chunks()) == v.Bytes()
    ensures forall i :: 0 <= i < |v.Chunks()| ==> v.Chunks()[i] != []
    ensures v.store.Flat? ==> v.Chunks() == if v.begin == v.end then [] else [v.Bytes()]
  {
    ChunksFromJoin(v, v.begin);
    if v.store.Flat? && v.begin < v.end {
      assert v.ChunksFrom(v.end) == [];
    }
  }

  // ----- the iterator -----

  /** Iteration over a view; at the end it holds no view. */
  class SegmentIterator {
    const view: View
    var done: bool
    var posBegin: nat
    var posEnd: nat

    ghost predicate Valid()
      reads this
    {
      && view.Valid()
      && (!done ==> view.begin <= posBegin < view.end && posEnd == view.ChunkEnd(posBegin))
    }

    /** The chunks still to come. */
    ghost function Rest(): seq<seq<byte>>
      requires Valid()
      reads this
    {
      if done then [] else view.ChunksFrom(posBegin)
    }

    constructor (view: View)
      requires view.Valid()
      ensures Valid() && this.view == view && Rest() == view.Chunks()
      ensures done == (view.begin == view.end) && posBegin == view.begin
    {
      this.view := view;
      done, posBegin, posEnd := view.begin == view.end, view.begin, 0;
      if view.begin < view.end {
        SegmentProgress(view.store, view.begin);
        posEnd := if view.store.SegmentEnd(view.begin) < view.end then view.store.SegmentEnd(view.begin) else view.end;
      }
    }

    method Current() returns (chunk: seq<byte>)
      requires Valid() && !done
      ensures Rest() != [] && chunk == Rest()[0]
    {
      chunk := view.store.bytes[posBegin..posEnd];
    }

    method Next()
      requires Valid() && !done
      modifies this
      ensures Valid() && Rest() == old(Rest())[1..]
      ensures if done then old(posEnd) == view.end else posBegin == old(posEnd)
    {
      if posEnd >= view.end {
        assert view.ChunksFrom(posEnd) == [];
        done := true;
        return;
      }
      SegmentProgress(view.store, posEnd);
      var e := view.store.SegmentEnd(posEnd);
      posBegin := posEnd;
      posEnd := if e < view.end then e else view.end;
    }
  }

  method ToString(v: View) returns (s: seq<byte>)
    requires v.Valid()
    ensures s == v.Bytes()
  {
    s := [];
    var it := new SegmentIterator(v);
    ChunksPartition(v);
    while !it.done
      invariant it.Valid() && s + Concat(it.Rest()) == v.Bytes()
      decreases |it.Rest()|
    {
      ghost var rest := it.Rest();
      var chunk := it.Current();
      it.Next();
      ConcatStep(s, rest);
      s := s + chunk;
    }
  }

  // ----- decoding chunk by chunk -----

  function DecodeChunks(cs: seq<seq<byte>>): seq<byte> {
    if cs == [] then [] else Decode(cs[0]) + DecodeChunks(cs[1..])
  }

  lemma DecodeChunksStep(r: seq<byte>, cs: seq<seq<byte>>)
    requires cs != []
    ensures r + DecodeChunks(cs) == r + Decode(cs[0]) + DecodeChunks(cs[1..])
  {
  }

  method UrlDecodeView(v: View) returns (r: seq<byte>)
    requires v.Valid()
    ensures r == DecodeChunks(v.Chunks())
  {
    r := [];
    var it := new SegmentIterator(v);
    while !it.done
      invariant it.Valid() && r + DecodeChunks(it.Rest()) == DecodeChunks(v.Chunks())
      decreases |it.Rest()|
    {
      ghost var rest := it.Rest();
      var chunk := it.Current();
      it.Next();
      DecodeChunksStep(r, rest);
      r := UrlDecode(chunk, r);
    }
  }

  /** No escape starts in the last two bytes. */
  predicate EndsClean(c: seq<byte>) {
    forall i :: 0 <= i < |c| && |c| - 2 <= i ==> c[i] != PERCENT
  }

  /** No escape is cut by the end of a chunk that another one follows. */
  predicate NoCut(cs: seq<seq<byte>>) {
    forall i :: 0 <= i < |cs| - 1 ==> EndsClean(cs[i])
  }

  lemma {:induction false} DecodeJoin(a: seq<byte>, b: seq<byte>)
    requires EndsClean(a)
    ensures Decode(a + b) == Decode(a) + Decode(b)
    decreases |a|
  {
    if a == [] {
      assert a + b == b;
    } else {
      var n := if a[0] == PERCENT then 3 else 1;
      var rest := a[n..];
      assert forall i :: 0 <= i < |rest| ==> rest[i] == a[i + n];
      DecodeJoin(rest, b);
      assert (a + b)[n..] == rest + b && (a + b)[..n] == a[..n];
      assert forall i :: 0 <= i < n ==> (a + b)[i] == a[i];
      Assoc(if a[0] == PLUS then [SPACE] else if n == 3 then [Escaped(a[1], a[2])] else [a[0]], Decode(rest), Decode(b));
    }
  }

  /** Without a cut escape, decoding chunk by chunk is decoding the whole. */
  lemma {:induction false} ChunkedDecode(cs: seq<seq<byte>>)
    requires NoCut(cs)
    ensures DecodeChunks(cs) == Decode(Concat(cs))
  {
    if cs == [] {
    } else if |cs| == 1 {
      assert cs[1..] == [];
      assert Concat(cs) == cs[0] + [] == cs[0];
      assert DecodeChunks(cs) == Decode(cs[0]) + [];
    } else {
      assert EndsClean(cs[0]);
      ChunkedDecode(cs[1..]);
      DecodeJoin(cs[0], Concat(cs[1..]));
    }
  }

  // ----- ... and when it is not -----

  predicate IsHex(c: byte) {
    48 <= c <= 57 || 65 <= c <= 70 || 97 <= c <= 102
  }

  /** Every percent sign starts a complete escape, section 2.1 of RFC 3986. */
  predicate WellFormed(s: seq<byte>) {
    forall i :: 0 <= i < |s| && s[i] == PERCENT ==> i + 2 < |s| && IsHex(s[i + 1]) && IsHex(s[i + 2])
  }

  /** A piece of well-formed text: an escape may be cut at its end. */
  predicate Tame(s: seq<byte>) {
    forall i :: 0 <= i < |s| && s[i] == PERCENT ==>
      (i + 1 < |s| ==> IsHex(s[i + 1])) && (i + 2 < |s| ==> IsHex(s[i + 2]))
  }

  function Percents(s: seq<byte>): nat {
    if s == [] then 0 else (if s[0] == PERCENT then 1 else 0) + Percents(s[1..])
  }

  function WholeEscapes(s: seq<byte>): nat {
    if s == [] then 0 else (if s[0] == PERCENT && |s| > 2 then 1 else 0) + WholeEscapes(s[1..])
  }

  lemma {:induction false} TameLength(s: seq<byte>)
    requires Tame(s)
    ensures |Decode(s)| == |s| - 2 * WholeEscapes(s)
    decreases |s|
  {
    if s != [] {
      if s[0] == PERCENT && |s| > 2 {
        assert IsHex(s[1]) && IsHex(s[2]);
        TameLength(s[3..]);
        assert s[1..][1..] == s[2..] && s[2..][1..] == s[3..];
        assert WholeEscapes(s[2..]) == WholeEscapes(s[3..]);
      } else {
        TameLength(s[1..]);
      }
    }
  }

  lemma {:induction false} CleanCount(s: seq<byte>)
    ensures WholeEscapes(s) <= Percents(s)
    ensures WholeEscapes(s) == Percents(s) <==> EndsClean(s)
  {
    if s != [] {
      CleanCount(s[1..]);
      assert forall i :: 1 <= i < |s| ==> s[i] == s[1..][i - 1];
      if EndsClean(s) {
        assert EndsClean(s[1..]);
      } else if EndsClean(s[1..]) {
        assert s[0] == PERCENT && |s| <= 2;
      }
    }
  }

  lemma {:induction false} PercentsJoin(a: seq<byte>, b: seq<byte>)
    ensures Percents(a + b) == Percents(a) + Percents(b)
  {
    if a == [] {
      assert a + b == b;
    } else {
      PercentsJoin(a[1..], b);
      assert (a + b)[1..] == a[1..] + b;
    }
  }

  function SumWhole(cs: seq<seq<byte>>): nat {
    if cs == [] then 0 else WholeEscapes(cs[0]) + SumWhole(cs[1..])
  }

  lemma PieceTame(a: seq<byte>, b: seq<byte>)
    requires WellFormed(a + b)
    ensures Tame(a) && WellFormed(b)
  {
    var s := a + b;
    forall i | 0 <= i < |b| && b[i] == PERCENT
      ensures i + 2 < |b| && IsHex(b[i + 1]) && IsHex(b[i + 2])
    {
      assert s[|a| + i] == PERCENT;
      assert i + 2 < |b| && s[|a| + i + 1] == b[i + 1] && s[|a| + i + 2] == b[i + 2];
    }
    forall i | 0 <= i < |a| && a[i] == PERCENT
      ensures (i + 1 < |a| ==> IsHex(a[i + 1])) && (i + 2 < |a| ==> IsHex(a[i + 2]))
    {
      assert s[i] == PERCENT;
      assert (i + 1 < |a| ==> s[i + 1] == a[i + 1]) && (i + 2 < |a| ==> s[i + 2] == a[i + 2]);
    }
  }

  /** How much longer the chunked result is: two bytes for every escape that is cut. */
  lemma {:induction false} ChunkedLength(cs: seq<seq<byte>>)
    requires WellFormed(Concat(cs))
    ensures |DecodeChunks(cs)| == |Concat(cs)| - 2 * SumWhole(cs)
    ensures SumWhole(cs) <= Percents(Concat(cs))
    ensures SumWhole(cs) == Percents(Concat(cs)) ==> NoCut(cs)
  {
    if cs != [] {
      PieceTame(cs[0], Concat(cs[1..]));
      TameLength(cs[0]);
      CleanCount(cs[0]);
      PercentsJoin(cs[0], Concat(cs[1..]));
      ChunkedLength(cs[1..]);
      assert forall i :: 1 <= i < |cs| ==> cs[i] == cs[1..][i - 1];
    }
  }

  /** On well-formed text, decoding chunk by chunk is right exactly when no escape is cut. */
  lemma ChunkedDecodeIff(cs: seq<seq<byte>>)
    requires WellFormed(Concat(cs))
    ensures DecodeChunks(cs) == Decode(Concat(cs)) <==> NoCut(cs)
  {
    var s := Concat(cs);
    ChunkedLength(cs);
    TameLength(s);
    CleanCount(s);
    if NoCut(cs) {
      ChunkedDecode(cs);
    }
  }

  // ----- an escape that straddles two windows -----

  lemma SameSegment(store: Store, a: nat, b: nat)
    requires store.Windowed? && store.window > 0 && a <= b < store.SegmentEnd(a)
    ensures store.SegmentEnd(b) == store.SegmentEnd(a)
  {
    var w := store.window;
    DivisionBounds(a, w);
    QuotientIs(b, w, a / w);
  }

  lemma QuotientIs(b: nat, w: nat, q: nat)
    requires w > 0 && w * q <= b < w * q + w
    ensures b / w == q
  {
    var k := b / w;
    DivisionBounds(b, w);
    if k < q {
      Product(w, k + 1, q);
    } else if k > q {
      Product(w, q + 1, k);
    }
  }

  lemma DivisionBounds(b: nat, w: nat)
    requires w > 0
    ensures w * (b / w) <= b < w * (b / w) + w
  {
    assert b == w * (b / w) + b % w;
  }

  lemma Product(w: nat, a: nat, b: nat)
    requires a <= b
    ensures w * a <= w * b
  {
    var d := b - a;
    assert w * b == w * a + w * d;
  }

  lemma {:induction false} CutFrom(v: View, pos: nat, p: nat)
    requires v.Valid() && v.store.Windowed? && v.begin <= pos <= p && p + 2 < v.end
    requires v.store.bytes[p] == PERCENT && v.store.SegmentEnd(p) <= p + 2
    ensures !NoCut(v.ChunksFrom(pos))
    decreases p - pos
  {
    var e, cs := v.ChunkEnd(pos), v.ChunksFrom(pos);
    var rest := v.ChunksFrom(e);
    if p < v.store.SegmentEnd(pos) {
      SameSegment(v.store, pos, p);
      assert rest != [];
      assert cs[0] == v.store.bytes[pos..e] && cs[0][p - pos] == PERCENT;
      assert !EndsClean(cs[0]);
    } else {
      CutFrom(v, e, p);
      var i :| 0 <= i < |rest| - 1 && !EndsClean(rest[i]);
      assert cs[i + 1] == rest[i];
    }
  }

  /** In well-formed text, an escape that straddles two windows is not decoded. */
  lemma StraddlingEscape(v: View, p: nat)
    requires v.Valid() && v.store.Windowed? && v.begin <= p && p + 2 < v.end && WellFormed(v.Bytes())
    requires v.store.bytes[p] == PERCENT && v.store.SegmentEnd(p) <= p + 2
    ensures DecodeChunks(v.Chunks()) != Decode(v.Bytes())
  {
    CutFrom(v, v.begin, p);
    ChunksPartition(v);
    ChunkedDecodeIff(v.Chunks());
  }

  // ----- query strings in a view -----

  /** The part of a view before the first `c`, and the part after it, which is empty when there is none. */
  function ViewBefore(v: View, c: byte): (r: View)
    requires v.Valid()
    ensures r.Valid() && r.store == v.store && r.Bytes() == Before(v.Bytes(), c)
  {
    var n := IndexOf(v.Bytes(), c);
    SliceOfSlice(v.store.bytes, v.begin, v.end, 0, n);
    View(v.store, v.begin, v.begin + n)
  }

  function ViewAfter(v: View, c: byte): (r: View)
    requires v.Valid()
    ensures r.Valid() && r.store == v.store && r.Bytes() == After(v.Bytes(), c)
  {
    var n := IndexOf(v.Bytes(), c);
    if n == v.end - v.begin then View(v.store, 0, 0)
    else
      SliceOfSlice(v.store.bytes, v.begin, v.end, n + 1, v.end - v.begin);
      View(v.store, v.begin + n + 1, v.end)
  }

  function FieldOfView(head: View): seq<Pair>
    requires head.Valid()
  {
    var key, value := ViewBefore(head, EQUALS), ViewAfter(head, EQUALS);
    if key.begin == key.end then [] else [(DecodeChunks(key.Chunks()), DecodeChunks(value.Chunks()))]
  }

  function ParseView(v: View): seq<Pair>
    requires v.Valid()
    decreases |v.Bytes()|
  {
    if v.begin == v.end then [] else FieldOfView(ViewBefore(v, AMP)) + ParseView(ViewAfter(v, AMP))
  }

  method ReadField(head: View) returns (f: seq<Pair>)
    requires head.Valid()
    ensures f == FieldOfView(head)
  {
    f := [];
    var key, value := ViewBefore(head, EQUALS), ViewAfter(head, EQUALS);
    if key.begin != key.end {
      var k := UrlDecodeView(key);
      var d := UrlDecodeView(value);
      f := [(k, d)];
    }
  }

  method ParseBuffer(v: View) returns (r: seq<Pair>)
    requires v.Valid()
    ensures r == ParseView(v)
  {
    r := [];
    var tmp := v;
    ghost var goal, rest := ParseView(v), ParseView(v);
    while tmp.begin != tmp.end
      invariant tmp.Valid() && rest == ParseView(tmp) && r + rest == goal
      decreases tmp.end - tmp.begin
    {
      var head, tail := ViewBefore(tmp, AMP), ViewAfter(tmp, AMP);
      ParseViewStep(r, tmp);
      rest := ParseView(tail);
      var f := ReadField(head);
      r := r + f;
      tmp := tail;
    }
  }

  lemma ParseViewStep(r: seq<Pair>, v: View)
    requires v.Valid() && v.begin < v.end
    ensures r + ParseView(v) == r + FieldOfView(ViewBefore(v, AMP)) + ParseView(ViewAfter(v, AMP))
    ensures ViewAfter(v, AMP).end - ViewAfter(v, AMP).begin < v.end - v.begin
  {
    Assoc(r, FieldOfView(ViewBefore(v, AMP)), ParseView(ViewAfter(v, AMP)));
  }

  /** No escape in a key or a value is cut by a chunk boundary. */
  predicate FieldsWhole(v: View)
    requires v.Valid()
    decreases |v.Bytes()|
  {
    v.begin == v.end || (FieldWhole(ViewBefore(v, AMP)) && FieldsWhole(ViewAfter(v, AMP)))
  }

  predicate FieldWhole(head: View)
    requires head.Valid()
  {
    var key, value := ViewBefore(head, EQUALS), ViewAfter(head, EQUALS);
    key.begin == key.end || (NoCut(key.Chunks()) && NoCut(value.Chunks()))
  }

  lemma FieldAgrees(head: View)
    requires head.Valid()
    ensures FieldWhole(head) ==> FieldOfView(head) == Field(head.Bytes())
    ensures WellFormed(head.Bytes()) && FieldOfView(head) == Field(head.Bytes()) ==> FieldWhole(head)
    ensures |FieldOfView(head)| == |Field(head.Bytes())|
  {
    var key, value := ViewBefore(head, EQUALS), ViewAfter(head, EQUALS);
    ChunksPartition(key);
    ChunksPartition(value);
    if key.begin != key.end {
      assert key.Bytes() != [];
      if FieldWhole(head) {
        ChunkedDecode(key.Chunks());
        ChunkedDecode(value.Chunks());
      } else if WellFormed(head.Bytes()) {
        FieldPartsWellFormed(head.Bytes(), EQUALS);
        ChunkedDecodeIff(key.Chunks());
        ChunkedDecodeIff(value.Chunks());
      }
    }
  }

  lemma FieldPartsWellFormed(s: seq<byte>, c: byte)
    requires WellFormed(s) && !IsHex(c) && c != PERCENT
    ensures WellFormed(Before(s, c)) && WellFormed(After(s, c))
  {
    var a, b := Before(s, c), After(s, c);
    var n := IndexOf(s, c);
    forall i | 0 <= i < |a| && a[i] == PERCENT
      ensures i + 2 < |a| && IsHex(a[i + 1]) && IsHex(a[i + 2])
    {
      assert s[i] == PERCENT;
    }
    forall i | 0 <= i < |b| && b[i] == PERCENT
      ensures i + 2 < |b| && IsHex(b[i + 1]) && IsHex(b[i + 2])
    {
      assert s[n + 1 + i] == PERCENT;
    }
  }

  /** The chunked parser agrees with the plain one if no field is cut, and on well-formed text only then. */
  lemma {:induction false} ParseViewAgrees(v: View)
    requires v.Valid()
    ensures FieldsWhole(v) ==> ParseView(v) == ParseQuery(v.Bytes())
    ensures WellFormed(v.Bytes()) && ParseView(v) == ParseQuery(v.Bytes()) ==> FieldsWhole(v)
    decreases |v.Bytes()|
  {
    if v.begin < v.end {
      var head, tail := ViewBefore(v, AMP), ViewAfter(v, AMP);
      FieldAgrees(head);
      ParseViewAgrees(tail);
      if WellFormed(v.Bytes()) {
        FieldPartsWellFormed(v.Bytes(), AMP);
        var a, b, x, y := FieldOfView(head), ParseView(tail), Field(head.Bytes()), ParseQuery(tail.Bytes());
        if a + b == x + y {
          assert a == (a + b)[..|a|] && b == (a + b)[|a|..];
          assert x == (x + y)[..|x|] && y == (x + y)[|x|..];
        }
      }
    }
  }

  /** A body in memory is one chunk, so its query string is always parsed like plain text. */
  lemma {:induction false} FlatIsWhole(v: View)
    requires v.Valid() && v.store.Flat?
    ensures FieldsWhole(v)
    decreases |v.Bytes()|
  {
    if v.begin < v.end {
      var head := ViewBefore(v, AMP);
      ChunksPartition(ViewBefore(head, EQUALS));
      ChunksPartition(ViewAfter(head, EQUALS));
      FlatIsWhole(ViewAfter(v, AMP));
    }
  }

  /** For every window there is a body that is one field, whose escape straddles the window and is not decoded. */
  lemma CutEscapeIsNotDecoded(window: nat) returns (v: View)
    requires window > 0
    ensures v.Valid() && v.store.Windowed? && v.store.window == window && WellFormed(v.Bytes())
    ensures DecodeChunks(v.Chunks()) != Decode(v.Bytes()) && ParseView(v) != ParseQuery(v.Bytes())
  {
    var s := Straddled(window);
    v := View(Windowed(s, window), 0, window + 2);
    StraddledBytes(window);
    assert v.Bytes() == s;
    QuotientIs(window - 1, window, 0);
    assert v.store.SegmentEnd(window - 1) == window;
    StraddlingEscape(v, window - 1);
    FieldIsCut(v, window - 1);
  }

  /** An escape whose percent sign is the last byte of the first window. */
  function Straddled(window: nat): (s: seq<byte>)
    requires window > 0
    ensures |s| == window + 2
  {
    seq(window - 1, _ => 97) + [PERCENT, 52, 49]
  }

  lemma StraddledBytes(window: nat)
    requires window > 0
    ensures var s := Straddled(window);
      WellFormed(s) && AMP !in s && EQUALS !in s && s[window - 1] == PERCENT
  {
    var s := Straddled(window);
    assert forall i :: 0 <= i < window - 1 ==> s[i] == 97;
    assert s[window - 1] == PERCENT && s[window] == 52 && s[window + 1] == 49;
  }

  lemma FieldIsCut(v: View, p: nat)
    requires v.Valid() && v.store.Windowed? && v.begin <= p && p + 2 < v.end && WellFormed(v.Bytes())
    requires v.store.bytes[p] == PERCENT && v.store.SegmentEnd(p) <= p + 2 && AMP !in v.Bytes() && EQUALS !in v.Bytes()
    ensures ParseView(v) != ParseQuery(v.Bytes())
  {
    OneField(v);
    CutFrom(v, v.begin, p);
    ParseViewAgrees(v);
  }

  lemma OneField(v: View)
    requires v.Valid() && v.begin < v.end && AMP !in v.Bytes() && EQUALS !in v.Bytes()
    ensures FieldsWhole(v) ==> NoCut(v.Chunks())
  {
    NotFound(v.Bytes(), AMP);
    NotFound(v.Bytes(), EQUALS);
    assert ViewBefore(v, AMP) == v && ViewBefore(v, EQUALS) == v;
  }

  lemma NotFound(s: seq<byte>, c: byte)
    requires c !in s
    ensures IndexOf(s, c) == |s|
  {
  }
}
