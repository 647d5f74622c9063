/** The length-prefixed binary format: 64-bit little-endian integers and strings in a byte buffer. */
module Wire {
  import opened Common
  import opened Bytes

  type bytes = seq<byte>
  type Pair = (bytes, bytes)

  const MAX_STRING: int := 0x7FFF_FFFF_FFFF_FFFF

  // ----- integers -----

  function Pow256(k: nat): (p: nat)
    ensures p > 0
  {
    if k == 0 then 1 else 256 * Pow256(k - 1)
  }

  function LittleEndian(n: nat, k: nat): (r: bytes)
    ensures |r| == k
  {
    if k == 0 then [] else [n % 256] + LittleEndian(n / 256, k - 1)
  }

  function FromLittleEndian(b: bytes): nat {
    if b == [] then 0 else b[0] + 256 * FromLittleEndian(b[1..])
  }

  lemma {:induction false} LittleEndianRoundTrip(n: nat, k: nat)
    requires n < Pow256(k)
    ensures FromLittleEndian(LittleEndian(n, k)) == n
  {
    if k > 0 {
      LittleEndianRoundTrip(n / 256, k - 1);
      assert LittleEndian(n, k)[1..] == LittleEndian(n / 256, k - 1);
    }
  }

  /** The byte at `i` is the digit of weight 256 to the power `i`: the lowest comes first. */
  lemma {:induction false} LittleEndianAt(n: nat, k: nat, i: nat)
    requires i < k
    ensures LittleEndian(n, k)[i] == n / Pow256(i) % 256
  {
    if i > 0 {
      LittleEndianAt(n / 256, k - 1, i - 1);
      DivTwice(n, Pow256(i - 1));
    }
  }

  lemma DivTwice(n: nat, p: nat)
    requires p > 0
    ensures n / 256 / p == n / (256 * p)
  {
    var q := n / 256 / p;
    assert n == 256 * (n / 256) + n % 256 && n / 256 == p * q + n / 256 % p;
    var r := 256 * (n / 256 % p) + n % 256;
    assert n == 256 * p * q + r by {
      assert 256 * (p * q) == 256 * p * q;
    }
    assert 0 <= r < 256 * p;
    QuotientIs(n, 256 * p, q, r);
  }

  lemma QuotientIs(n: int, d: int, q: int, r: int)
    requires n == d * q + r && 0 <= r < d
    ensures n / d == q
  {
    var k := n / d - q;
    assert d * k == r - n % d;
    assert k >= 1 ==> d * k >= d;
    assert k <= -1 ==> d * k <= -d;
  }

  function Int(n: nat): (r: bytes)
    ensures |r| == 8
  {
    LittleEndian(n, 8)
  }

  lemma IntRoundTrip(n: nat)
    requires n < TWO_64
    ensures FromLittleEndian(Int(n)) == n
  {
    assert Pow256(2) == 0x1_0000;
    assert Pow256(4) == 0x1_0000_0000;
    assert Pow256(6) == 0x1_0000_0000_0000;
    assert Pow256(8) == TWO_64;
    LittleEndianRoundTrip(n, 8);
  }

  function Str(s: bytes): bytes { Int(|s|) + s }

  // ----- reading: short reads leave the rest of the target as it was, which is zero -----

  function Available(s: bytes, pos: nat, n: nat): (m: nat)
    ensures m <= n && (pos < |s| ==> pos + m <= |s|) && (pos + n <= |s| ==> m == n)
    ensures pos < |s| && n > 0 ==> m > 0
  {
    if pos >= |s| then 0 else if |s| - pos < n then |s| - pos else n
  }

  function ReadInt(s: bytes, pos: nat): (int, nat) {
    var m := Available(s, pos, 8);
    (if m == 0 then 0 else FromLittleEndian(s[pos..pos + m]), pos + m)
  }

  datatype Result<T> = Ok(value: T) | Err(error: Error)
  {
    predicate IsFailure() { Err? }
    function PropagateFailure<U>(): Result<U> requires Err? { Err(error) }
    function Extract(): T requires Ok? { value }
  }

  datatype Error = TooLong | CannotParse | OutOfRange

  function ZeroBytes(n: nat): (z: bytes)
    ensures |z| == n
  {
    seq(n, _ => 0)
  }

  function ReadStr(s: bytes, pos: nat): (r: Result<(bytes, nat)>)
    ensures r.Ok? ==> r.value.1 >= pos && (pos < |s| ==> r.value.1 > pos)
  {
    var (len, p) := ReadInt(s, pos);
    if len < 0 || len > MAX_STRING then Err(TooLong)
    else
      var m := Available(s, p, len);
      Ok(((if m == 0 then [] else s[p..p + m]) + ZeroBytes(len - m), p + m))
  }

  // ----- writing: clamped to the buffer -----

  function Put(s: bytes, pos: nat, data: bytes): (r: bytes)
    ensures |r| == |s|
  {
    var m := Available(s, pos, |data|);
    if m == 0 then s else s[..pos] + data[..m] + s[pos + m..]
  }

  /** A write that fits leaves exactly the data after what was there. */
  lemma PutFits(s: bytes, pos: nat, data: bytes)
    requires pos + |data| <= |s|
    ensures Available(s, pos, |data|) == |data|
    ensures Put(s, pos, data)[..pos + |data|] == s[..pos] + data
  {
    if data == [] {
      assert s[..pos] + data == s[..pos];
    } else {
      assert data[..|data|] == data;
      var r := s[..pos] + data + s[pos + |data|..];
      assert r[..pos + |data|] == s[..pos] + data;
    }
  }

  /** Byte by byte, a write changes what it covers and nothing else; what does not fit is dropped. */
  lemma PutExactly(s: bytes, pos: nat, data: bytes, i: nat)
    requires i < |s|
    ensures Put(s, pos, data)[i] == if pos <= i < pos + |data| then data[i - pos] else s[i]
  {
  }

  // ----- a read at the end of the buffer -----

  /** The bytes at a position, zero behind the end. */
  function Padded(s: bytes, pos: nat, n: nat): bytes {
    seq(n, i requires 0 <= i < n => if pos + i < |s| then s[pos + i] else 0)
  }

  lemma {:induction false} TrailingZeros(b: bytes, n: nat)
    ensures FromLittleEndian(b + ZeroBytes(n)) == FromLittleEndian(b)
  {
    if b == [] {
      if n > 0 {
        TrailingZeros([], n - 1);
        assert ([] + ZeroBytes(n))[1..] == [] + ZeroBytes(n - 1);
      }
    } else {
      TrailingZeros(b[1..], n);
      assert (b + ZeroBytes(n))[1..] == b[1..] + ZeroBytes(n);
    }
  }

  /** An integer is read as if the buffer went on with zero bytes. */
  lemma ReadIntPadded(s: bytes, pos: nat)
    ensures ReadInt(s, pos).0 == FromLittleEndian(Padded(s, pos, 8))
  {
    var m := Available(s, pos, 8);
    var b := if m == 0 then [] else s[pos..pos + m];
    assert Padded(s, pos, 8) == b + ZeroBytes(8 - m);
    TrailingZeros(b, 8 - m);
  }

  /** So is a string, which always has the length its prefix gives, or is refused for that length. */
  lemma ReadStrPadded(s: bytes, pos: nat)
    ensures var (len, p) := ReadInt(s, pos); var r := ReadStr(s, pos);
      && (r.Ok? <==> 0 <= len <= MAX_STRING) && (!r.Ok? ==> r == Err(TooLong))
      && (r.Ok? ==> r.value.0 == Padded(s, p, len))
  {
    var (len, p) := ReadInt(s, pos);
    if 0 <= len <= MAX_STRING {
      var m := Available(s, p, len);
      var b := if m == 0 then [] else s[p..p + m];
      assert Padded(s, p, len) == b + ZeroBytes(len - m);
    }
  }

  // ----- what stands at a position -----

  ghost predicate Has(s: bytes, pos: nat, data: bytes) {
    pos + |data| <= |s| && s[pos..pos + |data|] == data
  }

  lemma HasParts(s: bytes, pos: nat, a: bytes, b: bytes)
    requires Has(s, pos, a + b)
    ensures Has(s, pos, a) && Has(s, pos + |a|, b)
  {
    SliceOfSlice(s, pos, pos + |a + b|, 0, |a|);
    SliceOfSlice(s, pos, pos + |a + b|, |a|, |a + b|);
    assert (a + b)[0..|a|] == a && (a + b)[|a|..|a + b|] == b;
  }

  lemma ReadIntAt(s: bytes, pos: nat, n: nat)
    requires Has(s, pos, Int(n)) && n < TWO_64
    ensures ReadInt(s, pos) == (n, pos + 8)
  {
    IntRoundTrip(n);
  }

  lemma ReadStrAt(s: bytes, pos: nat, v: bytes)
    requires Has(s, pos, Str(v)) && |v| <= MAX_STRING
    ensures ReadStr(s, pos) == Ok((v, pos + 8 + |v|))
  {
    HasParts(s, pos, Int(|v|), v);
    ReadIntAt(s, pos, |v|);
    assert ZeroBytes(0) == [];
    assert v + [] == v;
  }

  /** Reading an integer or a string off the front of what stands at a position. */
  lemma IntThen(s: bytes, pos: nat, n: nat, rest: bytes)
    requires Has(s, pos, Int(n) + rest) && n < TWO_64
    ensures var r := ReadInt(s, pos); r.0 == n && r.1 == pos + 8 && Has(s, r.1, rest)
  {
    HasParts(s, pos, Int(n), rest);
    ReadIntAt(s, pos, n);
  }

  lemma StrThen(s: bytes, pos: nat, v: bytes, rest: bytes)
    requires Has(s, pos, Str(v) + rest) && |v| <= MAX_STRING
    ensures var r := ReadStr(s, pos); r.Ok? && r.value.0 == v && r.value.1 == pos + 8 + |v| && Has(s, r.value.1, rest)
  {
    HasParts(s, pos, Str(v), rest);
    ReadStrAt(s, pos, v);
  }

  // ----- pairs -----

  function PairBytes(p: Pair): bytes { Str(p.0) + Str(p.1) }

  function ReadPair(s: bytes, pos: nat): (r: Result<(Pair, nat)>)
    ensures r.Ok? && pos < |s| ==> r.value.1 > pos
  {
    var (name, p1) :- ReadStr(s, pos);
    var (value, p2) :- ReadStr(s, p1);
    Ok(((name, value), p2))
  }

  lemma PairThen(s: bytes, pos: nat, p: Pair, rest: bytes)
    requires Has(s, pos, PairBytes(p) + rest) && |s| <= MAX_STRING
    ensures var r := ReadPair(s, pos);
      r.Ok? && r.value.0 == p && r.value.1 == pos + |PairBytes(p)| && Has(s, r.value.1, rest)
  {
    Assoc(Str(p.0), Str(p.1), rest);
    StrThen(s, pos, p.0, Str(p.1) + rest);
    StrThen(s, ReadStr(s, pos).value.1, p.1, rest);
  }

  function PairsBytes(ps: seq<Pair>): (r: bytes)
    ensures |r| == PairsSize(ps)
  {
    if ps == [] then [] else PairBytes(ps[0]) + PairsBytes(ps[1..])
  }

  function PairsSize(ps: seq<Pair>): nat {
    if ps == [] then 0 else |ps[0].0| + |ps[0].1| + 16 + PairsSize(ps[1..])
  }

  function Section(ps: seq<Pair>): bytes { Int(PairsSize(ps)) + PairsBytes(ps) }

  lemma {:induction false} PairsBytesAppend(a: seq<Pair>, p: Pair)
    ensures PairsBytes(a + [p]) == PairsBytes(a) + PairBytes(p)
    ensures PairsSize(a + [p]) == PairsSize(a) + |p.0| + |p.1| + 16
  {
    if a == [] {
      assert [p][1..] == [];
      assert PairBytes(p) + [] == PairBytes(p);
      assert a + [p] == [p];
    } else {
      PairsBytesAppend(a[1..], p);
      assert (a + [p])[1..] == a[1..] + [p];
      Assoc(PairBytes(a[0]), PairsBytes(a[1..]), PairBytes(p));
    }
  }
}
