/** Base64, section 4 of RFC 4648, with the 32-bit accumulator of the original. */
module Base64 {
  import opened Common
  import opened Bytes

  const TWO_32: int := 0x1_0000_0000
  const PAD: byte := 61

  datatype Result = Ok(value: seq<byte>) | LengthError | InvalidArgument

  type sextet = n: int | 0 <= n < 64

  function Letter(n: sextet): byte {
    if n < 26 then 65 + n else if n < 52 then 71 + n else if n < 62 then n - 4 else if n == 62 then 43 else 47
  }

  /** reverse_table: 64 for anything that is not a letter of the alphabet. */
  function Value(c: byte): (n: int)
    ensures 0 <= n <= 64
  {
    if 65 <= c <= 90 then c - 65 else if 97 <= c <= 122 then c - 71 else if 48 <= c <= 57 then c + 4
    else if c == 43 then 62 else if c == 47 then 63 else 64
  }

  // ----- encoding: three bytes to four letters -----

  function Block(a: byte, b: byte, c: byte): seq<sextet> {
    [a / 4, a % 4 * 16 + b / 16, b % 16 * 4 + c / 64, c % 64]
  }

  /** The sextets of a byte string from `i` on, the last one filled up with zero bits. */
  function Groups(s: seq<byte>, i: nat): seq<sextet>
    requires i <= |s|
    decreases |s| - i
  {
    if i == |s| then []
    else if i + 1 == |s| then [s[i] / 4, s[i] % 4 * 16]
    else if i + 2 == |s| then [s[i] / 4, s[i] % 4 * 16 + s[i + 1] / 16, s[i + 1] % 16 * 4]
    else Block(s[i], s[i + 1], s[i + 2]) + Groups(s, i + 3)
  }

  function Letters(g: seq<sextet>): (r: seq<byte>)
    ensures |r| == |g| && forall i :: 0 <= i < |g| ==> r[i] == Letter(g[i])
  {
    seq(|g|, i requires 0 <= i < |g| => Letter(g[i]))
  }

  function Pads(n: nat): (p: seq<byte>)
    ensures |p| == n && forall i :: 0 <= i < n ==> p[i] == PAD
  {
    seq(n, _ => PAD)
  }

  function PaddedLength(n: nat): nat { (n + 2) / 3 * 4 }

  lemma {:induction false} GroupsLength(s: seq<byte>, i: nat)
    requires i <= |s|
    ensures |Groups(s, i)| <= PaddedLength(|s| - i) < |Groups(s, i)| + 3
    decreases |s| - i
  {
    if i + 3 <= |s| {
      GroupsLength(s, i + 3);
    }
  }

  /** The encoding: four letters for each block of three bytes, padded to whole blocks. */
  function Encode(s: seq<byte>): (r: seq<byte>)
    ensures |r| == PaddedLength(|s|)
  {
    GroupsLength(s, 0);
    Letters(Groups(s, 0)) + Pads(PaddedLength(|s|) - |Groups(s, 0)|)
  }

  /** The size guard admits exactly the lengths whose padded length is a 64-bit number. */
  lemma GuardIsExact(n: nat)
    ensures n > (TWO_64 - 1) / 4 * 3 <==> PaddedLength(n) >= TWO_64
  {
  }

  // ----- encoding: bit by bit -----

  /** The sextets still to come from `i` on with no, two or four bits pending. */
  function Pending0(s: seq<byte>, i: nat): seq<sextet>
    requires i <= |s|
    decreases |s| - i
  {
    if i == |s| then [] else [s[i] / 4] + Pending2(s[i] % 4, s, i + 1)
  }

  function Pending2(low: int, s: seq<byte>, i: nat): seq<sextet>
    requires i <= |s| && 0 <= low < 4
    decreases |s| - i
  {
    if i == |s| then [low * 16] else [low * 16 + s[i] / 16] + Pending4(s[i] % 16, s, i + 1)
  }

  function Pending4(low: int, s: seq<byte>, i: nat): seq<sextet>
    requires i <= |s| && 0 <= low < 16
    decreases |s| - i
  {
    if i == |s| then [low * 4] else [low * 4 + s[i] / 64, s[i] % 64] + Pending0(s, i + 1)
  }

  /** Bit by bit and block by block, the sextets are the same. */
  lemma {:induction false} PendingIsGroups(s: seq<byte>, i: nat)
    requires i <= |s|
    ensures Pending0(s, i) == Groups(s, i)
    decreases |s| - i
  {
    if i + 3 <= |s| {
      PendingIsGroups(s, i + 3);
      var y, z := s[i + 1] % 16 * 4 + s[i + 2] / 64, s[i + 2] % 64;
      assert Pending4(s[i + 1] % 16, s, i + 2) == [y, z] + Pending0(s, i + 3);
    } else if i + 2 == |s| {
      assert Pending4(s[i + 1] % 16, s, i + 2) == [s[i + 1] % 16 * 4];
    }
  }

  // ----- the 32-bit accumulator loses nothing that is still needed -----

  function Append8(acc: int, c: byte): int { acc * 256 % TWO_32 + c }

  lemma Append8Low(acc: int, c: byte) returns (low: int)
    requires 0 <= acc < TWO_32
    ensures 0 <= low < 0x100_0000 && Append8(acc, c) == low * 256 + c && low % 16 == acc % 16
    ensures 0 <= Append8(acc, c) < TWO_32
  {
    var h := acc / 0x100_0000;
    low := acc % 0x100_0000;
    assert acc * 256 == h * TWO_32 + low * 256;
  }

  lemma Take2(acc: int, c: byte)
    requires 0 <= acc < TWO_32
    ensures var next := Append8(acc, c); next / 4 % 64 == c / 4 && next % 4 == c % 4
  {
    var low := Append8Low(acc, c);
    assert (low * 256 + c) / 4 == low * 64 + c / 4;
  }

  lemma Take4(acc: int, c: byte)
    requires 0 <= acc < TWO_32
    ensures var next := Append8(acc, c); next / 16 % 64 == acc % 4 * 16 + c / 16 && next % 16 == c % 16
  {
    var low := Append8Low(acc, c);
    var q, x := low / 4, acc % 4;
    assert low == 4 * q + x;
    var y := x * 256 + c;
    assert low * 256 + c == 1024 * q + y;
    assert y / 16 == x * 16 + c / 16;
    assert (1024 * q + y) / 16 == 64 * q + y / 16;
    LowSextet(q, y / 16);
    assert (16 * (64 * q + x * 16) + c) % 16 == c % 16;
  }

  lemma Take6(acc: int, c: byte)
    requires 0 <= acc < TWO_32
    ensures var next := Append8(acc, c); next / 64 % 64 == acc % 16 * 4 + c / 64 && next % 64 == c % 64
  {
    var low := Append8Low(acc, c);
    var q, x := low / 16, acc % 16;
    assert low == 16 * q + x;
    var y := x * 256 + c;
    assert low * 256 + c == 4096 * q + y;
    assert y / 64 == x * 4 + c / 64;
    assert (4096 * q + y) / 64 == 64 * q + y / 64;
    LowSextet(q, y / 64);
    assert (64 * (64 * q + x * 4) + c) % 64 == c % 64;
  }

  function Pending(bits: int, acc: int, s: seq<byte>, i: nat): seq<sextet>
    requires i <= |s|
  {
    if bits == 0 then Pending0(s, i) else if bits == 2 then Pending2(acc % 4, s, i) else Pending4(acc % 16, s, i)
  }

  function Power(bits: int): int { if bits == 2 then 4 else if bits == 4 then 16 else 64 }

  /** One byte of the loop: the sextets it yields and what stays pending. */
  lemma EncodeStep(bits: int, acc: int, s: seq<byte>, i: nat)
    requires i < |s| && (bits == 0 || bits == 2 || bits == 4) && 0 <= acc < TWO_32
    ensures var next := Append8(acc, s[i]);
      && 0 <= next < TWO_32
      && Pending(bits, acc, s, i) ==
        [next / Power(bits + 2) % 64] +
        (if bits == 4 then [next % 64] + Pending(0, next, s, i + 1) else Pending(bits + 2, next, s, i + 1))
  {
    var low := Append8Low(acc, s[i]);
    Take2(acc, s[i]);
    Take4(acc, s[i]);
    Take6(acc, s[i]);
  }

  ghost predicate Progress(done: seq<sextet>, bits: int, acc: int, s: seq<byte>, i: nat) {
    && i <= |s| && (bits == 0 || bits == 2 || bits == 4) && 0 <= acc < TWO_32
    && done + Pending(bits, acc, s, i) == Groups(s, 0)
  }

  lemma ProgressStep(done: seq<sextet>, bits: int, acc: int, s: seq<byte>, i: nat)
    requires Progress(done, bits, acc, s, i) && i < |s|
    ensures var next := Append8(acc, s[i]);
      var x := next / Power(bits + 2) % 64;
      if bits == 4 then Progress(done + [x] + [next % 64], 0, next, s, i + 1) && |done| + 2 <= |Groups(s, 0)|
      else Progress(done + [x], bits + 2, next, s, i + 1) && |done| + 1 <= |Groups(s, 0)|
  {
    EncodeStep(bits, acc, s, i);
    var next := Append8(acc, s[i]);
    var x: sextet := next / Power(bits + 2) % 64;
    if bits == 4 {
      Assoc(done, [x], [next % 64] + Pending(0, next, s, i + 1));
      Assoc(done + [x], [next % 64], Pending(0, next, s, i + 1));
    } else {
      Assoc(done, [x], Pending(bits + 2, next, s, i + 1));
    }
  }

  lemma ProgressEnd(done: seq<sextet>, bits: int, acc: int, s: seq<byte>)
    requires Progress(done, bits, acc, s, |s|)
    ensures bits == 0 ==> done == Groups(s, 0)
    ensures bits > 0 ==> done + [acc * (if bits == 2 then 16 else 4) % TWO_32 % 64] == Groups(s, 0)
  {
    if bits > 0 {
      LastSextet(bits, acc);
    }
  }

  method Put(retval: array<byte>, x: sextet, ghost done: seq<sextet>, outpos: nat) returns (next: nat)
    requires Written(retval[..], done) && outpos == |done| < retval.Length
    modifies retval
    ensures Written(retval[..], done + [x]) && next == outpos + 1
  {
    retval[outpos] := Letter(x);
    next := outpos + 1;
  }

  method Base64Encode(bindata: seq<byte>) returns (r: Result)
    ensures r == if PaddedLength(|bindata|) < TWO_64 then Ok(Encode(bindata)) else LengthError
  {
    GuardIsExact(|bindata|);
    if |bindata| > (TWO_64 - 1) / 4 * 3 {
      return LengthError;
    }
    var n := PaddedLength(|bindata|);
    var retval := new byte[n](_ => PAD);
    var outpos, bits, acc := 0, 0, 0;
    ghost var done: seq<sextet> := [];
    GroupsLength(bindata, 0);
    PendingIsGroups(bindata, 0);
    for i := 0 to |bindata|
      invariant Progress(done, bits, acc, bindata, i)
      invariant Written(retval[..], done) && outpos == |done|
    {
      ProgressStep(done, bits, acc, bindata, i);
      acc := Append8(acc, bindata[i]);
      bits := bits + 2;   // eight bits collected, six taken
      var x := acc / Power(bits) % 64;
      outpos := Put(retval, x, done, outpos);
      done := done + [x];
      if bits >= 6 {
        bits := bits - 6;
        outpos := Put(retval, acc % 64, done, outpos);
        done := done + [acc % 64];
      }
    }
    ProgressEnd(done, bits, acc, bindata);
    if bits > 0 {
      acc := acc * (if bits == 2 then 16 else 4) % TWO_32;
      outpos := Put(retval, acc % 64, done, outpos);
      done := done + [acc % 64];
    }
    assert retval[..] == Encode(bindata);
    r := Ok(retval[..]);
  }

  /** The letters so far, and padding in the rest of the result. */
  ghost predicate Written(r: seq<byte>, done: seq<sextet>) {
    && |done| <= |r|
    && (forall k :: 0 <= k < |done| ==> r[k] == Letter(done[k]))
    && (forall k :: |done| <= k < |r| ==> r[k] == PAD)
  }

  lemma LastSextet(bits: int, acc: int)
    requires (bits == 2 || bits == 4) && 0 <= acc < TWO_32
    ensures bits == 2 ==> acc * 16 % TWO_32 % 64 == acc % 4 * 16
    ensures bits == 4 ==> acc * 4 % TWO_32 % 64 == acc % 16 * 4
  {
    if bits == 2 {
      WrapKeepsSextet(acc * 16);
      LowSextet(acc / 4, acc % 4 * 16);
      assert acc * 16 == 64 * (acc / 4) + acc % 4 * 16;
    } else {
      WrapKeepsSextet(acc * 4);
      LowSextet(acc / 16, acc % 16 * 4);
      assert acc * 4 == 64 * (acc / 16) + acc % 16 * 4;
    }
  }

  lemma LowSextet(q: int, y: sextet)
    ensures (64 * q + y) % 64 == y
  {
  }

  lemma WrapKeepsSextet(x: int)
    requires 0 <= x
    ensures x % TWO_32 % 64 == x % 64
  {
    var h, r := x / TWO_32, x % TWO_32;
    assert x == 64 * (0x400_0000 * h) + r;
    assert r == 64 * (r / 64) + r % 64;
    LowSextet(0x400_0000 * h + r / 64, r % 64);
  }

  // ----- decoding -----

  predicate Skipped(c: byte) { IsSpace(c) || c == PAD }

  function Emit(b: byte, r: Result): Result {
    if r.Ok? then Ok([b] + r.value) else r
  }

  /** The bytes still to come from `i` on with none, six, four or two bits pending. */
  function Decode0(s: seq<byte>, i: nat): Result
    requires i <= |s|
    decreases |s| - i
  {
    if i == |s| then Ok([])
    else if Skipped(s[i]) then Decode0(s, i + 1)
    else if Value(s[i]) > 63 then InvalidArgument
    else Decode6(Value(s[i]), s, i + 1)
  }

  function Decode6(low: int, s: seq<byte>, i: nat): Result
    requires i <= |s| && 0 <= low < 64
    decreases |s| - i
  {
    if i == |s| then Ok([])
    else if Skipped(s[i]) then Decode6(low, s, i + 1)
    else if Value(s[i]) > 63 then InvalidArgument
    else Emit(low * 4 + Value(s[i]) / 16, Decode4(Value(s[i]) % 16, s, i + 1))
  }

  function Decode4(low: int, s: seq<byte>, i: nat): Result
    requires i <= |s| && 0 <= low < 16
    decreases |s| - i
  {
    if i == |s| then Ok([])
    else if Skipped(s[i]) then Decode4(low, s, i + 1)
    else if Value(s[i]) > 63 then InvalidArgument
    else Emit(low * 16 + Value(s[i]) / 4, Decode2(Value(s[i]) % 4, s, i + 1))
  }

  function Decode2(low: int, s: seq<byte>, i: nat): Result
    requires i <= |s| && 0 <= low < 4
    decreases |s| - i
  {
    if i == |s| then Ok([])
    else if Skipped(s[i]) then Decode2(low, s, i + 1)
    else if Value(s[i]) > 63 then InvalidArgument
    else Emit(low * 64 + Value(s[i]), Decode0(s, i + 1))
  }

  function Decode(s: seq<byte>): Result { Decode0(s, 0) }

  function Append6(acc: int, x: sextet): int { acc * 64 % TWO_32 + x }

  lemma Append6Low(acc: int, x: sextet) returns (low: int)
    requires 0 <= acc < TWO_32
    ensures 0 <= low < 0x400_0000 && Append6(acc, x) == low * 64 + x
    ensures low % 64 == acc % 64 && low % 16 == acc % 16 && low % 4 == acc % 4
    ensures 0 <= Append6(acc, x) < TWO_32
  {
    var h := acc / 0x400_0000;
    low := acc % 0x400_0000;
    assert acc * 64 == h * TWO_32 + low * 64;
  }

  /** What six more bits make of the pending ones, whatever the accumulator still holds above them. */
  lemma Append6Takes(acc: int, x: sextet)
    requires 0 <= acc < TWO_32
    ensures var next := Append6(acc, x);
      && 0 <= next < TWO_32 && next % 64 == x && next % 16 == x % 16 && next % 4 == x % 4
      && next / 16 % 256 == acc % 64 * 4 + x / 16
      && next / 4 % 256 == acc % 16 * 16 + x / 4
      && next % 256 == acc % 4 * 64 + x
  {
    var low := Append6Low(acc, x);
    Split16(low, x);
    Split4(low, x);
    Split1(low, x);
  }

  lemma Split16(low: int, x: sextet)
    requires 0 <= low
    ensures (low * 64 + x) / 16 % 256 == low % 64 * 4 + x / 16 && (low * 64 + x) % 16 == x % 16
  {
    var q, r := low / 64, low % 64;
    assert low * 64 + x == 16 * (256 * q + r * 4) + x;
    assert (low * 64 + x) / 16 == 256 * q + (r * 4 + x / 16);
    LowByte(q, r * 4 + x / 16);
  }

  lemma Split4(low: int, x: sextet)
    requires 0 <= low
    ensures (low * 64 + x) / 4 % 256 == low % 16 * 16 + x / 4 && (low * 64 + x) % 4 == x % 4
  {
    var q, r := low / 16, low % 16;
    assert low * 64 + x == 4 * (256 * q + r * 16) + x;
    assert (low * 64 + x) / 4 == 256 * q + (r * 16 + x / 4);
    LowByte(q, r * 16 + x / 4);
  }

  lemma Split1(low: int, x: sextet)
    requires 0 <= low
    ensures (low * 64 + x) % 256 == low % 4 * 64 + x && (low * 64 + x) % 64 == x
  {
    var q, r := low / 4, low % 4;
    assert low * 64 + x == 256 * q + (r * 64 + x);
    LowByte(q, r * 64 + x);
    LowSextet(low, x);
  }

  lemma LowByte(q: int, y: byte)
    ensures (256 * q + y) % 256 == y
  {
  }

  function Later(bits: int, acc: int, s: seq<byte>, i: nat): Result
    requires i <= |s|
  {
    if bits == 0 then Decode0(s, i) else if bits == 6 then Decode6(acc % 64, s, i)
    else if bits == 4 then Decode4(acc % 16, s, i) else Decode2(acc % 4, s, i)
  }

  lemma DecodeStep(bits: int, acc: int, s: seq<byte>, i: nat)
    requires i < |s| && (bits == 0 || bits == 2 || bits == 4 || bits == 6) && 0 <= acc < TWO_32
    requires !Skipped(s[i]) && Value(s[i]) <= 63
    ensures var next := Append6(acc, Value(s[i]));
      && 0 <= next < TWO_32
      && Later(bits, acc, s, i) ==
        (if bits == 0 then Later(6, next, s, i + 1)
         else Emit(next / (if bits == 6 then 16 else if bits == 4 then 4 else 1) % 256, Later(bits - 2, next, s, i + 1)))
  {
    Append6Takes(acc, Value(s[i]));
  }

  function Prepend(done: seq<byte>, r: Result): Result {
    if r.Ok? then Ok(done + r.value) else r
  }

  lemma PrependEmit(done: seq<byte>, b: byte, r: Result)
    ensures Prepend(done, Emit(b, r)) == Prepend(done + [b], r)
  {
    if r.Ok? {
      Assoc(done, [b], r.value);
    }
  }

  method Base64Decode(ascdata: seq<byte>) returns (r: Result)
    ensures r == Decode(ascdata)
  {
    var retval: seq<byte>, bits, acc := [], 0, 0;
    for i := 0 to |ascdata|
      invariant (bits == 0 || bits == 2 || bits == 4 || bits == 6) && 0 <= acc < TWO_32
      invariant Prepend(retval, Later(bits, acc, ascdata, i)) == Decode(ascdata)
    {
      var c := ascdata[i];
      if Skipped(c) {
        continue;
      }
      if c > 127 || Value(c) > 63 {
        return InvalidArgument;
      }
      DecodeStep(bits, acc, ascdata, i);
      acc := Append6(acc, Value(c));
      bits := bits + 6;
      if bits >= 8 {
        bits := bits - 8;
        var b := acc / (if bits == 4 then 16 else if bits == 2 then 4 else 1) % 256;
        PrependEmit(retval, b, Later(bits, acc, ascdata, i + 1));
        retval := retval + [b];
      }
    }
    r := Ok(retval);
  }

  // ----- round trip -----

  lemma ValueOfLetter(n: sextet)
    ensures Value(Letter(n)) == n && !Skipped(Letter(n))
  {
  }

  /** Nothing but padding left: nothing more to decode. */
  lemma {:induction false} DecodePads(e: seq<byte>, k: nat)
    requires k <= |e| && forall j :: k <= j < |e| ==> e[j] == PAD
    ensures Decode0(e, k) == Ok([])
    ensures forall low :: 0 <= low < 16 ==> Decode4(low, e, k) == Ok([])
    ensures forall low :: 0 <= low < 4 ==> Decode2(low, e, k) == Ok([])
    decreases |e| - k
  {
    if k < |e| {
      DecodePads(e, k + 1);
    }
  }

  /** From `k` on, `e` is the letters of the sextets `g` and then padding. */
  ghost predicate Spells(e: seq<byte>, k: nat, g: seq<sextet>) {
    && k + |g| <= |e|
    && (forall j :: 0 <= j < |g| ==> e[k + j] == Letter(g[j]))
    && (forall j :: k + |g| <= j < |e| ==> e[j] == PAD)
  }

  function Byte1(w: sextet, x: sextet): byte { w as int * 4 + x as int / 16 }
  function Byte2(x: sextet, y: sextet): byte { x as int % 16 * 16 + y as int / 4 }
  function Byte3(y: sextet, z: sextet): byte { y as int % 4 * 64 + z as int }

  lemma Letter0(e: seq<byte>, k: nat, x: sextet)
    requires k < |e| && e[k] == Letter(x)
    ensures Decode0(e, k) == Decode6(x, e, k + 1)
  {
    ValueOfLetter(x);
  }

  lemma Letter6(e: seq<byte>, k: nat, low: sextet, x: sextet)
    requires k < |e| && e[k] == Letter(x)
    ensures Decode6(low, e, k) == Emit(Byte1(low, x), Decode4(x % 16, e, k + 1))
  {
    ValueOfLetter(x);
  }

  lemma Letter4(e: seq<byte>, k: nat, w: sextet, x: sextet)
    requires k < |e| && e[k] == Letter(x)
    ensures Decode4(w % 16, e, k) == Emit(Byte2(w, x), Decode2(x % 4, e, k + 1))
  {
    ValueOfLetter(x);
  }

  lemma Letter2(e: seq<byte>, k: nat, w: sextet, x: sextet)
    requires k < |e| && e[k] == Letter(x)
    ensures Decode2(w % 4, e, k) == Emit(Byte3(w, x), Decode0(e, k + 1))
  {
    ValueOfLetter(x);
  }

  /** Cutting three bytes into sextets and joining them again. */
  lemma CutAndJoin(a: byte, b: byte, c: byte)
    ensures var g := Block(a, b, c);
      Byte1(g[0], g[1]) == a && Byte2(g[1], g[2]) == b && Byte3(g[2], g[3]) == c
  {
    assert (a % 4 * 16 + b / 16) / 16 == a % 4 && (a % 4 * 16 + b / 16) % 16 == b / 16;
    assert (b % 16 * 4 + c / 64) / 4 == b % 16 && (b % 16 * 4 + c / 64) % 4 == c / 64;
  }

  lemma DecodeOne(e: seq<byte>, k: nat, a: byte)
    requires Spells(e, k, [a / 4, a % 4 * 16])
    ensures Decode0(e, k) == Ok([a])
  {
    var g: seq<sextet> := [a / 4, a % 4 * 16];
    assert e[k + 0] == Letter(g[0]) && e[k + 1] == Letter(g[1]);
    DecodePads(e, k + 2);
    assert Decode4(g[1] % 16, e, k + 2) == Ok([]);
    assert Byte1(g[0], g[1]) == a by { assert a % 4 * 16 / 16 == a % 4; }
    Letter0(e, k, g[0]);
    Letter6(e, k + 1, g[0], g[1]);
  }

  lemma DecodeTwo(e: seq<byte>, k: nat, a: byte, b: byte)
    requires Spells(e, k, [a / 4, a % 4 * 16 + b / 16, b % 16 * 4])
    ensures Decode0(e, k) == Ok([a, b])
  {
    var g: seq<sextet> := [a / 4, a % 4 * 16 + b / 16, b % 16 * 4];
    assert e[k + 0] == Letter(g[0]) && e[k + 1] == Letter(g[1]) && e[k + 2] == Letter(g[2]);
    DecodePads(e, k + 3);
    CutAndJoin(a, b, 0);
    Letter0(e, k, g[0]);
    Letter6(e, k + 1, g[0], g[1]);
    Letter4(e, k + 2, g[1], g[2]);
    assert Decode4(g[1] % 16, e, k + 2) == Emit(b, Ok([]));
  }

  lemma SpellsBlock(e: seq<byte>, k: nat, block: seq<sextet>, rest: seq<sextet>)
    requires |block| == 4 && Spells(e, k, block + rest)
    ensures k + 4 <= |e| && e[k] == Letter(block[0]) && e[k + 1] == Letter(block[1])
    ensures e[k + 2] == Letter(block[2]) && e[k + 3] == Letter(block[3])
    ensures Spells(e, k + 4, rest)
  {
    var g := block + rest;
    assert e[k + 0] == Letter(g[0]) && e[k + 1] == Letter(g[1]) && e[k + 2] == Letter(g[2]) && e[k + 3] == Letter(g[3]);
    forall j | 0 <= j < |rest|
      ensures e[k + 4 + j] == Letter(rest[j])
    {
      assert e[k + (j + 4)] == Letter(g[j + 4]);
    }
  }

  lemma DecodeThree(e: seq<byte>, k: nat, a: byte, b: byte, c: byte, rest: seq<sextet>)
    requires Spells(e, k, Block(a, b, c) + rest)
    ensures Spells(e, k + 4, rest) && Decode0(e, k) == Emit(a, Emit(b, Emit(c, Decode0(e, k + 4))))
  {
    var g := Block(a, b, c);
    CutAndJoin(a, b, c);
    SpellsBlock(e, k, g, rest);
    Letter0(e, k, g[0]);
    Letter6(e, k + 1, g[0], g[1]);
    Letter4(e, k + 2, g[1], g[2]);
    Letter2(e, k + 3, g[2], g[3]);
  }

  lemma {:induction false} DecodeSpelled(s: seq<byte>, i: nat, e: seq<byte>, k: nat)
    requires i <= |s| && Spells(e, k, Groups(s, i))
    ensures Decode0(e, k) == Ok(s[i..])
    decreases |s| - i
  {
    if i == |s| {
      DecodePads(e, k);
    } else if |s| == i + 1 {
      DecodeOne(e, k, s[i]);
      assert s[i..] == [s[i]];
    } else if |s| == i + 2 {
      DecodeTwo(e, k, s[i], s[i + 1]);
      assert s[i..] == [s[i], s[i + 1]];
    } else {
      var block, rest := Block(s[i], s[i + 1], s[i + 2]), Groups(s, i + 3);
      DecodeThree(e, k, s[i], s[i + 1], s[i + 2], rest);
      DecodeSpelled(s, i + 3, e, k + 4);
      assert s[i..] == [s[i]] + ([s[i + 1]] + ([s[i + 2]] + s[i + 3..]));
    }
  }

  /** Decoding an encoding gives back every byte string, of any length. */
  lemma DecodeEncode(s: seq<byte>)
    ensures Decode(Encode(s)) == Ok(s)
  {
    GroupsLength(s, 0);
    DecodeSpelled(s, 0, Encode(s), 0);
    assert s[0..] == s;
  }

  // ----- the alphabet and the blocks, in the words of the standard -----

  const ALPHABET: string := UPPER + LOWER + DIGITS + "+/"

  lemma UpperLetters(n: sextet)
    requires n < 26
    ensures UPPER[n] as int == Letter(n)
  {
  }

  lemma LowerLetters(n: sextet)
    requires 26 <= n < 52
    ensures LOWER[n - 26] as int == Letter(n)
  {
  }

  lemma DigitLetters(n: sextet)
    requires 52 <= n < 62
    ensures DIGITS[n - 52] as int == Letter(n)
  {
  }

  /** The letter of a sextet is the one at that place of the alphabet. */
  lemma LetterOf(n: sextet)
    ensures |ALPHABET| == 64 && ALPHABET[n] as int == Letter(n)
  {
    if n < 26 {
      UpperLetters(n);
    } else if n < 52 {
      LowerLetters(n);
    } else if n < 62 {
      DigitLetters(n);
    }
  }

  lemma LetterOfValue(c: byte)
    requires Value(c) <= 63
    ensures Letter(Value(c)) == c
  {
  }

  /** A byte is legal exactly if it is in the alphabet, and then its value is its place there. */
  lemma ValueOf(c: byte)
    ensures Value(c) <= 63 <==> c as char in ALPHABET
    ensures |ALPHABET| == 64 && (Value(c) <= 63 ==> ALPHABET[Value(c)] == c as char)
  {
    if Value(c) <= 63 {
      LetterOfValue(c);
      LetterOf(Value(c));
    } else if c as char in ALPHABET {
      var n :| 0 <= n < |ALPHABET| && ALPHABET[n] == c as char;
      LetterOf(0);
      LetterOf(n);
      ValueOfLetter(n);
    }
  }

  lemma {:induction false} GroupsFrom(s: seq<byte>, j: nat)
    requires 3 * j <= |s|
    ensures 4 * j <= |Groups(s, 0)| && Groups(s, 0)[4 * j..] == Groups(s, 3 * j)
  {
    if j > 0 {
      GroupsFrom(s, j - 1);
      var i := 3 * (j - 1);
      assert Groups(s, i)[4..] == Groups(s, i + 3);
      assert Groups(s, 0)[4 * (j - 1)..][4..] == Groups(s, 0)[4 * j..];
    }
  }

  /** From `k` on, `e` holds the letters at the places `g` of the alphabet. */
  ghost predicate Digits(e: seq<byte>, k: nat, g: seq<sextet>) {
    k + |g| <= |e| && |ALPHABET| == 64 && forall i :: 0 <= i < |g| ==> e[k + i] as char == ALPHABET[g[i]]
  }

  /** The number that `digits` write in the given base. */
  function Number(base: int, digits: seq<int>): int {
    if digits == [] then 0 else Number(base, digits[..|digits| - 1]) * base + digits[|digits| - 1]
  }

  lemma ShortNumbers(base: int, w: int, x: int, y: int, z: int)
    ensures Number(base, [w]) == w && Number(base, [w, x]) == w * base + x
    ensures Number(base, [w, x, y]) == (w * base + x) * base + y
    ensures Number(base, [w, x, y, z]) == ((w * base + x) * base + y) * base + z
  {
    var none: seq<int> := [];
    assert [w][..0] == none && [w, x][..1] == [w] && [w, x, y][..2] == [w, x] && [w, x, y, z][..3] == [w, x, y];
  }

  lemma BlockNumber(a: byte, b: byte, c: byte)
    ensures Number(64, Block(a, b, c)) == Number(256, [a, b, c])
    ensures Number(64, [a / 4, a % 4 * 16 + b / 16, b % 16 * 4]) == Number(256, [a, b]) * 4
    ensures Number(64, [a / 4, a % 4 * 16]) == Number(256, [a]) * 16
  {
    ShortNumbers(256, a, b, c, 0);
    ShortNumbers(64, a / 4, a % 4 * 16 + b / 16, b % 16 * 4 + c / 64, c % 64);
    ShortNumbers(64, a / 4, a % 4 * 16 + b / 16, b % 16 * 4, 0);
    ShortNumbers(64, a / 4, a % 4 * 16, 0, 0);
  }

  lemma DigitsFrom(s: seq<byte>, j: nat, n: nat)
    requires 3 * j <= |s| && n <= |Groups(s, 3 * j)|
    ensures Digits(Encode(s), 4 * j, Groups(s, 3 * j)[..n])
  {
    GroupsFrom(s, j);
    GroupsLength(s, 0);
    LetterOf(0);
    var g := Groups(s, 3 * j);
    forall i | 0 <= i < n
      ensures Encode(s)[4 * j + i] as char == ALPHABET[g[i]]
    {
      assert Groups(s, 0)[4 * j..][i] == Groups(s, 0)[4 * j + i];
      LetterOf(g[i]);
    }
  }

  /** Three bytes are a number of 24 bits, written as four letters. */
  lemma BlockEncoded(s: seq<byte>, j: nat) returns (g: seq<sextet>)
    requires 3 * j + 3 <= |s|
    ensures |g| == 4 && Digits(Encode(s), 4 * j, g) && Number(64, g) == Number(256, s[3 * j..3 * j + 3])
  {
    var a, b, c := s[3 * j], s[3 * j + 1], s[3 * j + 2];
    g := Block(a, b, c);
    assert Groups(s, 3 * j) == g + Groups(s, 3 * j + 3);
    DigitsFrom(s, j, 4);
    assert Groups(s, 3 * j)[..4] == g;
    BlockNumber(a, b, c);
    assert s[3 * j..3 * j + 3] == [a, b, c];
  }

  /**
   One or two bytes that are left are written as one letter more than they are: their bits, then four or two zero
   bits. Padding fills up the block.
   */
  lemma LastEncoded(s: seq<byte>) returns (g: seq<sextet>)
    requires |s| % 3 != 0
    ensures var e, n := Encode(s), |s| / 3;
      && |g| == |s| % 3 + 1 && |e| == 4 * n + 4 && Digits(e, 4 * n, g)
      && (forall k :: 4 * n + |g| <= k < |e| ==> e[k] as char == '=')
      && Number(64, g) == Number(256, s[3 * n..]) * (if |g| == 2 then 16 else 4)
  {
    var n := |s| / 3;
    g := Groups(s, 3 * n);
    LastNumber(s);
    LastPadded(s);
    DigitsFrom(s, n, |g|);
    assert g[..|g|] == g;
  }

  lemma LastPadded(s: seq<byte>)
    requires |s| % 3 != 0 && |Groups(s, |s| / 3 * 3)| == |s| % 3 + 1
    ensures var e, n := Encode(s), |s| / 3;
      |e| == 4 * n + 4 && forall k :: 4 * n + |s| % 3 + 1 <= k < |e| ==> e[k] as char == '='
  {
    var n := |s| / 3;
    GroupsFrom(s, n);
    GroupsLength(s, 0);
    assert |Groups(s, 0)[4 * n..]| == |s| % 3 + 1;
  }

  lemma LastNumber(s: seq<byte>)
    requires |s| % 3 != 0
    ensures var n := |s| / 3; var g := Groups(s, 3 * n);
      |g| == |s| % 3 + 1 && Number(64, g) == Number(256, s[3 * n..]) * (if |g| == 2 then 16 else 4)
  {
    var n := |s| / 3;
    if |s| == 3 * n + 1 {
      BlockNumber(s[3 * n], 0, 0);
      assert s[3 * n..] == [s[3 * n]];
    } else {
      BlockNumber(s[3 * n], s[3 * n + 1], 0);
      assert s[3 * n..] == [s[3 * n], s[3 * n + 1]];
    }
  }

  // ----- white space and padding may stand anywhere -----

  /** The bytes from `i` on that are not skipped. */
  function Kept(e: seq<byte>, i: nat): seq<byte>
    requires i <= |e|
    decreases |e| - i
  {
    if i == |e| then [] else if Skipped(e[i]) then Kept(e, i + 1) else [e[i]] + Kept(e, i + 1)
  }

  ghost predicate SameFrom(e: seq<byte>, i: nat, k: seq<byte>, m: nat)
    requires i <= |e| && m <= |k|
  {
    && Decode0(e, i) == Decode0(k, m)
    && (forall low :: 0 <= low < 64 ==> Decode6(low, e, i) == Decode6(low, k, m))
    && (forall low :: 0 <= low < 16 ==> Decode4(low, e, i) == Decode4(low, k, m))
    && (forall low :: 0 <= low < 4 ==> Decode2(low, e, i) == Decode2(low, k, m))
  }

  lemma {:induction false} OnlyKeptCounts(e: seq<byte>, i: nat, k: seq<byte>, m: nat)
    requires i <= |e| && m <= |k| && k[m..] == Kept(e, i) && forall j :: 0 <= j < |k| ==> !Skipped(k[j])
    ensures SameFrom(e, i, k, m)
    decreases |e| - i
  {
    if i < |e| {
      if Skipped(e[i]) {
        OnlyKeptCounts(e, i + 1, k, m);
      } else {
        assert k[m..][0] == k[m] && k[m..][1..] == k[m + 1..];
        OnlyKeptCounts(e, i + 1, k, m + 1);
      }
    }
  }

  lemma {:induction false} KeptUnskipped(e: seq<byte>, i: nat)
    requires i <= |e|
    ensures forall j :: 0 <= j < |Kept(e, i)| ==> !Skipped(Kept(e, i)[j])
    decreases |e| - i
  {
    if i < |e| {
      KeptUnskipped(e, i + 1);
    }
  }

  /** Two texts with the same letters are decoded alike, so every text with the letters of an encoding is decoded. */
  lemma SpacingIgnored(e: seq<byte>, s: seq<byte>)
    requires Kept(e, 0) == Kept(Encode(s), 0)
    ensures Decode(e) == Ok(s)
  {
    var k := Kept(e, 0);
    KeptUnskipped(e, 0);
    assert k[0..] == k;
    OnlyKeptCounts(e, 0, k, 0);
    OnlyKeptCounts(Encode(s), 0, k, 0);
    DecodeEncode(s);
  }

  ghost predicate Legal(e: seq<byte>, i: nat) {
    forall j :: i <= j < |e| ==> Skipped(e[j]) || e[j] as char in ALPHABET
  }

  ghost predicate Judged(r: Result, legal: bool) {
    if legal then r.Ok? else r == InvalidArgument
  }

  lemma {:induction false} JudgedFrom(e: seq<byte>, i: nat)
    requires i <= |e|
    ensures Judged(Decode0(e, i), Legal(e, i))
    ensures forall low :: 0 <= low < 64 ==> Judged(Decode6(low, e, i), Legal(e, i))
    ensures forall low :: 0 <= low < 16 ==> Judged(Decode4(low, e, i), Legal(e, i))
    ensures forall low :: 0 <= low < 4 ==> Judged(Decode2(low, e, i), Legal(e, i))
    decreases |e| - i
  {
    if i < |e| {
      JudgedFrom(e, i + 1);
      ValueOf(e[i]);
      assert Legal(e, i) <==> (Skipped(e[i]) || e[i] as char in ALPHABET) && Legal(e, i + 1);
    }
  }

  /** A text is rejected exactly if it holds a byte that is neither a letter, white space nor padding. */
  lemma RejectsExactlyForeign(e: seq<byte>)
    ensures Decode(e).Ok? <==> forall j :: 0 <= j < |e| ==> Skipped(e[j]) || e[j] as char in ALPHABET
    ensures !Decode(e).Ok? ==> Decode(e) == InvalidArgument
  {
    JudgedFrom(e, 0);
    assert Legal(e, 0) <==> forall j :: 0 <= j < |e| ==> Skipped(e[j]) || e[j] as char in ALPHABET;
  }
}
