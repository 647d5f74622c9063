/** Percent-encoding and query strings. */
module UrlCodec {
  import opened Common
  import opened Bytes

  type bytes = seq<byte>

  const PERCENT: byte := 37
  const PLUS: byte := 43
  const SPACE: byte := 32
  const AMP: byte := 38
  const EQUALS: byte := 61

  predicate IsAlnum(c: byte) {
    48 <= c <= 57 || 65 <= c <= 90 || 97 <= c <= 122
  }

  /** The marks - _ . ! ~ * ( ) ' of section 2.3 of RFC 2396. */
  predicate IsMark(c: byte) {
    c == 45 || c == 95 || c == 46 || c == 33 || c == 126 || c == 42 || c == 40 || c == 41 || c == 39
  }

  function HexDigit(n: int): byte
    requires 0 <= n < 16
  {
    if n > 9 then n + 55 else n + 48
  }

  function EncodeByte(c: byte): bytes {
    if IsAlnum(c) || IsMark(c) then [c] else [PERCENT, HexDigit(c / 16), HexDigit(c % 16)]
  }

  function Encode(s: bytes): bytes {
    if s == [] then [] else EncodeByte(s[0]) + Encode(s[1..])
  }

  /**
   The value urldecode gives a digit. A letter loses bit 5; anything else, including bytes from 128 up,
   which are negative as char, is taken relative to '0'. Only the value modulo 256 matters.
   */
  function DigitValue(c: byte): int {
    if 96 <= c < 128 then c - 87 else if 65 <= c < 96 then c - 55 else c - 48
  }

  function Escaped(f: byte, s: byte): byte {
    (DigitValue(f) * 16 + DigitValue(s)) % 256
  }

  function Decode(s: bytes): bytes {
    if s == [] then []
    else if s[0] == PLUS then [SPACE] + Decode(s[1..])
    else if s[0] == PERCENT && |s| > 2 then [Escaped(s[1], s[2])] + Decode(s[3..])
    else [s[0]] + Decode(s[1..])
  }

  // ----- every spelling -----

  /** `d` is the hexadecimal digit of value `n`, in either case. */
  predicate IsHexDigit(d: byte, n: int)
    requires 0 <= n < 16
  {
    d as char == "0123456789ABCDEF"[n] || d as char == "0123456789abcdef"[n]
  }

  /** One way to write the byte `c`: as itself, a space as a plus sign, or any byte as an escape. */
  predicate SpellsByte(t: bytes, c: byte) {
    || (t == [c] && c != PERCENT && c != PLUS)
    || (t == [PLUS] && c == SPACE)
    || (|t| == 3 && t[0] == PERCENT && IsHexDigit(t[1], c / 16) && IsHexDigit(t[2], c % 16))
  }

  /** `text` is one of the ways to write `s`. */
  predicate Spells(text: bytes, s: bytes) {
    if s == [] then text == []
    else
      || (|text| >= 1 && SpellsByte(text[..1], s[0]) && Spells(text[1..], s[1..]))
      || (|text| >= 3 && SpellsByte(text[..3], s[0]) && Spells(text[3..], s[1..]))
  }

  lemma HexDigitValue(d: byte, n: int)
    requires 0 <= n < 16 && IsHexDigit(d, n)
    ensures DigitValue(d) == n
  {
  }

  lemma DecodeByte(t: bytes, c: byte, rest: bytes)
    requires SpellsByte(t, c)
    ensures Decode(t + rest) == [c] + Decode(rest)
  {
    var s := t + rest;
    if |t| == 1 {
      assert s[1..] == rest;
    } else {
      HexDigitValue(t[1], c / 16);
      HexDigitValue(t[2], c % 16);
      assert s[3..] == rest;
    }
  }

  /** The first byte of `s` is written in the first `n` bytes of `text`. */
  lemma SpelledFirst(text: bytes, s: bytes) returns (n: nat)
    requires Spells(text, s) && s != []
    ensures 0 < n <= |text| && SpellsByte(text[..n], s[0]) && Spells(text[n..], s[1..])
  {
    n := if SpellsByte(text[..1], s[0]) && Spells(text[1..], s[1..]) then 1 else 3;
  }

  /** Whichever way a client writes a byte string, it is decoded, whatever follows. */
  lemma {:induction false} DecodeSpelled(text: bytes, s: bytes, rest: bytes)
    requires Spells(text, s)
    ensures Decode(text + rest) == s + Decode(rest)
    decreases |s|
  {
    if s == [] {
      assert text + rest == rest;
    } else {
      var n := SpelledFirst(text, s);
      var first, more := text[..n], text[n..];
      DecodeSpelled(more, s[1..], rest);
      DecodeByte(first, s[0], more + rest);
      Assoc(first, more, rest);
      Assoc([s[0]], s[1..], Decode(rest));
      assert first + more == text && [s[0]] + s[1..] == s;
    }
  }

  lemma DecodeAnySpelling(text: bytes, s: bytes)
    requires Spells(text, s)
    ensures Decode(text) == s
  {
    DecodeSpelled(text, s, []);
    assert text + [] == text && s + Decode([]) == s;
  }

  /** A percent sign with fewer than two bytes behind it stands for itself. */
  lemma DecodeCutOff(text: bytes, s: bytes, x: byte)
    requires Spells(text, s)
    ensures Decode(text + [PERCENT]) == s + [PERCENT]
    ensures Decode(text + [PERCENT, x]) == s + [PERCENT, if x == PLUS then SPACE else x]
  {
    DecodeSpelled(text, s, [PERCENT]);
    DecodeSpelled(text, s, [PERCENT, x]);
    assert [x][1..] == [] && Decode([]) == [];
    assert Decode([x]) == [if x == PLUS then SPACE else x];
    assert [PERCENT, x][1..] == [x] && [PERCENT][1..] == [];
  }

  // ----- round trip -----

  const MARKS: string := "-_.!~*()'"

  predicate Literal(c: byte) {
    c as char in DIGITS || c as char in UPPER || c as char in LOWER || c as char in MARKS
  }

  lemma MarkBytes(c: byte)
    ensures c as char in MARKS <==> IsMark(c)
  {
  }

  lemma {:induction false} EncodeParts(a: bytes, b: bytes)
    ensures Encode(a + b) == Encode(a) + Encode(b)
  {
    if a == [] {
      assert a + b == b;
    } else {
      assert (a + b)[1..] == a[1..] + b;
      EncodeParts(a[1..], b);
    }
  }

  lemma EncodeOne(c: byte)
    ensures Encode([c]) == EncodeByte(c)
  {
    assert [c][1..] == [] && Encode([]) == [];
  }

  lemma HexDigitOf(n: int)
    requires 0 <= n < 16
    ensures HexDigit(n) == "0123456789ABCDEF"[n] as int
  {
  }

  /** Encoding goes byte by byte: listed bytes stay, every other one is an escape with upper-case digits. */
  lemma EncodeExactly(a: bytes, c: byte, b: bytes)
    ensures Encode(a + [c] + b) == Encode(a) + Encode([c]) + Encode(b)
    ensures Encode([c]) == if Literal(c) then [c]
      else [37, "0123456789ABCDEF"[c / 16] as int, "0123456789ABCDEF"[c % 16] as int]
  {
    EncodeParts(a + [c], b);
    EncodeParts(a, [c]);
    EncodeOne(c);
    DigitChars(c as char);
    UpperChars(c as char);
    LowerChars(c as char);
    MarkBytes(c);
    HexDigitOf(c / 16);
    HexDigitOf(c % 16);
  }

  lemma EncodeByteSpells(c: byte)
    ensures SpellsByte(EncodeByte(c), c)
  {
  }

  lemma {:induction false} EncodeSpells(s: bytes)
    ensures Spells(Encode(s), s)
  {
    if s != [] {
      EncodeSpells(s[1..]);
      EncodeByteSpells(s[0]);
      var n := |EncodeByte(s[0])|;
      assert Encode(s)[..n] == EncodeByte(s[0]) && Encode(s)[n..] == Encode(s[1..]);
    }
  }

  /** Every byte string survives encoding and decoding. */
  lemma DecodeEncode(s: bytes)
    ensures Decode(Encode(s)) == s
  {
    EncodeSpells(s);
    DecodeAnySpelling(Encode(s), s);
  }

  /** Encoded text holds only literals, digits and percent signs, so never a delimiter. */
  lemma {:induction false} EncodedIsClean(s: bytes)
    ensures forall i :: 0 <= i < |Encode(s)| ==>
      IsAlnum(Encode(s)[i]) || IsMark(Encode(s)[i]) || Encode(s)[i] == PERCENT
    ensures AMP !in Encode(s) && EQUALS !in Encode(s)
    ensures Encode(s) == [] <==> s == []
  {
    if s != [] {
      EncodedIsClean(s[1..]);
    }
  }

  // ----- the loops -----

  method UrlEncode(s: bytes) returns (r: bytes)
    ensures r == Encode(s)
  {
    r := [];
    assert s[0..] == s;
    for i := 0 to |s|
      invariant r + Encode(s[i..]) == Encode(s)
    {
      ghost var done := r;
      var c := s[i];
      if IsAlnum(c) {
        r := r + [c];
      } else if IsMark(c) {
        r := r + [c];
      } else {
        r := r + [PERCENT];
        r := r + [HexDigit(c / 16), HexDigit(c % 16)];
      }
      assert r == done + EncodeByte(c);
      EncodeStep(s, i, done);
    }
    assert s[|s|..] == [];
  }

  lemma EncodeStep(s: bytes, i: nat, done: bytes)
    requires i < |s|
    ensures done + Encode(s[i..]) == done + EncodeByte(s[i]) + Encode(s[i + 1..])
  {
    assert s[i..][1..] == s[i + 1..];
  }

  method UrlDecode(s: bytes, before: bytes) returns (r: bytes)
    ensures r == before + Decode(s)
  {
    r := before;
    var i := 0;
    while i < |s|
      invariant 0 <= i <= |s|
      invariant r + Decode(s[i..]) == before + Decode(s)
    {
      ghost var rest := s[i..];
      assert rest[1..] == s[i + 1..];
      if s[i] == PLUS {
        r := r + [SPACE];
      } else if s[i] == PERCENT && |s| - i > 2 {
        assert rest[3..] == s[i + 3..];
        r := r + [Escaped(s[i + 1], s[i + 2])];
        i := i + 2;
      } else {
        r := r + [s[i]];
      }
      i := i + 1;
    }
  }

  // ----- query strings -----

  type Pair = (bytes, bytes)

  function IndexOf(s: bytes, c: byte): (n: nat)
    ensures n <= |s| && (n < |s| ==> s[n] == c) && forall i :: 0 <= i < n ==> s[i] != c
  {
    if s == [] || s[0] == c then 0 else 1 + IndexOf(s[1..], c)
  }

  function Before(s: bytes, c: byte): bytes { s[..IndexOf(s, c)] }

  function After(s: bytes, c: byte): (r: bytes)
    ensures s != [] ==> |r| < |s|
  {
    if IndexOf(s, c) == |s| then [] else s[IndexOf(s, c) + 1..]
  }

  /** The pair of one field, unless its key is empty. */
  function Field(head: bytes): seq<Pair> {
    if Before(head, EQUALS) == [] then [] else [(Decode(Before(head, EQUALS)), Decode(After(head, EQUALS)))]
  }

  function ParseQuery(s: bytes): seq<Pair>
    decreases |s|
  {
    if s == [] then [] else Field(Before(s, AMP)) + ParseQuery(After(s, AMP))
  }

  method ParseField(head: bytes) returns (f: seq<Pair>)
    ensures f == Field(head)
  {
    f := [];
    var key, value := Before(head, EQUALS), After(head, EQUALS);
    if key != [] {
      var k := UrlDecode(key, []);
      var d := UrlDecode(value, []);
      assert k == Decode(key) && d == Decode(value);
      f := [(k, d)];
    }
  }

  method Parse(s: bytes) returns (v: seq<Pair>)
    ensures v == ParseQuery(s)
  {
    v := [];
    var tmp := s;
    while tmp != []
      invariant v + ParseQuery(tmp) == ParseQuery(s)
      decreases |tmp|
    {
      var head, tail := Before(tmp, AMP), After(tmp, AMP);
      ParseStep(v, tmp);
      var f := ParseField(head);
      v := v + f;
      tmp := tail;
    }
  }

  lemma ParseStep(v: seq<Pair>, tmp: bytes)
    requires tmp != []
    ensures v + ParseQuery(tmp) == v + Field(Before(tmp, AMP)) + ParseQuery(After(tmp, AMP))
  {
  }

  /** A field as a client writes it: a key, and a value if there is an equals sign. */
  datatype Written = Written(key: bytes, value: Option<bytes>)
  {
    /** A value may hold equals signs; the first one ends the key. */
    predicate Valid() {
      AMP !in key && EQUALS !in key && (value.Some? ==> AMP !in value.value)
    }

    predicate Means(p: Pair) {
      Valid() && Spells(key, p.0) && if value.Some? then Spells(value.value, p.1) else p.1 == []
    }

    function Text(): bytes {
      if value.Some? then key + [EQUALS] + value.value else key
    }
  }

  function Joined(ws: seq<Written>): bytes {
    if ws == [] then []
    else if |ws| == 1 then ws[0].Text()
    else ws[0].Text() + [AMP] + Joined(ws[1..])
  }

  function WithKeys(ps: seq<Pair>): seq<Pair> {
    if ps == [] then [] else (if ps[0].0 == [] then [] else [ps[0]]) + WithKeys(ps[1..])
  }

  lemma SplitAt(a: bytes, c: byte, b: bytes)
    requires c !in a
    ensures Before(a + [c] + b, c) == a && After(a + [c] + b, c) == b
    ensures Before(a, c) == a && After(a, c) == []
  {
    var s := a + [c] + b;
    assert s[|a|] == c;
    var n := IndexOf(s, c);
    assert forall i :: 0 <= i < |a| ==> s[i] == a[i];
    assert n == |a|;
    assert IndexOf(a, c) == |a|;
  }

  lemma FieldOf(w: Written, p: Pair)
    requires w.Means(p)
    ensures Field(w.Text()) == if p.0 == [] then [] else [p]
    ensures AMP !in w.Text()
  {
    DecodeAnySpelling(w.key, p.0);
    if w.value.Some? {
      SplitAt(w.key, EQUALS, w.value.value);
      DecodeAnySpelling(w.value.value, p.1);
    } else {
      SplitAt(w.key, EQUALS, []);
    }
  }

  /** Whatever way the fields are written, they are parsed in order; one with an empty key is dropped. */
  lemma {:induction false} QuerySpelled(ws: seq<Written>, ps: seq<Pair>)
    requires |ws| == |ps| && forall i :: 0 <= i < |ws| ==> ws[i].Means(ps[i])
    ensures ParseQuery(Joined(ws)) == WithKeys(ps)
  {
    if ws != [] {
      var text := ws[0].Text();
      FieldOf(ws[0], ps[0]);
      QuerySpelled(ws[1..], ps[1..]);
      if |ws| == 1 {
        SplitAt(text, AMP, []);
        assert ps[1..] == [];
        assert ParseQuery([]) == [];
        assert text == [] ==> ps[0].0 == [];
      } else {
        SplitAt(text, AMP, Joined(ws[1..]));
      }
    }
  }

  /** A list as the encoder writes it. */
  function QueryText(ps: seq<Pair>): bytes {
    Joined(seq(|ps|, i requires 0 <= i < |ps| => Written(Encode(ps[i].0), Some(Encode(ps[i].1)))))
  }

  /** Parsing a rendered list gives back the list; a pair with an empty key is dropped. */
  lemma QueryRoundTrip(ps: seq<Pair>)
    ensures ParseQuery(QueryText(ps)) == WithKeys(ps)
  {
    var ws := seq(|ps|, i requires 0 <= i < |ps| => Written(Encode(ps[i].0), Some(Encode(ps[i].1))));
    forall i | 0 <= i < |ws|
      ensures ws[i].Means(ps[i])
    {
      EncodedMeans(ps[i]);
    }
    QuerySpelled(ws, ps);
  }

  lemma EncodedMeans(p: Pair)
    ensures Written(Encode(p.0), Some(Encode(p.1))).Means(p)
  {
    EncodeSpells(p.0);
    EncodeSpells(p.1);
    EncodedIsClean(p.0);
    EncodedIsClean(p.1);
  }

  /** With no empty key, nothing is dropped. */
  lemma {:induction false} WithKeysAll(ps: seq<Pair>)
    requires forall i :: 0 <= i < |ps| ==> ps[i].0 != []
    ensures WithKeys(ps) == ps
  {
    if ps != [] {
      WithKeysAll(ps[1..]);
    }
  }
}
