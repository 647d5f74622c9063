/** What several modules share. */
module Common {
  datatype Option<T> = None | Some(value: T)

  /** White space as `isspace` has it in the C locale. */
  predicate IsSpaceCode(c: int) { 9 <= c <= 13 || c == 32 }

  lemma Assoc<T>(x: seq<T>, y: seq<T>, z: seq<T>)
    ensures x + (y + z) == x + y + z
  {
  }

  lemma Regroup3<T>(a: seq<T>, b: seq<T>, c: seq<T>, w: seq<T>)
    ensures (a + (b + c)) + w == a + (b + (c + w))
  {
  }

  lemma BehindFirst<T>(q: seq<T>, t: T, n: nat)
    requires q != [] && n < |q|
    ensures [q[0]] + (q[1..][..n] + [t] + q[1..][n..]) == q[..n + 1] + [t] + q[n + 1..]
  {
  }

  // ----- characters by list and by range -----

  const UPPER: string := "ABCDEFGHIJKLMNOPQRSTUVWXYZ"
  const LOWER: string := "abcdefghijklmnopqrstuvwxyz"
  const DIGITS: string := "0123456789"

  lemma UpperChars(c: char)
    ensures c in UPPER <==> 'A' <= c <= 'Z'
  {
    if 'A' <= c <= 'Z' {
      assert UPPER[c as int - 65] == c;
    }
  }

  lemma LowerChars(c: char)
    ensures c in LOWER <==> 'a' <= c <= 'z'
  {
    if 'a' <= c <= 'z' {
      assert LOWER[c as int - 97] == c;
    }
  }

  lemma DigitChars(c: char)
    ensures c in DIGITS <==> '0' <= c <= '9'
  {
    if '0' <= c <= '9' {
      assert DIGITS[c as int - 48] == c;
    }
  }
}
