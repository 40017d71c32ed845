/**
 * The few behaviours of java.lang.String, java.lang.Integer and java.util.List
 * that the snapshot table and the BOM combo box depend on.
 * Strings are sequences of chars; a char's code is its ordinal.
 */
module JavaLib {
  import opened Wrappers

  // ---------------------------------------------------------------------------
  // String.compareTo: the difference of the first pair of differing chars, or
  // the difference of the lengths when one string is a prefix of the other.
  // ---------------------------------------------------------------------------

  function CompareTo(a: string, b: string): (r: int)
    ensures r == 0 <==> a == b
  {
    if |a| == 0 || |b| == 0 then |a| - |b|
    else if a[0] != b[0] then a[0] as int - b[0] as int
    else
      var r := CompareTo(a[1..], b[1..]);
      assert a == [a[0]] + a[1..] && b == [b[0]] + b[1..];
      r
  }

  lemma {:induction false} CompareToAntisymmetric(a: string, b: string)
    ensures CompareTo(b, a) == -CompareTo(a, b)
  {
    if |a| > 0 && |b| > 0 && a[0] == b[0] {
      CompareToAntisymmetric(a[1..], b[1..]);
    }
  }

  lemma {:induction false} CompareToTransitive(a: string, b: string, c: string)
    requires CompareTo(a, b) >= 0 && CompareTo(b, c) >= 0
    ensures CompareTo(a, c) >= 0
  {
    if |a| > 0 && |b| > 0 && |c| > 0 && a[0] == b[0] && b[0] == c[0] {
      CompareToTransitive(a[1..], b[1..], c[1..]);
    }
  }

  /** Either a >= b or b >= a in the order String.compareTo defines. */
  lemma CompareToTotal(a: string, b: string)
    ensures CompareTo(a, b) >= 0 || CompareTo(b, a) >= 0
  {
    CompareToAntisymmetric(a, b);
  }

  // ---------------------------------------------------------------------------
  // String.lastIndexOf(char)
  // ---------------------------------------------------------------------------

  function LastIndexOf(s: string, c: char): (r: int)
    ensures -1 <= r < |s|
    ensures r >= 0 ==> s[r] == c
    ensures forall k :: r < k < |s| ==> s[k] != c
  {
    if |s| == 0 then -1
    else if s[|s| - 1] == c then |s| - 1
    else LastIndexOf(s[..|s| - 1], c)
  }

  // ---------------------------------------------------------------------------
  // List.indexOf: the first index holding an equal element, or -1.
  // ---------------------------------------------------------------------------

  function IndexOf<T(==)>(s: seq<T>, x: T): (r: int)
    ensures r == -1 <==> x !in s
    ensures r != -1 ==> 0 <= r < |s| && s[r] == x && x !in s[..r]
  {
    if |s| == 0 then -1
    else if s[0] == x then 0
    else
      var k := IndexOf(s[1..], x);
      assert s == [s[0]] + s[1..];
      if k == -1 then -1
      else
        assert s[..k + 1] == [s[0]] + s[1..][..k];
        k + 1
  }

  // ---------------------------------------------------------------------------
  // Integer.toString and, as its partner, the decimal reading of Integer.parseInt
  // (without the 32-bit range check).
  // ---------------------------------------------------------------------------

  function DigitChar(d: nat): (c: char)
    requires d < 10
    ensures '0' <= c <= '9' && c as int - '0' as int == d
  {
    ('0' as int + d) as char
  }

  predicate IsDigit(c: char) {
    '0' <= c <= '9'
  }

  predicate AllDigits(s: string) {
    forall k :: 0 <= k < |s| ==> IsDigit(s[k])
  }

  function NatToDecimal(n: nat): (s: string)
    ensures |s| > 0 && AllDigits(s)
  {
    if n < 10 then [DigitChar(n)]
    else NatToDecimal(n / 10) + [DigitChar(n % 10)]
  }

  function IntegerToString(n: int): string {
    if n < 0 then "-" + NatToDecimal(-n) else NatToDecimal(n)
  }

  function DecimalValue(s: string): nat
    requires AllDigits(s)
  {
    if |s| == 0 then 0
    else 10 * DecimalValue(s[..|s| - 1]) + (s[|s| - 1] as int - '0' as int)
  }

  function ParseInteger(s: string): Option<int> {
    if |s| > 0 && s[0] == '-' then
      if |s| > 1 && AllDigits(s[1..]) then Some(0 - DecimalValue(s[1..]) as int) else None
    else if |s| > 0 && AllDigits(s) then Some(DecimalValue(s))
    else None
  }

  lemma {:induction false} DecimalValueOfNat(n: nat)
    ensures DecimalValue(NatToDecimal(n)) == n
  {
    if n >= 10 {
      var s := NatToDecimal(n);
      assert s[..|s| - 1] == NatToDecimal(n / 10);
      DecimalValueOfNat(n / 10);
    }
  }

  /** Integer.toString never produces a ':' or a '/', and parsing it gives the number back. */
  lemma IntegerToStringRoundTrip(n: int)
    ensures ParseInteger(IntegerToString(n)) == Some(n)
    ensures ':' !in IntegerToString(n) && '/' !in IntegerToString(n)
  {
    var s := IntegerToString(n);
    if n < 0 {
      var digits := NatToDecimal(-n);
      assert s == "-" + digits;
      assert s[1..] == digits;
      DecimalValueOfNat(-n);
      assert forall k :: 0 < k < |s| ==> s[k] == digits[k - 1];
    } else {
      var digits := NatToDecimal(n);
      assert s == digits && IsDigit(s[0]);
      DecimalValueOfNat(n);
    }
  }
}
