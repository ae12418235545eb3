/** The parts of `java.lang.String` and `java.lang.Integer` that the modelled
    code relies on: lexicographic `compareTo`, `indexOf`, `contains`,
    `Integer.toString` and `Integer.parseInt`. */
module JavaStrings {
  import opened Common

  const IntMin: int := -0x8000_0000
  const IntMax: int := 0x7FFF_FFFF

  predicate IsInt32(n: int) { IntMin <= n <= IntMax }

  /** `a.compareTo(b)`: the difference of the first differing characters,
      or of the lengths when one string is a prefix of the other. */
  function CompareTo(a: string, b: string): (c: int)
    ensures c == 0 <==> a == b
  {
    if |a| == 0 || |b| == 0 then |a| - |b|
    else if a[0] != b[0] then a[0] as int - b[0] as int
    else
      assert a == [a[0]] + a[1..] && b == [b[0]] + b[1..];
      CompareTo(a[1..], b[1..])
  }

  lemma {:induction false} CompareToAntisymmetric(a: string, b: string)
    ensures CompareTo(a, b) == -CompareTo(b, a)
  {
    if |a| > 0 && |b| > 0 && a[0] == b[0] {
      CompareToAntisymmetric(a[1..], b[1..]);
    }
  }

  lemma {:induction false} CompareToTransitive(a: string, b: string, c: string)
    requires CompareTo(a, b) > 0 && CompareTo(b, c) > 0
    ensures CompareTo(a, c) > 0
  {
    if |a| > 0 && |b| > 0 && |c| > 0 && a[0] == b[0] && b[0] == c[0] {
      CompareToTransitive(a[1..], b[1..], c[1..]);
    }
  }

  /** Comparing two concatenations whose first parts have equal length is
      decided by the first parts unless they are equal. */
  lemma {:induction false} CompareToConcat(a: string, x: string, b: string, y: string)
    requires |a| == |b|
    ensures CompareTo(a + x, b + y) == if a == b then CompareTo(x, y) else CompareTo(a, b)
  {
    if |a| > 0 {
      assert (a + x)[1..] == a[1..] + x && (b + y)[1..] == b[1..] + y;
      if a[0] == b[0] {
        CompareToConcat(a[1..], x, b[1..], y);
        assert a == [a[0]] + a[1..] && b == [b[0]] + b[1..];
      }
    } else {
      assert a + x == x && b + y == y;
    }
  }

  /** `pat` occurs in `s` starting at index `k`. */
  predicate Occurs(s: string, pat: string, k: int) {
    0 <= k && k + |pat| <= |s| && forall i :: 0 <= i < |pat| ==> s[k + i] == pat[i]
  }

  function Find(s: string, pat: string, from: nat): (k: int)
    ensures k == -1 || (from <= k && Occurs(s, pat, k))
    ensures k == -1 ==> forall j :: from <= j ==> !Occurs(s, pat, j)
    ensures k >= 0 ==> forall j :: from <= j < k ==> !Occurs(s, pat, j)
    decreases |s| - from
  {
    if from + |pat| > |s| then -1
    else if s[from..from + |pat|] == pat then from
    else Find(s, pat, from + 1)
  }

  /** `s.indexOf(pat, from)`: the first occurrence at or after `from` (a negative
      `from` counts as 0); when `from` is at or past the end, the length for an
      empty pattern and -1 otherwise. */
  function IndexOf(s: string, pat: string, from: int): (k: int)
    ensures k == -1 || Occurs(s, pat, k)
    ensures from <= |s| && k >= 0 ==> from <= k && forall j :: from <= j < k ==> !Occurs(s, pat, j)
    ensures k == -1 ==> forall j :: from <= j ==> !Occurs(s, pat, j)
  {
    if from >= |s| then (if |pat| == 0 then |s| else -1)
    else Find(s, pat, if from < 0 then 0 else from)
  }

  /** `s.contains(pat)`: some occurrence anywhere. */
  function Contains(s: string, pat: string): (b: bool)
    ensures b <==> exists k :: Occurs(s, pat, k)
  {
    var k := IndexOf(s, pat, 0);
    assert k >= 0 ==> Occurs(s, pat, k);
    k >= 0
  }

  function DigitChar(d: nat): char
    requires d < 10
  {
    ['0', '1', '2', '3', '4', '5', '6', '7', '8', '9'][d]
  }

  predicate IsDigit(c: char) { '0' <= c <= '9' }

  predicate AllDigits(s: string) { forall i :: 0 <= i < |s| ==> IsDigit(s[i]) }

  function DigitValue(c: char): nat
    requires IsDigit(c)
  {
    c as int - '0' as int
  }

  /** Decimal digits of `n`, most significant first, no leading zeros. */
  function NatToString(n: nat): (s: string)
    ensures |s| > 0 && AllDigits(s)
    decreases n
  {
    if n < 10 then [DigitChar(n)] else NatToString(n / 10) + [DigitChar(n % 10)]
  }

  /** `Integer.toString(n)`. */
  function IntToString(n: int): string {
    if n < 0 then "-" + NatToString(-n) else NatToString(n)
  }

  /** Value of a string of decimal digits. */
  function DigitsValue(s: string): nat
    requires forall i :: 0 <= i < |s| ==> IsDigit(s[i])
  {
    if |s| == 0 then 0 else DigitsValue(s[..|s| - 1]) * 10 + DigitValue(s[|s| - 1])
  }

  /** `Integer.parseInt(s)`: an optional `-` or `+`, then at least one decimal
      digit, with a value that fits in 32 bits; anything else is a
      `NumberFormatException`, modelled as `None`. */
  function ParseInt(s: string): (r: Option<int>)
    ensures r.Some? ==> IsInt32(r.value)
  {
    if |s| == 0 then None
    else
      var signed := s[0] == '-' || s[0] == '+';
      var digits := if signed then s[1..] else s;
      if |digits| == 0 || !AllDigits(digits) then None
      else
        var v: int := if s[0] == '-' then -(DigitsValue(digits) as int) else DigitsValue(digits);
        if IsInt32(v) then Some(v) else None
  }

  lemma {:induction false} DigitsOfNat(n: nat)
    ensures DigitsValue(NatToString(n)) == n
    decreases n
  {
    var s := NatToString(n);
    if n < 10 {
      assert s == [DigitChar(n)];
      assert s[..0] == [];
    } else {
      DigitsOfNat(n / 10);
      assert s[..|s| - 1] == NatToString(n / 10);
    }
  }

  /** `Integer.parseInt(Integer.toString(n)) == n` for every 32-bit `n`. */
  lemma ParseIntOfIntToString(n: int)
    requires IsInt32(n)
    ensures ParseInt(IntToString(n)) == Some(n)
  {
    if n < 0 {
      var m: nat := -n;
      var digits := NatToString(m);
      DigitsOfNat(m);
      ParseNegative(digits, n);
      assert IntToString(n) == "-" + digits;
    } else {
      var digits := NatToString(n);
      DigitsOfNat(n);
      ParseUnsigned(digits, n);
      assert IntToString(n) == digits;
    }
  }

  /** A string of digits parses to its value when that fits. */
  lemma ParseUnsigned(digits: string, n: int)
    requires |digits| > 0 && AllDigits(digits) && DigitsValue(digits) == n && IsInt32(n)
    ensures ParseInt(digits) == Some(n)
  {
  }

  /** A minus sign and a string of digits parse to minus its value when that
      fits. */
  lemma ParseNegative(digits: string, n: int)
    requires |digits| > 0 && AllDigits(digits) && DigitsValue(digits) == -n && IsInt32(n)
    ensures ParseInt("-" + digits) == Some(n)
  {
    assert ("-" + digits)[1..] == digits;
  }

  /** Distinct naturals have distinct decimal forms. */
  lemma {:induction false} NatToStringInjective(m: nat, n: nat)
    requires NatToString(m) == NatToString(n)
    ensures m == n
  {
    DigitsOfNat(m);
    DigitsOfNat(n);
  }
}
