/** Java strings as the model sees them: nullable references to character
    sequences, String.trim, and the decimal rendering of a Long that string
    concatenation performs when an id is put into an exception message. */
module Text {
  import opened Wrappers

  /** A Java String reference; None stands for null. */
  type Str = Option<string>

  /** The characters String.trim strips from both ends: every char at or
      below U+0020 (space and all control characters). */
  predicate Trimmable(c: char) {
    c <= ' '
  }

  ghost predicate AllTrimmable(s: string) {
    forall i :: 0 <= i < |s| ==> Trimmable(s[i])
  }

  /** The index of the first kept character at or after lo, or |s| when
      there is none. */
  function Lead(s: string, lo: nat): (a: nat)
    requires lo <= |s|
    ensures lo <= a <= |s|
    ensures forall i :: lo <= i < a ==> Trimmable(s[i])
    ensures a == |s| || !Trimmable(s[a])
    decreases |s| - lo
  {
    if lo == |s| || !Trimmable(s[lo]) then lo else Lead(s, lo + 1)
  }

  /** The index just past the last kept character of s[lo..hi], or lo when
      there is none. */
  function Trail(s: string, lo: nat, hi: nat): (b: nat)
    requires lo <= hi <= |s|
    ensures lo <= b <= hi
    ensures forall i :: b <= i < hi ==> Trimmable(s[i])
    ensures b == lo || !Trimmable(s[b - 1])
    decreases hi - lo
  {
    if hi == lo || !Trimmable(s[hi - 1]) then hi else Trail(s, lo, hi - 1)
  }

  /** String.trim: the middle slice of s left once the trimmable characters
      at both ends are stripped; it begins and ends with a kept character. */
  function Trim(s: string): (r: string)
    ensures |r| <= |s|
    ensures r == [] || (!Trimmable(r[0]) && !Trimmable(r[|r| - 1]))
    ensures exists a ::
      (0 <= a <= |s| - |r| && r == s[a..a + |r|] && AllTrimmable(s[..a]) && AllTrimmable(s[a + |r|..]))
  {
    var a := Lead(s, 0);
    var b := Trail(s, a, |s|);
    assert AllTrimmable(s[..a]);
    assert AllTrimmable(s[b..]);
    s[a..b]
  }

  /** Trimming leaves nothing exactly when every character is trimmable. */
  lemma {:induction false} TrimEmptyIffAllTrimmable(s: string)
    ensures Trim(s) == [] <==> AllTrimmable(s)
  {
    var a := Lead(s, 0);
    var b := Trail(s, a, |s|);
    assert Trim(s) == s[a..b];
  }

  predicate IsDigit(c: char) {
    '0' <= c <= '9'
  }

  function DigitChar(d: int): (c: char)
    requires 0 <= d < 10
    ensures IsDigit(c) && c as int - '0' as int == d
  {
    ('0' as int + d) as char
  }

  /** The decimal digits of a natural number, most significant first, with
      no leading zero. */
  function Digits(n: nat): (r: string)
    ensures |r| > 0
    ensures forall i :: 0 <= i < |r| ==> IsDigit(r[i])
    ensures |r| > 1 ==> r[0] != '0'
    ensures r[0] == '0' ==> n == 0
    decreases n
  {
    if n < 10 then [DigitChar(n)] else Digits(n / 10) + [DigitChar(n % 10)]
  }

  /** The number a string of decimal digits denotes. */
  function DigitsValue(s: string): nat
    requires forall i :: 0 <= i < |s| ==> IsDigit(s[i])
  {
    if s == [] then 0
    else
      var last := s[|s| - 1];
      assert IsDigit(last);
      DigitsValue(s[..|s| - 1]) * 10 + (last as int - '0' as int)
  }

  /** Long.toString as string concatenation applies it: an optional minus
      sign followed by the digits of the magnitude. */
  function Decimal(n: int): (r: string)
    ensures |r| > 0
    ensures n >= 0 <==> IsDigit(r[0])
    ensures n >= 0 ==> (forall i :: 0 <= i < |r| ==> IsDigit(r[i])) && DigitsValue(r) == n
    ensures n < 0 ==> r[0] == '-' && (forall i :: 1 <= i < |r| ==> IsDigit(r[i])) && DigitsValue(r[1..]) == -n
    ensures n != 0 ==> r[if n < 0 then 1 else 0] != '0'
    ensures n == 0 ==> r == "0"
  {
    if n < 0 then
      DigitsRoundTrip(-n);
      var r := "-" + Digits(-n);
      assert r[1..] == Digits(-n);
      r
    else
      DigitsRoundTrip(n);
      Digits(n)
  }

  lemma {:induction false} DigitsRoundTrip(n: nat)
    ensures DigitsValue(Digits(n)) == n
    decreases n
  {
    if n >= 10 {
      var d := Digits(n / 10) + [DigitChar(n % 10)];
      assert d[..|d| - 1] == Digits(n / 10);
      DigitsRoundTrip(n / 10);
    }
  }

  /** Distinct ids render differently, so a message built from an id names
      that id alone. */
  lemma DecimalInjective(m: int, n: int)
    ensures Decimal(m) == Decimal(n) ==> m == n
  {
    // Decimal's contract gives back the value each rendering denotes.
  }
}
