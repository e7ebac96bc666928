/**
 * The C++ standard-library text routines that the counter programs rely on,
 * stated over `string` (= `seq<char>`): `isspace` in the "C" locale,
 * `std::to_string`, the `strtol` scanner behind `std::stoi`, `std::stol` and
 * `istream >> long long`, `istream >> std::string`, `std::string::find(char)`
 * and the `s.rfind(p, 0) == 0` prefix test.
 */
module Text {
  import opened Wrappers

  const INT_MIN: int := -0x8000_0000
  const INT_MAX: int := 0x7FFF_FFFF
  const LONG_MIN: int := -0x8000_0000_0000_0000
  const LONG_MAX: int := 0x7FFF_FFFF_FFFF_FFFF

  /** `isspace` in the "C" locale. */
  predicate IsSpace(c: char) {
    c == ' ' || c == '\t' || c == '\n' || c == '\r' || c == '\U{0B}' || c == '\U{0C}'
  }

  predicate NoSpace(s: string) {
    forall i :: 0 <= i < |s| ==> !IsSpace(s[i])
  }

  predicate AllSpace(s: string) {
    forall i :: 0 <= i < |s| ==> IsSpace(s[i])
  }

  predicate IsDigit(c: char) {
    '0' <= c <= '9'
  }

  predicate AllDigits(s: string) {
    forall i :: 0 <= i < |s| ==> IsDigit(s[i])
  }

  function DigitValue(c: char): (d: nat)
    requires IsDigit(c)
    ensures d < 10
  {
    c as int - '0' as int
  }

  function DigitChar(d: nat): (c: char)
    requires d < 10
    ensures IsDigit(c) && DigitValue(c) == d
  {
    (d + '0' as int) as char
  }

  /** The number a string of decimal digits denotes, most significant digit first. */
  function DecimalValue(s: string): nat
    requires AllDigits(s)
  {
    if |s| == 0 then 0 else DecimalValue(s[..|s| - 1]) * 10 + DigitValue(s[|s| - 1])
  }

  /** `std::to_string` of a non-negative integer: the shortest decimal numeral. */
  function NatToDecimal(n: nat): (s: string)
    ensures 1 <= |s| && AllDigits(s) && DecimalValue(s) == n
    ensures |s| > 1 ==> s[0] != '0'
  {
    if n < 10 then [DigitChar(n)]
    else
      var t := NatToDecimal(n / 10);
      var s := t + [DigitChar(n % 10)];
      assert s[..|s| - 1] == t;
      s
  }

  /** `std::to_string` of a signed integer. */
  function IntToDecimal(n: int): (s: string)
    ensures 1 <= |s|
  {
    if n < 0 then "-" + NatToDecimal(-n) else NatToDecimal(n)
  }

  /** First index at or after `i` that does not hold white space. */
  function SkipSpaces(s: string, i: nat): (k: nat)
    requires i <= |s|
    ensures i <= k <= |s| && AllSpace(s[i..k])
    ensures k < |s| ==> !IsSpace(s[k])
    decreases |s| - i
  {
    if i < |s| && IsSpace(s[i]) then SkipSpaces(s, i + 1) else i
  }

  /** End of the run of decimal digits that starts at `i`. */
  function DigitsEnd(s: string, i: nat): (k: nat)
    requires i <= |s|
    ensures i <= k <= |s| && AllDigits(s[i..k])
    ensures k < |s| ==> !IsDigit(s[k])
    decreases |s| - i
  {
    if i < |s| && IsDigit(s[i]) then DigitsEnd(s, i + 1) else i
  }

  /** End of the run of non-space characters that starts at `i`. */
  function TokenEnd(s: string, i: nat): (k: nat)
    requires i <= |s|
    ensures i <= k <= |s| && NoSpace(s[i..k])
    ensures k < |s| ==> IsSpace(s[k])
    decreases |s| - i
  {
    if i < |s| && !IsSpace(s[i]) then TokenEnd(s, i + 1) else i
  }

  /** What a scan read: the integer and the index just past its last digit. */
  datatype Scan = Scan(value: int, end: nat)

  /**
   * The decimal scanner shared by `strtol`, `std::stoi`, `std::stol` and
   * `istream >> long long`: optional white space, an optional sign, then the
   * longest run of digits; `None` when no digit follows. The value is not
   * range-checked here.
   */
  function ScanInteger(s: string): (r: Option<Scan>)
    ensures r.Some? ==> 0 < r.value.end <= |s| && IsDigit(s[r.value.end - 1])
    ensures r.Some? ==> r.value.end == |s| || !IsDigit(s[r.value.end])
  {
    ScanNumeral(s, SkipSpaces(s, 0))
  }

  /** An optional sign and the longest run of digits, starting at `i`. */
  function ScanNumeral(s: string, i: nat): (r: Option<Scan>)
    requires i <= |s|
    ensures r.Some? ==> i < r.value.end <= |s| && IsDigit(s[r.value.end - 1])
    ensures r.Some? ==> r.value.end == |s| || !IsDigit(s[r.value.end])
  {
    var j := if i < |s| && (s[i] == '+' || s[i] == '-') then i + 1 else i;
    var k := DigitsEnd(s, j);
    if k == j then None
    else
      var magnitude: int := DecimalValue(s[j..k]);
      Some(Scan(if j > i && s[i] == '-' then -magnitude else magnitude, k))
  }

  /** `std::stoi` (which goes through `strtol`): the scan, when its value fits in `int`. */
  function Stoi(s: string): (r: Option<int>)
    ensures r.Some? ==> INT_MIN <= r.value <= INT_MAX
  {
    match ScanInteger(s)
    case Some(sc) => if INT_MIN <= sc.value <= INT_MAX then Some(sc.value) else None
    case None => None
  }

  /** `std::stol` and `istream >> long long`: the scan, when its value fits in 64 bits. */
  function ScanLong(s: string): (r: Option<Scan>)
    ensures r.Some? ==> LONG_MIN <= r.value.value <= LONG_MAX && r.value.end <= |s|
  {
    match ScanInteger(s)
    case Some(sc) => if LONG_MIN <= sc.value <= LONG_MAX then Some(sc) else None
    case None => None
  }

  /**
   * `istream >> std::string`: skip white space, then take the longest run of
   * non-space characters. Returns that token ("" when only white space is left)
   * and the text not yet read.
   */
  function NextToken(s: string): (r: (string, string))
    ensures NoSpace(r.0) && |r.0| + |r.1| <= |s| && r.1 == s[|s| - |r.1|..]
    ensures r.1 != [] ==> IsSpace(r.1[0])
    ensures r.0 == [] ==> AllSpace(s) && r.1 == []
  {
    var i := SkipSpaces(s, 0);
    var k := TokenEnd(s, i);
    (s[i..k], s[k..])
  }

  /** `std::string::find(c)`: the first position of `c`, if any. */
  function IndexOf(s: string, c: char): (r: Option<nat>)
    ensures r.Some? ==> r.value < |s| && s[r.value] == c && c !in s[..r.value]
    ensures r.None? <==> c !in s
  {
    if |s| == 0 then None
    else if s[0] == c then Some(0)
    else
      match IndexOf(s[1..], c)
      case Some(k) =>
        assert s[..k + 1] == [s[0]] + s[1..][..k];
        Some(k + 1)
      case None => None
  }

  /** `s.rfind(p, 0) == 0`, checked one character at a time. */
  function StartsWith(s: string, p: string): (r: bool)
    ensures r <==> |p| <= |s| && s[..|p|] == p
  {
    if |p| == 0 then true
    else if |s| == 0 || s[0] != p[0] then false
    else
      var r := StartsWith(s[1..], p[1..]);
      assert |p| <= |s| ==> s[..|p|] == [s[0]] + s[1..][..|p| - 1];
      r
  }

  // ---------------------------------------------------------------------------
  // Round trips between formatting and scanning.

  lemma {:induction false} DigitsEndOfDigits(s: string, i: nat, k: nat)
    requires i <= k <= |s| && AllDigits(s[i..k])
    requires k == |s| || !IsDigit(s[k])
    ensures DigitsEnd(s, i) == k
    decreases k - i
  {
    if i < k {
      assert IsDigit(s[i..k][0]);
      assert s[i + 1..k] == s[i..k][1..];
      DigitsEndOfDigits(s, i + 1, k);
    }
  }

  /** Scanning what `std::to_string` printed gives back the number and stops right after it. */
  lemma ScanIntegerOfDecimal(n: int, rest: string)
    requires rest == [] || !IsDigit(rest[0])
    ensures ScanInteger(IntToDecimal(n) + rest) == Some(Scan(n, |IntToDecimal(n)|))
  {
    var d := IntToDecimal(n);
    var s := d + rest;
    var m := if n < 0 then -n else n;
    var j := if n < 0 then 1 else 0;
    assert d[j..] == NatToDecimal(m);
    assert !IsSpace(s[0]);
    assert SkipSpaces(s, 0) == 0;
    assert s[j..|d|] == NatToDecimal(m);
    DigitsEndOfDigits(s, j, |d|);
  }

  /** A token followed by white space (or nothing) is read back as that token. */
  lemma {:induction false} NextTokenOfWord(t: string, u: string)
    requires |t| > 0 && NoSpace(t)
    requires u == [] || IsSpace(u[0])
    ensures NextToken(t + u) == (t, u)
  {
    var s := t + u;
    assert SkipSpaces(s, 0) == 0;
    TokenEndOfWord(s, 0, |t|);
    assert s[..|t|] == t && s[|t|..] == u;
  }

  lemma {:induction false} TokenEndOfWord(s: string, i: nat, k: nat)
    requires i <= k <= |s| && NoSpace(s[i..k])
    requires k == |s| || IsSpace(s[k])
    ensures TokenEnd(s, i) == k
    decreases k - i
  {
    if i < k {
      assert !IsSpace(s[i..k][0]);
      assert s[i + 1..k] == s[i..k][1..];
      TokenEndOfWord(s, i + 1, k);
    }
  }

  /** Leading white space does not change the token read. */
  lemma {:induction false} NextTokenSkipsSpace(w: string, s: string)
    requires AllSpace(w)
    ensures NextToken(w + s) == NextToken(s)
  {
    var i := SkipSpaces(s, 0);
    var k := TokenEnd(s, i);
    SkipSpacesOver(w, s, 0);
    TokenEndShift(w, s, i);
    var t := w + s;
    assert SkipSpaces(t, 0) == |w| + i && TokenEnd(t, |w| + i) == |w| + k;
    assert NextToken(t) == (t[|w| + i..|w| + k], t[|w| + k..]);
    assert t[|w| + i..|w| + k] == s[i..k];
    assert t[|w| + k..] == s[k..];
  }

  lemma {:induction false} SkipSpacesOver(w: string, s: string, i: nat)
    requires AllSpace(w) && i <= |w|
    ensures SkipSpaces(w + s, i) == |w| + SkipSpaces(s, 0)
    decreases |w| - i
  {
    if i < |w| {
      SkipSpacesOver(w, s, i + 1);
    } else {
      SkipSpacesShift(w, s, 0);
    }
  }

  lemma {:induction false} SkipSpacesShift(w: string, s: string, i: nat)
    requires i <= |s|
    ensures SkipSpaces(w + s, |w| + i) == |w| + SkipSpaces(s, i)
    decreases |s| - i
  {
    if i < |s| && IsSpace(s[i]) {
      SkipSpacesShift(w, s, i + 1);
    }
  }

  lemma {:induction false} TokenEndShift(w: string, s: string, i: nat)
    requires i <= |s|
    ensures TokenEnd(w + s, |w| + i) == |w| + TokenEnd(s, i)
    decreases |s| - i
  {
    if i < |s| && !IsSpace(s[i]) {
      TokenEndShift(w, s, i + 1);
    }
  }

  lemma {:induction false} DigitsEndShift(w: string, s: string, i: nat)
    requires i <= |s|
    ensures DigitsEnd(w + s, |w| + i) == |w| + DigitsEnd(s, i)
    decreases |s| - i
  {
    if i < |s| && IsDigit(s[i]) {
      DigitsEndShift(w, s, i + 1);
    }
  }

  /** The scan moved `n` characters further on. */
  function Shifted(r: Option<Scan>, n: nat): Option<Scan> {
    match r
    case None => None
    case Some(sc) => Some(Scan(sc.value, n + sc.end))
  }

  /** A slice of `s` is the same slice of `w + s`, moved by `|w|`. */
  lemma SliceShift(w: string, s: string, j: nat, k: nat)
    requires j <= k <= |s|
    ensures (w + s)[|w| + j..|w| + k] == s[j..k]
  {
    var t := w + s;
    forall q | 0 <= q < k - j
      ensures t[|w| + j..|w| + k][q] == s[j..k][q]
    {
      assert t[|w| + j + q] == s[j + q];
    }
  }

  /**
   * A numeral at `n + i` in `t` whose sign, digits and value match those at
   * `i` in `s` scans to the same value, `n` characters further on.
   */
  lemma ScanNumeralMoved(t: string, s: string, n: nat, i: nat, j: nat, k: nat)
    requires i <= |s| && n + i <= |t|
    requires j == (if i < |s| && (s[i] == '+' || s[i] == '-') then i + 1 else i)
    requires n + j == (if n + i < |t| && (t[n + i] == '+' || t[n + i] == '-') then n + i + 1 else n + i)
    requires k == DigitsEnd(s, j) && n + k == DigitsEnd(t, n + j)
    requires j > i ==> t[n + i] == s[i]
    requires k > j ==> DecimalValue(t[n + j..n + k]) == DecimalValue(s[j..k])
    ensures ScanNumeral(t, n + i) == Shifted(ScanNumeral(s, i), n)
  {
  }

  /** A numeral scans the same wherever it sits. */
  lemma ScanNumeralShift(w: string, s: string, i: nat)
    requires i <= |s|
    ensures ScanNumeral(w + s, |w| + i) == Shifted(ScanNumeral(s, i), |w|)
  {
    var t, n := w + s, |w|;
    var signed := i < |s| && (s[i] == '+' || s[i] == '-');
    if i < |s| {
      assert t[n + i] == s[i];
    }
    var j := if signed then i + 1 else i;
    DigitsEndShift(w, s, j);
    var k := DigitsEnd(s, j);
    if k > j {
      SliceShift(w, s, j, k);
    }
    ScanNumeralMoved(t, s, n, i, j, k);
  }

  /** Leading white space does not change the integer scanned; it only moves where the scan ends. */
  lemma ScanIntegerSkipsSpace(w: string, s: string)
    requires AllSpace(w)
    ensures ScanInteger(w + s) == Shifted(ScanInteger(s), |w|)
  {
    SkipSpacesOver(w, s, 0);
    ScanNumeralShift(w, s, SkipSpaces(s, 0));
  }
}
