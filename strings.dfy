/**
 * Text helpers shared by the controllers: the Python string operations the
 * handlers rely on (`lower`, `strip`, `index`, `rindex`,
 * `split(',')` and `int`), each stated over `seq<char>`.
 */
module Strings {

  datatype Option<+T> = None | Some(value: T)

  datatype Result<+T, +E> = Ok(value: T) | Err(error: E)

  // ---------------------------------------------------------------------
  // Case folding and whitespace
  // ---------------------------------------------------------------------

  /** `str.lower` on one character: ASCII upper case to lower case. */
  function LowerChar(c: char): (r: char)
    ensures 'A' <= c <= 'Z' ==> 'a' <= r <= 'z' && r as int - 'a' as int == c as int - 'A' as int
    ensures !('A' <= c <= 'Z') ==> r == c
  {
    if 'A' <= c <= 'Z' then (c as int + 32) as char else c
  }

  /** `str.lower`: a length-preserving, character-by-character map. */
  function Lower(s: string): (r: string)
    ensures |r| == |s|
    ensures forall i :: 0 <= i < |s| ==> r[i] == LowerChar(s[i])
  {
    seq(|s|, i requires 0 <= i < |s| => LowerChar(s[i]))
  }

  /** Lower-casing commutes with taking a suffix or a prefix. */
  lemma LowerSlices(s: string, k: nat)
    requires k <= |s|
    ensures Lower(s[k..]) == Lower(s)[k..]
    ensures Lower(s[..k]) == Lower(s)[..k]
  {
  }

  /** The characters Python 2's `str.strip()` removes: space, \t, \n, \v, \f, \r. */
  predicate IsSpace(c: char)
  {
    c == ' ' || '\t' <= c <= '\r'
  }

  predicate AllSpace(s: string)
  {
    forall i :: 0 <= i < |s| ==> IsSpace(s[i])
  }

  /** The number of whitespace characters `s` starts with. */
  function LeadingSpace(s: string): (n: nat)
    ensures n <= |s|
    ensures forall i :: 0 <= i < n ==> IsSpace(s[i])
    ensures n < |s| ==> !IsSpace(s[n])
  {
    if s == [] || !IsSpace(s[0]) then 0 else 1 + LeadingSpace(s[1..])
  }

  /** The number of whitespace characters `s` ends with. */
  function TrailingSpace(s: string): (n: nat)
    ensures n <= |s|
    ensures forall i :: |s| - n <= i < |s| ==> IsSpace(s[i])
    ensures n < |s| ==> !IsSpace(s[|s| - n - 1])
  {
    if s == [] || !IsSpace(s[|s| - 1]) then 0 else 1 + TrailingSpace(s[..|s| - 1])
  }

  /**
   * `str.strip()`: drop the leading, then the trailing whitespace.  What is
   * left starts and ends with a character that is not whitespace.
   */
  function Strip(s: string): (r: string)
    ensures |r| <= |s|
    ensures r != [] ==> !IsSpace(r[0]) && !IsSpace(r[|r| - 1])
    ensures var a := LeadingSpace(s); a + |r| <= |s| && r == s[a..a + |r|]
    ensures AllSpace(s[..LeadingSpace(s)]) && AllSpace(s[LeadingSpace(s) + |r|..])
  {
    var a := LeadingSpace(s);
    var l := s[a..];
    var r := l[..|l| - TrailingSpace(l)];
    assert r == s[a..a + |r|];
    assert s[a + |r|..] == l[|r|..];
    r
  }

  /** A string strips to nothing exactly when it is all whitespace. */
  lemma StripEmptyIff(s: string)
    ensures Strip(s) == [] <==> AllSpace(s)
  {
    var n := LeadingSpace(s);
    var l := s[n..];
    if n < |s| {
      assert l[0] == s[n];
      assert TrailingSpace(l) < |l|;
    }
  }

  /** A string with no whitespace at either end strips to itself. */
  lemma StripNoMargins(s: string)
    requires s != [] && !IsSpace(s[0]) && !IsSpace(s[|s| - 1])
    ensures Strip(s) == s
  {
    assert LeadingSpace(s) == 0;
    assert s[0..] == s;
    assert TrailingSpace(s) == 0;
  }

  // ---------------------------------------------------------------------
  // Substring search
  // ---------------------------------------------------------------------

  /** `pat` occurs in `hay` starting at index `i`. */
  predicate OccursAt(hay: string, pat: string, i: nat)
  {
    i + |pat| <= |hay| && hay[i..i + |pat|] == pat
  }

  /** Occurrences in a suffix are the occurrences in the whole, shifted. */
  lemma OccursInSuffix(hay: string, pat: string, k: nat, i: nat)
    requires k <= |hay|
    ensures OccursAt(hay[k..], pat, i) <==> OccursAt(hay, pat, k + i)
  {
    if k + i + |pat| <= |hay| {
      assert hay[k..][i..i + |pat|] == hay[k + i..k + i + |pat|];
    }
  }

  /** Occurrences in a prefix are the occurrences in the whole that fit inside it. */
  lemma OccursInPrefix(hay: string, pat: string, k: nat, i: nat)
    requires k <= |hay|
    ensures OccursAt(hay[..k], pat, i) <==> OccursAt(hay, pat, i) && i + |pat| <= k
  {
    if i + |pat| <= k {
      assert hay[..k][i..i + |pat|] == hay[i..i + |pat|];
    }
  }

  /** The lowest occurrence of `pat` in `hay` at or after `from`. */
  function IndexFrom(hay: string, pat: string, from: nat): (r: Option<nat>)
    ensures r.Some? ==> from <= r.value && OccursAt(hay, pat, r.value)
    ensures r.Some? ==> forall j :: from <= j < r.value ==> !OccursAt(hay, pat, j)
    ensures r.None? ==> forall j: nat :: from <= j ==> !OccursAt(hay, pat, j)
    decreases |hay| - from
  {
    if from + |pat| > |hay| then None
    else if OccursAt(hay, pat, from) then Some(from)
    else IndexFrom(hay, pat, from + 1)
  }

  /** `hay.index(pat)`: the lowest occurrence, or `None` where Python raises. */
  function IndexOf(hay: string, pat: string): (r: Option<nat>)
    ensures r.Some? ==> OccursAt(hay, pat, r.value)
    ensures r.Some? ==> forall j :: 0 <= j < r.value ==> !OccursAt(hay, pat, j)
    ensures r.None? ==> forall j: nat :: !OccursAt(hay, pat, j)
  {
    IndexFrom(hay, pat, 0)
  }

  /** The highest occurrence of `pat` in `hay` starting at or before `k`. */
  function RIndexAtMost(hay: string, pat: string, k: nat): (r: Option<nat>)
    ensures r.Some? ==> r.value <= k && OccursAt(hay, pat, r.value)
    ensures r.Some? ==> forall j :: r.value < j <= k ==> !OccursAt(hay, pat, j)
    ensures r.None? ==> forall j :: 0 <= j <= k ==> !OccursAt(hay, pat, j)
    decreases k
  {
    if OccursAt(hay, pat, k) then Some(k)
    else if k == 0 then None
    else RIndexAtMost(hay, pat, k - 1)
  }

  /** `hay.rindex(pat)`: the highest occurrence, or `None` where Python raises. */
  function RIndexOf(hay: string, pat: string): (r: Option<nat>)
    ensures r.Some? ==> OccursAt(hay, pat, r.value)
    ensures r.Some? ==> forall j: nat :: r.value < j ==> !OccursAt(hay, pat, j)
    ensures r.None? ==> forall j: nat :: !OccursAt(hay, pat, j)
  {
    if |pat| > |hay| then None else RIndexAtMost(hay, pat, |hay| - |pat|)
  }

  // ---------------------------------------------------------------------
  // Integers as text
  // ---------------------------------------------------------------------

  predicate IsDigit(c: char)
  {
    '0' <= c <= '9'
  }

  predicate AllDigits(s: string)
  {
    forall i :: 0 <= i < |s| ==> IsDigit(s[i])
  }

  /** The value of a run of decimal digits, most significant first. */
  function DigitsValue(s: string): nat
    requires AllDigits(s)
  {
    if s == [] then 0
    else DigitsValue(s[..|s| - 1]) * 10 + (s[|s| - 1] as int - '0' as int)
  }

  function DigitChar(d: nat): (c: char)
    requires d < 10
    ensures IsDigit(c)
  {
    ('0' as int + d) as char
  }

  /** Decimal digits of a natural number, without leading zeros. */
  function NatToString(n: nat): (s: string)
    ensures s != [] && AllDigits(s)
  {
    if n < 10 then [DigitChar(n)] else NatToString(n / 10) + [DigitChar(n % 10)]
  }

  /** `str(n)` for an integer. */
  function IntToString(n: int): string
  {
    if n < 0 then "-" + NatToString(-n) else NatToString(n)
  }

  /**
   * `int(s)` in base 10, as Python 2 reads a byte string: surrounding
   * whitespace, an optional sign, more whitespace, then at least one digit.
   */
  function ParseInt(s: string): (r: Option<int>)
    ensures AllDigits(Strip(s)) && Strip(s) != [] ==> r == Some(DigitsValue(Strip(s)) as int)
    ensures r.Some? ==> Strip(s) != [] && (r.value < 0 ==> Strip(s)[0] == '-')
    ensures Strip(s) != [] && !IsDigit(Strip(s)[0]) && Strip(s)[0] != '-' && Strip(s)[0] != '+' ==> r.None?
  {
    var t := Strip(s);
    if t == [] then None
    else if t[0] == '-' || t[0] == '+' then
      var digits := Strip(t[1..]);
      if digits != [] && AllDigits(digits) then
        var v: int := if t[0] == '-' then -(DigitsValue(digits) as int) else DigitsValue(digits);
        Some(v)
      else None
    else if AllDigits(t) then Some(DigitsValue(t))
    else None
  }

  lemma {:induction false} DigitsOfNat(n: nat)
    ensures DigitsValue(NatToString(n)) == n
  {
    if n >= 10 {
      DigitsOfNat(n / 10);
      var s := NatToString(n);
      assert s[..|s| - 1] == NatToString(n / 10);
    }
  }

  /** Reading back a printed integer gives the integer. */
  lemma ParseIntRoundTrip(n: int)
    ensures ParseInt(IntToString(n)) == Some(n)
  {
    var s := IntToString(n);
    var d := NatToString(if n < 0 then -n else n);
    DigitsOfNat(if n < 0 then -n else n);
    assert !IsSpace(d[|d| - 1]) && !IsSpace(d[0]);
    StripNoMargins(s);
    StripNoMargins(d);
    if n < 0 {
      assert s[1..] == d;
    }
  }

  /**
   * Everything `int()` accepts has this shape once stripped: a digit or a
   * sign first, then only digits and whitespace, with no whitespace after
   * the first digit, and a digit last.  So "12pt", "5x", "1 2" and "-" are
   * all rejected.
   */
  lemma ParseIntAcceptsOnly(s: string, t: string)
    requires ParseInt(s).Some? && t == Strip(s)
    ensures t != [] && (IsDigit(t[0]) || t[0] == '-' || t[0] == '+') && IsDigit(t[|t| - 1])
    ensures forall i :: 0 < i < |t| ==> IsDigit(t[i]) || IsSpace(t[i])
    ensures forall i, j :: 0 <= i < j < |t| && IsDigit(t[i]) ==> IsDigit(t[j])
  {
    if t[0] == '-' || t[0] == '+' {
      var a := SignedDigits(t);
      SignedShape(t, a);
    } else {
      assert t != [] && AllDigits(t);
    }
  }

  /**
   * The signed case of `ParseInt`: after the sign come `a` whitespace
   * characters, then digits to the end.
   */
  lemma SignedDigits(t: string) returns (a: nat)
    requires t != [] && (t[0] == '-' || t[0] == '+') && Strip(t) == t
    requires Strip(t[1..]) != [] && AllDigits(Strip(t[1..]))
    ensures a + 1 < |t|
    ensures forall i :: 1 <= i <= a ==> IsSpace(t[i])
    ensures forall i :: a < i < |t| ==> IsDigit(t[i])
  {
    var u := t[1..];
    a := LeadingSpace(u);
    var d := Strip(u);
    var l := u[a..];
    assert u[|u| - 1] == t[|t| - 1];
    assert l[|l| - 1] == u[|u| - 1];
    assert TrailingSpace(l) == 0;
    assert d == l;
    forall i | 1 <= i <= a ensures IsSpace(t[i]) {
      assert t[i] == u[i - 1];
    }
    forall i | a < i < |t| ensures IsDigit(t[i]) {
      assert t[i] == u[i - 1] == l[i - 1 - a];
      assert IsDigit(d[i - 1 - a]);
    }
  }

  /** A non-digit, a run of `a` whitespace characters, then digits to the end. */
  lemma SignedShape(t: string, a: nat)
    requires t != [] && !IsDigit(t[0]) && a + 1 < |t|
    requires forall i :: 1 <= i <= a ==> IsSpace(t[i])
    requires forall i :: a < i < |t| ==> IsDigit(t[i])
    ensures IsDigit(t[|t| - 1])
    ensures forall i :: 0 < i < |t| ==> IsDigit(t[i]) || IsSpace(t[i])
    ensures forall i, j :: 0 <= i < j < |t| && IsDigit(t[i]) ==> IsDigit(t[j])
  {
  }

  /** Whitespace between the sign and the digits is skipped: `int("- 5")` is -5. */
  lemma ParseIntSpaceAfterSign(sign: char, pad: string, n: nat, t: string)
    requires sign == '-' || sign == '+'
    requires AllSpace(pad) && t == [sign] + pad + NatToString(n)
    ensures ParseInt(t) == Some(if sign == '-' then -(n as int) else n)
  {
    var d := NatToString(n);
    DigitsOfNat(n);
    assert !IsSpace(d[0]) && !IsSpace(d[|d| - 1]);
    assert t[|t| - 1] == d[|d| - 1];
    StripNoMargins(t);
    assert t[1..] == pad + d;
    StripPadded(pad, d);
    ParseSigned(t, sign, d, n);
  }

  /** A sign, then text that strips to a digit run, reads as the signed value of the digits. */
  lemma ParseSigned(t: string, sign: char, d: string, n: nat)
    requires t != [] && t[0] == sign && (sign == '-' || sign == '+') && Strip(t) == t
    requires Strip(t[1..]) == d && d != [] && AllDigits(d) && DigitsValue(d) == n
    ensures ParseInt(t) == Some(if sign == '-' then -(n as int) else n)
  {
  }

  /** Leading whitespace before a string with no whitespace at its ends is stripped away. */
  lemma StripPadded(pad: string, d: string)
    requires AllSpace(pad) && d != [] && !IsSpace(d[0]) && !IsSpace(d[|d| - 1])
    ensures Strip(pad + d) == d
  {
    LeadingSpacePadded(pad, d);
    assert (pad + d)[|pad|..] == d;
    assert TrailingSpace(d) == 0;
  }

  lemma {:induction false} LeadingSpacePadded(pad: string, d: string)
    requires AllSpace(pad) && d != [] && !IsSpace(d[0])
    ensures LeadingSpace(pad + d) == |pad|
  {
    if pad == [] {
      assert pad + d == d;
    } else {
      LeadingSpacePadded(pad[1..], d);
      assert (pad + d)[1..] == pad[1..] + d;
    }
  }

  /**
   * `s.split(',')[1]`: the text between the first comma and the next one
   * (or the end); `None` where Python raises because there is no comma.
   */
  function SecondField(s: string): (r: Option<string>)
    ensures r.None? <==> ',' !in s
    ensures r.Some? ==> ',' !in r.value
  {
    match IndexOf(s, [','])
    case None =>
      assert forall k :: 0 <= k < |s| ==> !OccursAt(s, [','], k) && s[k..k + 1] == [s[k]];
      None
    case Some(i) =>
      assert s[i] == ',' by { assert s[i..i + 1] == [','] && s[i..i + 1][0] == s[i]; }
      var rest := s[i + 1..];
      match IndexOf(rest, [','])
      case None =>
        assert forall k :: 0 <= k < |rest| ==> !OccursAt(rest, [','], k) && rest[k..k + 1] == [rest[k]];
        Some(rest)
      case Some(j) =>
        assert forall k :: 0 <= k < j ==> !OccursAt(rest, [','], k) && rest[k..k + 1] == [rest[k]];
        Some(rest[..j])
  }

  /** The second field of `first,field[,...]` is `field`. */
  lemma SecondFieldOf(first: string, field: string, tail: string)
    requires ',' !in first && ',' !in field
    requires tail == [] || tail[0] == ','
    ensures SecondField(first + "," + field + tail) == Some(field)
  {
    var s := first + "," + field + tail;
    assert OccursAt(s, [','], |first|) by { assert s[|first|..|first| + 1] == [',']; }
    forall k | 0 <= k < |first| ensures !OccursAt(s, [','], k) {
      assert s[k..k + 1] == [first[k]];
    }
    var i := IndexOf(s, [',']).value;
    assert i == |first|;
    var rest := s[i + 1..];
    assert rest == field + tail;
    forall k | 0 <= k < |field| ensures !OccursAt(rest, [','], k) {
      assert rest[k..k + 1] == [field[k]];
    }
    if tail != [] {
      assert OccursAt(rest, [','], |field|) by { assert rest[|field|..|field| + 1] == [',']; }
      assert rest[..|field|] == field;
    } else {
      assert rest == field;
      forall k: nat ensures !OccursAt(rest, [','], k) {}
    }
  }
}
