/**
 * The textual side of 3_wallet: the decimal inscription accepted by Wallet(const char*) and
 * Wallet(const std::string&), the binary inscription accepted by Wallet::fromBinary, and the
 * "whole,rest" printing of a balance.
 *
 * The decimal grammar is
 *     spaces  ( "0" | [1-9][0-9]{0,7} )  ( ("." | ",") [0-9]{1,8} )?  spaces
 * and is stated here as a datatype of the inscription's parts, a renderer and a scanner that
 * are each other's inverse.
 */
module WalletText {
  import opened Wrappers

  /** One B is 10^8 units. */
  const UnitsInB: nat := 100_000_000

  function Pow10(k: nat): (r: nat)
    ensures r >= 1
  {
    if k == 0 then 1 else 10 * Pow10(k - 1)
  }

  /** The characters isspace accepts in the "C" locale (the \s of the pattern). */
  predicate IsSpace(c: char) {
    c == ' ' || c == '\t' || c == '\n' || c == '\U{0B}' || c == '\U{0C}' || c == '\r'
  }

  predicate IsDigit(c: char) {
    '0' <= c <= '9'
  }

  predicate AllSpaces(s: string) {
    forall i :: 0 <= i < |s| ==> IsSpace(s[i])
  }

  predicate AllDigits(s: string) {
    forall i :: 0 <= i < |s| ==> IsDigit(s[i])
  }

  /** The value of a string of decimal digits, most significant first (std::stoi on it). */
  function DigitsValue(s: string): (n: nat)
    requires AllDigits(s)
    ensures n < Pow10(|s|)
  {
    if s == [] then 0 else DigitsValue(s[..|s| - 1]) * 10 + (s[|s| - 1] as int - '0' as int)
  }

  /** The decimal digits of n without leading zeros (what an ostream prints for an integer). */
  function NatToString(n: nat): (s: string)
    ensures |s| >= 1 && AllDigits(s)
    ensures |s| > 1 ==> s[0] != '0'
  {
    if n < 10 then [('0' as int + n) as char]
    else NatToString(n / 10) + [('0' as int + n % 10) as char]
  }

  // ---------------------------------------------------------------------------------------
  // The decimal inscription

  datatype Fraction = Fraction(sep: char, digits: string)

  /** An inscription split into the pattern's groups. */
  datatype Inscription = Inscription(lead: string, whole: string, frac: Option<Fraction>, trail: string)

  /** "0", or one to eight digits without a leading zero. */
  predicate WholeOk(w: string) {
    w == "0" || (1 <= |w| <= 8 && '1' <= w[0] <= '9' && AllDigits(w))
  }

  /** Absent, or '.' or ',' followed by one to eight digits. */
  predicate FracOk(f: Option<Fraction>) {
    f.Some? ==> (f.value.sep == '.' || f.value.sep == ',') && 1 <= |f.value.digits| <= 8 && AllDigits(f.value.digits)
  }

  /** The inscription is one the pattern describes. */
  predicate WellFormed(a: Inscription) {
    AllSpaces(a.lead) && WholeOk(a.whole) && FracOk(a.frac) && AllSpaces(a.trail)
  }

  function FracText(f: Option<Fraction>): string {
    if f.Some? then [f.value.sep] + f.value.digits else []
  }

  function Render(a: Inscription): string {
    a.lead + a.whole + FracText(a.frac) + a.trail
  }

  /** The length of the longest prefix of s made of spaces. */
  function SpanSpaces(s: string): (n: nat)
    ensures n <= |s| && AllSpaces(s[..n]) && (n < |s| ==> !IsSpace(s[n]))
  {
    if s == [] || !IsSpace(s[0]) then 0
    else
      var n := 1 + SpanSpaces(s[1..]);
      assert s[..n] == [s[0]] + s[1..][..n - 1];
      n
  }

  /** The length of the longest prefix of s made of digits. */
  function SpanDigits(s: string): (n: nat)
    ensures n <= |s| && AllDigits(s[..n]) && (n < |s| ==> !IsDigit(s[n]))
  {
    if s == [] || !IsDigit(s[0]) then 0
    else
      var n := 1 + SpanDigits(s[1..]);
      assert s[..n] == [s[0]] + s[1..][..n - 1];
      n
  }

  /** What follows the whole part: an optional fraction, then nothing but spaces. */
  function ScanTail(t: string): Option<(Option<Fraction>, string)> {
    if t != [] && (t[0] == '.' || t[0] == ',') then
      var f := SpanDigits(t[1..]);
      if f == 0 || f > 8 || !AllSpaces(t[1 + f..]) then None
      else Some((Some(Fraction(t[0], t[1..1 + f])), t[1 + f..]))
    else if AllSpaces(t) then Some((None, t))
    else None
  }

  /** The whole part and what follows it. */
  function ScanNumber(r: string): Option<(string, Option<Fraction>, string)> {
    var w := WholeLength(r);
    if w == 0 || w > 8 then None
    else
      var tail := ScanTail(r[w..]);
      if tail.None? then None else Some((r[..w], tail.value.0, tail.value.1))
  }

  /** How much of r the whole-part group takes: a lone "0", or the run of digits (0 when r has no digit first). */
  function WholeLength(r: string): (w: nat)
    ensures w <= |r|
    ensures 1 <= w <= 8 ==> WholeOk(r[..w])
  {
    if r == [] || !IsDigit(r[0]) then 0
    else if r[0] == '0' then 1
    else
      var w := SpanDigits(r);
      assert r[..w][0] == r[0];
      w
  }

  /** Matches s against the pattern, returning its groups, or None when it does not match. */
  function Scan(s: string): Option<Inscription> {
    var i := SpanSpaces(s);
    var number := ScanNumber(s[i..]);
    if number.None? then None else Some(Inscription(s[..i], number.value.0, number.value.1, number.value.2))
  }

  /** The number of units an inscription stands for: whole * 10^8 + digits * 10^(8 - |digits|). */
  function Value(a: Inscription): (u: nat)
    requires WellFormed(a)
    ensures u < Pow10(16)
  {
    var whole := DigitsValue(a.whole);
    var frac := if a.frac.Some? then DigitsValue(a.frac.value.digits) * Pow10(8 - |a.frac.value.digits|) else 0;
    FractionBound(a);
    PowMonotone(|a.whole|, 8);
    PowAdd(8, 8);
    whole * UnitsInB + frac
  }

  lemma FractionBound(a: Inscription)
    requires WellFormed(a)
    ensures a.frac.Some? ==> DigitsValue(a.frac.value.digits) * Pow10(8 - |a.frac.value.digits|) < UnitsInB
  {
    if a.frac.None? {
      return;
    }
    var d := a.frac.value.digits;
    PowAdd(|d|, 8 - |d|);
    assert Pow10(8) == UnitsInB;
    MulStrict(DigitsValue(d), Pow10(|d|), Pow10(8 - |d|));
  }

  lemma {:induction false} PowAdd(i: nat, j: nat)
    ensures Pow10(i) * Pow10(j) == Pow10(i + j)
  {
    if i > 0 {
      PowAdd(i - 1, j);
    }
  }

  lemma {:induction false} PowMonotone(i: nat, j: nat)
    requires i <= j
    ensures Pow10(i) <= Pow10(j)
  {
    if i < j {
      PowMonotone(i, j - 1);
    }
  }

  lemma MulStrict(a: nat, b: nat, c: nat)
    requires a < b && c >= 1
    ensures a * c < b * c
  {
  }

  datatype Error = InvalidArgument

  /** Wallet::units_from_string / units_from_const_char: the units the inscription stands for. */
  function UnitsFromString(s: string): (r: Result<nat, Error>)
    ensures r.Ok? ==> r.value < Pow10(16)
    ensures r.Ok? ==> exists a :: WellFormed(a) && Render(a) == s && r.value == Value(a)
  {
    match Scan(s)
    case None => Err(InvalidArgument)
    case Some(a) =>
      RenderScan(s);
      Ok(Value(a))
  }

  /** A string is accepted exactly when it is some well-formed inscription. */
  lemma UnitsFromStringAccepts(s: string)
    ensures UnitsFromString(s).Ok? <==> exists a :: WellFormed(a) && Render(a) == s
  {
    if a :| WellFormed(a) && Render(a) == s {
      ScanRender(a);
    }
  }

  /** Every inscription the pattern describes is recognised, with its own groups. */
  lemma ScanRender(a: Inscription)
    requires WellFormed(a)
    ensures Scan(Render(a)) == Some(a)
  {
    var r := a.whole + FracText(a.frac) + a.trail;
    assert Render(a) == a.lead + r;
    ScanNumberRender(a.whole, a.frac, a.trail);
    LongestSpan(a.lead, r);
  }

  lemma ScanTailRender(f: Option<Fraction>, trail: string)
    requires FracOk(f) && AllSpaces(trail)
    ensures ScanTail(FracText(f) + trail) == Some((f, trail))
  {
    if f.Some? {
      ScanFractionRender(f.value, trail);
    } else {
      assert FracText(f) + trail == trail;
      if trail != [] {
        assert IsSpace(trail[0]);
      }
    }
  }

  lemma ScanFractionRender(g: Fraction, trail: string)
    requires FracOk(Some(g)) && AllSpaces(trail)
    ensures ScanTail(FracText(Some(g)) + trail) == Some((Some(g), trail))
  {
    var t := FracText(Some(g)) + trail;
    var d := g.digits;
    assert t[1..] == d + trail;
    if trail != [] {
      assert IsSpace(trail[0]);
    }
    LongestDigits(d, trail);
    assert t[1..1 + |d|] == d;
    assert t[1 + |d|..] == trail;
  }

  lemma ScanNumberRender(w: string, f: Option<Fraction>, trail: string)
    requires WholeOk(w) && FracOk(f) && AllSpaces(trail)
    ensures ScanNumber(w + FracText(f) + trail) == Some((w, f, trail))
  {
    var t := FracText(f) + trail;
    NoDigitAfterWhole(f, trail);
    WholeLengthOf(w, t);
    ScanTailRender(f, trail);
    Regroup3(w, FracText(f), trail, t, w + t);
  }

  /** What follows the whole part starts with a separator or a space, never a digit. */
  lemma NoDigitAfterWhole(f: Option<Fraction>, trail: string)
    requires FracOk(f) && AllSpaces(trail)
    ensures FracText(f) + trail != [] ==> !IsDigit((FracText(f) + trail)[0])
  {
    if f.None? {
      assert FracText(f) + trail == trail;
    }
  }

  /** The whole-part group of w + t is exactly w when t does not start with a digit. */
  lemma WholeLengthOf(w: string, t: string)
    requires WholeOk(w) && (t != [] ==> !IsDigit(t[0]))
    ensures WholeLength(w + t) == |w|
    ensures (w + t)[..|w|] == w && (w + t)[|w|..] == t
  {
    assert (w + t)[0] == w[0];
    if w != "0" {
      LongestDigits(w, t);
    }
  }

  /** A space prefix followed by a non-space is the longest space prefix. */
  lemma {:induction false} LongestSpan(lead: string, rest: string)
    requires AllSpaces(lead) && (rest != [] ==> !IsSpace(rest[0]))
    ensures SpanSpaces(lead + rest) == |lead|
    ensures (lead + rest)[..|lead|] == lead && (lead + rest)[|lead|..] == rest
  {
    if lead != [] {
      assert (lead + rest)[1..] == lead[1..] + rest;
      LongestSpan(lead[1..], rest);
    } else {
      assert lead + rest == rest;
    }
  }

  /** A digit string followed by a non-digit is the longest digit prefix. */
  lemma {:induction false} LongestDigits(d: string, rest: string)
    requires AllDigits(d) && (rest != [] ==> !IsDigit(rest[0]))
    ensures SpanDigits(d + rest) == |d|
    ensures (d + rest)[..|d|] == d && (d + rest)[|d|..] == rest
  {
    if d != [] {
      assert (d + rest)[1..] == d[1..] + rest;
      LongestDigits(d[1..], rest);
    } else {
      assert d + rest == rest;
    }
  }

  /** Whatever the scanner accepts is well formed and is exactly the scanned string. */
  lemma RenderScan(s: string)
    requires Scan(s).Some?
    ensures WellFormed(Scan(s).value) && Render(Scan(s).value) == s
  {
    var i := SpanSpaces(s);
    var r := s[i..];
    var t := ScanNumber(r).value;
    var a := Scan(s).value;
    assert a == Inscription(s[..i], t.0, t.1, t.2);
    assert WholeOk(t.0) && FracOk(t.1) && AllSpaces(t.2) && t.0 + FracText(t.1) + t.2 == r by {
      ScanNumberSound(r);
    }
    Regroup(s[..i], t.0, FracText(t.1), t.2, r, s);
  }

  lemma Regroup(x: string, y: string, z: string, q: string, r: string, s: string)
    requires y + z + q == r && x + r == s
    ensures x + y + z + q == s
  {
    assert x + y + z + q == x + (y + z + q);
  }

  lemma ScanTailSound(t: string)
    requires ScanTail(t).Some?
    ensures FracOk(ScanTail(t).value.0) && AllSpaces(ScanTail(t).value.1)
    ensures FracText(ScanTail(t).value.0) + ScanTail(t).value.1 == t
  {
    if t != [] && (t[0] == '.' || t[0] == ',') {
      var f := SpanDigits(t[1..]);
      assert t[1..][..f] == t[1..1 + f];
      assert t == [t[0]] + t[1..1 + f] + t[1 + f..];
    }
  }

  lemma ScanNumberSound(r: string)
    requires ScanNumber(r).Some?
    ensures WholeOk(ScanNumber(r).value.0) && FracOk(ScanNumber(r).value.1) && AllSpaces(ScanNumber(r).value.2)
    ensures ScanNumber(r).value.0 + FracText(ScanNumber(r).value.1) + ScanNumber(r).value.2 == r
  {
    var w := WholeLength(r);
    var tail := ScanTail(r[w..]).value;
    ScanTailSound(r[w..]);
    Regroup3(r[..w], FracText(tail.0), tail.1, r[w..], r);
  }

  lemma Regroup3(x: string, y: string, z: string, t: string, r: string)
    requires y + z == t && x + t == r
    ensures x + y + z == r
  {
    assert x + y + z == x + (y + z);
  }

  /** The pattern's groups are the only way to read an inscription: two well-formed splittings agree. */
  lemma RenderInjective(a: Inscription, b: Inscription)
    requires WellFormed(a) && WellFormed(b) && Render(a) == Render(b)
    ensures a == b
  {
    ScanRender(a);
    ScanRender(b);
  }

  // ---------------------------------------------------------------------------------------
  // The binary inscription of Wallet::fromBinary

  predicate IsBit(c: char) {
    c == '0' || c == '1'
  }

  /** The length of the longest prefix of s made of binary digits (where strtol stops). */
  function SpanBits(s: string): (n: nat)
    ensures n <= |s| && (forall i :: 0 <= i < n ==> IsBit(s[i])) && (n < |s| ==> !IsBit(s[n]))
  {
    if s == [] || !IsBit(s[0]) then 0 else 1 + SpanBits(s[1..])
  }

  /** The value of a string of binary digits, most significant first. */
  function BitsValue(s: string): nat
    requires forall i :: 0 <= i < |s| ==> IsBit(s[i])
  {
    if s == [] then 0 else BitsValue(s[..|s| - 1]) * 2 + (if s[|s| - 1] == '1' then 1 else 0)
  }

  const IntMin: int := -0x8000_0000
  const IntMax: int := 0x7FFF_FFFF

  /**
   * The int that fromBinary hands to Wallet(int), or None when it throws first: a leading space,
   * no digits after the optional sign, a value outside int, or characters after the digits.
   */
  function ParseBinary(s: string): (r: Option<int>)
    ensures r.Some? ==> IntMin <= r.value <= IntMax
    ensures r.Some? ==> |s| >= 1 && !IsSpace(s[0])
  {
    if |s| > 0 && IsSpace(s[0]) then None
    else if |s| > 0 && (s[0] == '+' || s[0] == '-') then ParseMagnitude(s[0] == '-', s[1..])
    else ParseMagnitude(false, s)
  }

  predicate AllBits(d: string) {
    forall i :: 0 <= i < |d| ==> IsBit(d[i])
  }

  /** The value of binary digits d, negated when a minus sign preceded them. */
  function SignedValue(negative: bool, d: string): int
    requires AllBits(d)
  {
    if negative then -(BitsValue(d) as int) else BitsValue(d)
  }

  /**
   * The digits after the sign: all binary, at least one, and the signed value within int.
   * Trailing characters and a value outside int are refused.
   */
  function ParseMagnitude(negative: bool, d: string): (r: Option<int>)
    ensures r.Some? ==> IntMin <= r.value <= IntMax && |d| >= 1
    ensures r.Some? <==> |d| >= 1 && AllBits(d) && IntMin <= SignedValue(negative, d) <= IntMax
    ensures r.Some? ==> r.value == SignedValue(negative, d)
  {
    AllBitsSpanIff(d);
    var bits := SpanBits(d);
    if bits == 0 || bits < |d| then None
    else
      var n: int := if negative then -(BitsValue(d) as int) else BitsValue(d);
      if n < IntMin || n > IntMax then None else Some(n)
  }

  /** The binary digits of n without leading zeros. */
  function NatToBits(n: nat): (s: string)
    ensures |s| >= 1 && forall i :: 0 <= i < |s| ==> IsBit(s[i])
  {
    if n < 2 then (if n == 0 then "0" else "1")
    else NatToBits(n / 2) + (if n % 2 == 0 then "0" else "1")
  }

  lemma {:induction false} BitsRoundTrip(n: nat)
    ensures BitsValue(NatToBits(n)) == n
  {
    if n >= 2 {
      var s := NatToBits(n);
      assert s[..|s| - 1] == NatToBits(n / 2);
      BitsRoundTrip(n / 2);
    }
  }

  lemma {:induction false} AllBitsSpanIff(s: string)
    ensures SpanBits(s) == |s| <==> AllBits(s)
  {
    if s != [] {
      AllBitsSpanIff(s[1..]);
      assert SpanBits(s) == |s| ==> SpanBits(s[1..]) == |s[1..]|;
    }
  }

  lemma AllBitsSpan(s: string)
    requires forall i :: 0 <= i < |s| ==> IsBit(s[i])
    ensures SpanBits(s) == |s|
  {
    if s != [] {
      AllBitsSpan(s[1..]);
    }
  }

  /** An optional sign followed by binary digits whose value fits an int is read as that value. */
  lemma ParseSignedBits(sign: string, b: string)
    requires sign == "" || sign == "+" || sign == "-"
    requires |b| >= 1 && forall i :: 0 <= i < |b| ==> IsBit(b[i])
    requires BitsValue(b) <= IntMax
    ensures ParseBinary(sign + b) == Some(if sign == "-" then -(BitsValue(b) as int) else BitsValue(b))
  {
    ParseMagnitudeBits(sign == "-", b);
    if sign == "" {
      assert sign + b == b;
      BitIsNotSign(b[0]);
    } else {
      assert (sign + b)[1..] == b;
    }
  }

  lemma BitIsNotSign(c: char)
    requires IsBit(c)
    ensures !IsSpace(c) && c != '+' && c != '-'
  {
  }

  lemma ParseMagnitudeBits(negative: bool, b: string)
    requires |b| >= 1 && forall i :: 0 <= i < |b| ==> IsBit(b[i])
    requires BitsValue(b) <= IntMax
    ensures ParseMagnitude(negative, b) == Some(if negative then -(BitsValue(b) as int) else BitsValue(b))
  {
    AllBitsSpan(b);
  }

  /** The sign fromBinary's stoi reads: its length (0 or 1) at the head of s. */
  function SignLength(s: string): (k: nat)
    ensures k <= |s|
  {
    if |s| > 0 && (s[0] == '+' || s[0] == '-') then 1 else 0
  }

  /**
   * Exactly which strings fromBinary reads, and as what: a string is accepted if and only if
   * it does not start with a space, and after an optional sign it is one or more binary digits
   * whose signed value fits an int; the result is that value. A trailing non-binary character
   * or an overflowing value is refused, whatever the input.
   */
  lemma ParseBinaryExact(s: string)
    ensures var d := s[SignLength(s)..];
      ParseBinary(s).Some? <==>
        |s| >= 1 && !IsSpace(s[0]) && |d| >= 1 && AllBits(d) &&
        IntMin <= SignedValue(SignLength(s) == 1 && s[0] == '-', d) <= IntMax
    ensures ParseBinary(s).Some? ==>
      ParseBinary(s).value == SignedValue(SignLength(s) == 1 && s[0] == '-', s[SignLength(s)..])
  {
    if |s| > 0 && !IsSpace(s[0]) && SignLength(s) == 0 {
      assert s[0..] == s;
    }
  }

  /** Every int that Wallet(int) accepts is read back from its binary digits, signed or not. */
  lemma ParseBinaryRoundTrip(n: nat)
    requires n <= IntMax
    ensures ParseBinary(NatToBits(n)) == Some(n)
    ensures ParseBinary("+" + NatToBits(n)) == Some(n)
    ensures ParseBinary("-" + NatToBits(n)) == Some(-(n as int))
  {
    BitsRoundTrip(n);
    ParseSignedBits("", NatToBits(n));
    assert "" + NatToBits(n) == NatToBits(n);
    ParseSignedBits("+", NatToBits(n));
    ParseSignedBits("-", NatToBits(n));
  }

  /** Leading spaces, an empty string and trailing characters are all refused. */
  lemma ParseBinaryExamples()
    ensures ParseBinary("") == None
    ensures ParseBinary(" 1") == None
    ensures ParseBinary("12") == None
    ensures ParseBinary("-") == None
    ensures ParseBinary("101") == Some(5)
    ensures ParseBinary("-0") == Some(0)
  {
    assert "101"[..2] == "10" && "10"[..1] == "1";
    assert "-0"[1..] == "0";
  }

  // ---------------------------------------------------------------------------------------
  // Printing a balance

  /** The inscription a balance prints as. */
  function RepresentationOf(u: nat): Inscription {
    Groups(u / UnitsInB, NatToString(u % UnitsInB))
  }

  /** The inscription "w,digits" with no surrounding spaces. */
  function Groups(w: nat, digits: string): Inscription {
    Inscription([], NatToString(w), Some(Fraction(',', digits)), [])
  }

  /** A whole part below 10^8 and one to eight fractional digits make a well-formed inscription. */
  lemma GroupsValue(w: nat, d: string)
    requires w < Pow10(8) && 1 <= |d| <= 8 && AllDigits(d)
    ensures WellFormed(Groups(w, d))
    ensures Value(Groups(w, d)) == w * UnitsInB + DigitsValue(d) * Pow10(8 - |d|)
  {
    WholeOkOf(w);
    NatToStringValue(w);
  }

  /** The printed digits of a number below 10^8 are a whole part the pattern accepts. */
  lemma WholeOkOf(w: nat)
    requires w < Pow10(8)
    ensures WholeOk(NatToString(w))
  {
    var s := NatToString(w);
    NatToStringLength(w, 8);
    if w == 0 {
      assert s == "0";
    } else if w < 10 {
      assert s == [('0' as int + w) as char];
    } else {
      assert |s| > 1;
    }
  }

  /** The whole part of a balance below 10^16 has at most eight digits. */
  lemma WholeBelow(u: nat)
    requires u < Pow10(16)
    ensures u / UnitsInB < Pow10(8) && Pow10(8) == UnitsInB
  {
    assert Pow10(8) == UnitsInB;
    PowAdd(8, 8);
  }

  /** Operation::units_to_B_representation: whole B, a comma, then the remaining units unpadded. */
  function UnitsRepresentation(u: nat): (s: string)
    ensures u < Pow10(16) ==> UnitsFromString(s).Ok?
  {
    RepresentationScans(u);
    Render(RepresentationOf(u))
  }

  lemma RepresentationScans(u: nat)
    ensures u < Pow10(16) ==> Scan(Render(RepresentationOf(u))) == Some(RepresentationOf(u))
  {
    if u < Pow10(16) {
      RepresentationWellFormed(u);
      ScanRender(RepresentationOf(u));
    }
  }

  /** The printed form of any balance below 10^16 is an inscription the parsers accept. */
  lemma RepresentationWellFormed(u: nat)
    requires u < Pow10(16)
    ensures WellFormed(RepresentationOf(u))
  {
    WholeBelow(u);
    NatToStringLength(u % UnitsInB, 8);
    GroupsValue(u / UnitsInB, NatToString(u % UnitsInB));
  }

  lemma {:induction false} NatToStringValue(n: nat)
    ensures DigitsValue(NatToString(n)) == n
  {
    if n >= 10 {
      var s := NatToString(n);
      assert s[..|s| - 1] == NatToString(n / 10);
      NatToStringValue(n / 10);
    }
  }

  lemma {:induction false} NatToStringLength(n: nat, k: nat)
    requires k >= 1
    ensures |NatToString(n)| <= k <==> n < Pow10(k)
  {
    if n >= 10 && k > 1 {
      NatToStringLength(n / 10, k - 1);
    } else if n >= 10 {
      assert Pow10(1) == 10;
    } else {
      PowMonotone(1, k);
      assert Pow10(1) == 10;
    }
  }

  /**
   * Printing and parsing are not inverse: a balance below 2^64 whose whole part fits the
   * pattern reads back as itself exactly when its fractional units are 0 or have all eight
   * digits; otherwise the unpadded digits are read as a larger fraction.
   */
  lemma RepresentationReadsBack(u: nat)
    requires u < Pow10(16)
    ensures UnitsFromString(UnitsRepresentation(u)) == Ok(u) <==> (u % UnitsInB == 0 || u % UnitsInB >= Pow10(7))
  {
    RepresentationValue(u);
    ValueReadsBack(u);
  }

  /** The printed groups stand for the balance exactly when its fractional units need no padding. */
  lemma ValueReadsBack(u: nat)
    requires u < Pow10(16)
    ensures WellFormed(RepresentationOf(u))
    ensures Value(RepresentationOf(u)) == u <==> (u % UnitsInB == 0 || u % UnitsInB >= Pow10(7))
  {
    RepresentationDigits(u);
    FractionReadsBack(u % UnitsInB);
    SameTotal(u, u / UnitsInB, u % UnitsInB, Pow10(8 - |NatToString(u % UnitsInB)|), Value(RepresentationOf(u)));
  }

  /** Unpadded fractional digits keep their value exactly when there are eight of them, or the value is 0. */
  lemma FractionReadsBack(f: nat)
    requires f < UnitsInB
    ensures |NatToString(f)| <= 8
    ensures f * Pow10(8 - |NatToString(f)|) == f <==> f == 0 || f >= Pow10(7)
  {
    var len := |NatToString(f)|;
    assert len <= 8 by {
      assert Pow10(8) == UnitsInB;
      NatToStringLength(f, 8);
    }
    var p := Pow10(8 - len);
    assert f * p == f <==> f == 0 || p == 1 by {
      ScaleFixed(f, p);
    }
    assert p == 1 <==> len == 8 by {
      if len < 8 {
        PowMonotone(1, 8 - len);
        assert Pow10(1) == 10;
      }
    }
    assert f != 0 ==> (len == 8 <==> f >= Pow10(7)) by {
      NatToStringLength(f, 7);
    }
  }

  lemma SameTotal(u: nat, w: nat, f: nat, p: nat, v: nat)
    requires w == u / UnitsInB && f == u % UnitsInB && v == w * UnitsInB + f * p
    ensures v == u <==> f * p == f
  {
    assert u == w * UnitsInB + f;
  }

  /** Scaling a natural by p >= 1 leaves it unchanged only when it is 0 or p is 1. */
  lemma ScaleFixed(f: nat, p: nat)
    requires p >= 1
    ensures f * p == f <==> f == 0 || p == 1
  {
    if f != 0 && p != 1 {
      assert f * p >= f * 2;
    }
  }

  /** The printed form reads back as the value of its own groups. */
  lemma RepresentationValue(u: nat)
    requires u < Pow10(16)
    ensures WellFormed(RepresentationOf(u))
    ensures UnitsFromString(UnitsRepresentation(u)) == Ok(Value(RepresentationOf(u)))
  {
    var a := RepresentationOf(u);
    assert WellFormed(a) && Scan(Render(a)) == Some(a) by {
      RepresentationWellFormed(u);
      RepresentationScans(u);
    }
  }

  /** The groups' value: the whole part plus the unpadded digits scaled up to eight places. */
  lemma RepresentationDigits(u: nat)
    requires u < Pow10(16)
    ensures WellFormed(RepresentationOf(u))
    ensures Value(RepresentationOf(u)) == u / UnitsInB * UnitsInB + u % UnitsInB * Pow10(8 - |NatToString(u % UnitsInB)|)
  {
    WholeBelow(u);
    NatToStringLength(u % UnitsInB, 8);
    NatToStringValue(u % UnitsInB);
    GroupsValue(u / UnitsInB, NatToString(u % UnitsInB));
  }

  /**
   * A balance whose fractional units are a single digit d prints as "w,d" and reads back with
   * d * 10^7 fractional units; one unit, for instance, prints as "0,1".
   */
  lemma SingleDigitFractionMisread(u: nat)
    requires u < Pow10(16) && 0 < u % UnitsInB < 10
    ensures UnitsFromString(UnitsRepresentation(u)) == Ok(u / UnitsInB * UnitsInB + u % UnitsInB * Pow10(7))
    ensures UnitsFromString(UnitsRepresentation(u)) != Ok(u)
  {
    RepresentationValue(u);
    RepresentationDigits(u);
    assert |NatToString(u % UnitsInB)| == 1;
    ValueReadsBack(u);
    PowMonotone(1, 7);
    assert Pow10(1) == 10;
  }

  lemma OneUnitPrints()
    ensures UnitsRepresentation(1) == "0,1"
  {
    assert NatToString(0) == "0" && NatToString(1) == "1";
    assert Render(RepresentationOf(1)) == "0,1";
  }

  // ---------------------------------------------------------------------------------------
  // Printing a balance so that it reads back

  /** k zero digits. */
  function ZeroRun(k: nat): (s: string)
    ensures |s| == k && AllDigits(s)
  {
    if k == 0 then [] else ZeroRun(k - 1) + "0"
  }

  lemma {:induction false} ZeroRunValue(k: nat)
    ensures DigitsValue(ZeroRun(k)) == 0
  {
    if k > 0 {
      assert ZeroRun(k)[..k - 1] == ZeroRun(k - 1);
      ZeroRunValue(k - 1);
    }
  }

  /** Leading zeros do not change the value of a digit string. */
  lemma {:induction false} LeadingZeros(k: nat, d: string)
    requires AllDigits(d)
    ensures AllDigits(ZeroRun(k) + d) && DigitsValue(ZeroRun(k) + d) == DigitsValue(d)
  {
    var z := ZeroRun(k);
    assert AllDigits(z + d) by {
      forall i | 0 <= i < |z + d|
        ensures IsDigit((z + d)[i])
      {
        if i >= |z| {
          assert (z + d)[i] == d[i - |z|];
        }
      }
    }
    if d == [] {
      assert z + d == z;
      ZeroRunValue(k);
    } else {
      var init := d[..|d| - 1];
      assert (z + d)[..|z + d| - 1] == z + init;
      assert (z + d)[|z + d| - 1] == d[|d| - 1];
      LeadingZeros(k, init);
    }
  }

  /** The fractional units as exactly eight digits, zero-padded on the left. */
  function PaddedFraction(f: nat): (s: string)
    requires f < UnitsInB
    ensures |s| == 8 && AllDigits(s) && DigitsValue(s) == f
  {
    assert |NatToString(f)| <= 8 by {
      assert Pow10(8) == UnitsInB;
      NatToStringLength(f, 8);
    }
    NatToStringValue(f);
    LeadingZeros(8 - |NatToString(f)|, NatToString(f));
    ZeroRun(8 - |NatToString(f)|) + NatToString(f)
  }

  function PaddedRepresentationOf(u: nat): Inscription {
    Groups(u / UnitsInB, PaddedFraction(u % UnitsInB))
  }

  /** Whole B, a comma, then the remaining units as eight digits. */
  function PaddedRepresentation(u: nat): (s: string)
  {
    Render(PaddedRepresentationOf(u))
  }

  /** The padded groups are well formed and stand for the balance itself. */
  lemma PaddedValue(u: nat)
    requires u < Pow10(16)
    ensures WellFormed(PaddedRepresentationOf(u)) && Value(PaddedRepresentationOf(u)) == u
  {
    WholeBelow(u);
    GroupsValue(u / UnitsInB, PaddedFraction(u % UnitsInB));
    assert Pow10(0) == 1;
  }

  /** Every balance the parsers can produce prints as an inscription that reads back as itself. */
  lemma PaddedRepresentationReadsBack(u: nat)
    requires u < Pow10(16)
    ensures UnitsFromString(PaddedRepresentation(u)) == Ok(u)
  {
    PaddedValue(u);
    ScanRender(PaddedRepresentationOf(u));
  }
}
