/**
 Volume, issue and chapter numbers, years and versions of canonical names (scripts/cbz_canonical_name.py).
 A number is `N`, `N.F` or `A-B`; kept without padding, written with it.
 */
module CanonicalNumbers {
  import opened Outcomes

  predicate IsDigit(c: char) {
    '0' <= c <= '9'
  }

  /** `[0-9]+` */
  predicate Digits(s: string) {
    s != "" && forall i | 0 <= i < |s| :: IsDigit(s[i])
  }

  /** The first position of `c`, or the length. */
  function IndexOf(s: string, c: char): (k: nat)
    ensures k <= |s| && c !in s[..k]
    ensures k < |s| ==> s[k] == c
  {
    if s == "" then 0 else if s[0] == c then 0 else
      var k := IndexOf(s[1..], c) + 1;
      assert s[..k] == [s[0]] + s[1..][..k - 1];
      k
  }

  lemma IndexOfIs(s: string, c: char, k: nat)
    requires k <= |s| && c !in s[..k] && (k < |s| ==> s[k] == c)
    ensures IndexOf(s, c) == k
  {
  }

  lemma DigitsHaveNo(s: string, c: char)
    requires Digits(s) && !IsDigit(c)
    ensures c !in s && IndexOf(s, c) == |s| && s[..|s|] == s && s[|s|..] == ""
  {
  }

  /** `[0-9]+(?:\.[0-9]+)?` */
  predicate IsEndpoint(s: string) {
    var k := IndexOf(s, '.');
    Digits(s[..k]) && (k < |s| ==> Digits(s[k + 1..]))
  }

  /** One endpoint, or two joined by a dash. */
  predicate IsNumber(s: string) {
    var k := IndexOf(s, '-');
    IsEndpoint(s[..k]) && (k < |s| ==> IsEndpoint(s[k + 1..]))
  }

  predicate NumberChar(c: char) {
    IsDigit(c) || c == '.' || c == '-'
  }

  lemma EndpointChars(s: string)
    requires IsEndpoint(s)
    ensures s != "" && IsDigit(s[0]) && forall i | 0 <= i < |s| :: IsDigit(s[i]) || s[i] == '.'
  {
  }

  lemma NumberChars(s: string)
    requires IsNumber(s)
    ensures s != "" && IsDigit(s[0]) && forall i | 0 <= i < |s| :: NumberChar(s[i])
  {
    var k := IndexOf(s, '-');
    EndpointChars(s[..k]);
    if k < |s| {
      EndpointChars(s[k + 1..]);
    }
    forall i | 0 <= i < |s| ensures NumberChar(s[i]) {
      if i < k {
        assert s[..k][i] == s[i];
      } else if i > k {
        assert s[k + 1..][i - k - 1] == s[i];
      }
    }
  }

  // ------------------------------------------------------------ leading zeros

  function Zeros(n: int): (z: string)
    ensures |z| == if n > 0 then n else 0
    ensures forall i | 0 <= i < |z| :: z[i] == '0'
  {
    if n <= 0 then "" else "0" + Zeros(n - 1)
  }

  function DropZeros(s: string): string {
    if s != "" && s[0] == '0' then DropZeros(s[1..]) else s
  }

  /** `whole.lstrip("0") or "0"` */
  function StripZeros(s: string): string {
    if DropZeros(s) == "" then "0" else DropZeros(s)
  }

  function CanonicalEndpoint(s: string): string {
    var k := IndexOf(s, '.');
    StripZeros(s[..k]) + s[k..]
  }

  function PadEndpoint(s: string, width: nat): string {
    Zeros(width - IndexOf(s, '.')) + s
  }

  lemma {:induction false} DropPaddedZeros(n: int, s: string)
    ensures DropZeros(Zeros(n) + s) == DropZeros(s)
  {
    if n > 0 {
      assert (Zeros(n) + s)[1..] == Zeros(n - 1) + s;
      DropPaddedZeros(n - 1, s);
    } else {
      assert Zeros(n) + s == s;
    }
  }

  lemma {:induction false} DropZerosShape(s: string)
    requires Digits(s)
    ensures DropZeros(s) == "" || (Digits(DropZeros(s)) && DropZeros(s)[0] != '0')
    ensures DropZeros(StripZeros(s)) == "" ==> StripZeros(s) == "0"
    ensures Digits(StripZeros(s)) && StripZeros(StripZeros(s)) == StripZeros(s)
  {
    assert DropZeros("0") == "" by {
      assert "0"[1..] == "";
    }
    if s[0] == '0' && |s| > 1 {
      assert Digits(s[1..]);
      DropZerosShape(s[1..]);
    } else if s[0] == '0' {
      assert s == "0";
    }
  }

  /** Nothing, or a point and digits. */
  predicate IsFraction(s: string) {
    s == "" || (s[0] == '.' && Digits(s[1..]))
  }

  /** An endpoint put together from its parts. */
  lemma EndpointOf(whole: string, fraction: string)
    requires Digits(whole) && IsFraction(fraction)
    ensures var s := whole + fraction;
      IndexOf(s, '.') == |whole| && IsEndpoint(s) && CanonicalEndpoint(s) == StripZeros(whole) + fraction
  {
    var s := whole + fraction;
    DigitsHaveNo(whole, '.');
    assert s[..|whole|] == whole && s[|whole|..] == fraction;
    IndexOfIs(s, '.', |whole|);
    if fraction != "" {
      assert s[|whole| + 1..] == fraction[1..];
    }
  }

  lemma EndpointParts(s: string) returns (whole: string, fraction: string)
    requires IsEndpoint(s)
    ensures s == whole + fraction && Digits(whole) && IsFraction(fraction)
    ensures CanonicalEndpoint(s) == StripZeros(whole) + fraction && |whole| == IndexOf(s, '.')
  {
    var k := IndexOf(s, '.');
    whole, fraction := s[..k], s[k..];
    if k < |s| {
      assert fraction[1..] == s[k + 1..];
    }
  }

  lemma CanonicalEndpointShape(s: string)
    requires IsEndpoint(s)
    ensures IsEndpoint(CanonicalEndpoint(s)) && CanonicalEndpoint(CanonicalEndpoint(s)) == CanonicalEndpoint(s)
  {
    var whole, fraction := EndpointParts(s);
    DropZerosShape(whole);
    EndpointOf(StripZeros(whole), fraction);
  }

  lemma DigitsAfterZeros(n: int, whole: string)
    requires Digits(whole)
    ensures Digits(Zeros(n) + whole)
  {
  }

  lemma PaddedParts(n: int, whole: string, fraction: string)
    requires Digits(whole) && IsFraction(fraction)
    ensures IsEndpoint(Zeros(n) + (whole + fraction))
    ensures CanonicalEndpoint(Zeros(n) + (whole + fraction)) == StripZeros(whole) + fraction
  {
    assert Zeros(n) + (whole + fraction) == Zeros(n) + whole + fraction;
    DigitsAfterZeros(n, whole);
    EndpointOf(Zeros(n) + whole, fraction);
    DropPaddedZeros(n, whole);
  }

  /** Padding is exactly what canonicalisation takes off again. */
  lemma CanonicalOfPaddedEndpoint(s: string, width: nat)
    requires IsEndpoint(s) && CanonicalEndpoint(s) == s
    ensures IsEndpoint(PadEndpoint(s, width)) && CanonicalEndpoint(PadEndpoint(s, width)) == s
  {
    var whole, fraction := EndpointParts(s);
    PaddedParts(width - |whole|, whole, fraction);
  }

  // ------------------------------------------------------------ whole numbers and ranges

  /** The value of a string of digits, and of the digits after a point. */
  function ValueOf(s: string): nat {
    if s == "" then 0 else ValueOf(s[..|s| - 1]) * 10 + DigitValue(s[|s| - 1])
  }

  function DigitValue(c: char): nat {
    if IsDigit(c) then c as nat - '0' as nat else 0
  }

  function FractionOf(s: string): real {
    if s == "" then 0.0 else (DigitValue(s[0]) as real + FractionOf(s[1..])) / 10.0
  }

  function DecimalOf(s: string): real {
    var k := IndexOf(s, '.');
    ValueOf(s[..k]) as real + (if k < |s| then FractionOf(s[k + 1..]) else 0.0)
  }

  /** `_canonical_number` of a string: malformed and non-ascending numbers have none. */
  function CanonicalNumber(s: string): Option<string> {
    if !IsNumber(s) then None else
    var k := IndexOf(s, '-');
    var low := CanonicalEndpoint(s[..k]);
    if k == |s| then Some(low) else
    var high := CanonicalEndpoint(s[k + 1..]);
    if DecimalOf(low) >= DecimalOf(high) then None else Some(low + "-" + high)
  }

  /** `number.split("-")` */
  function SplitDash(s: string): (parts: seq<string>)
    ensures |parts| > 0
  {
    var k := IndexOf(s, '-');
    if k == |s| then [s] else [s[..k]] + SplitDash(s[k + 1..])
  }

  function JoinDash(parts: seq<string>): string {
    if parts == [] then "" else if |parts| == 1 then parts[0] else parts[0] + "-" + JoinDash(parts[1..])
  }

  function PadAll(parts: seq<string>, width: nat): (padded: seq<string>)
    ensures |padded| == |parts|
  {
    if parts == [] then [] else [PadEndpoint(parts[0], width)] + PadAll(parts[1..], width)
  }

  function Pad(number: string, width: nat): string {
    JoinDash(PadAll(SplitDash(number), width))
  }

  lemma {:induction false} PadAllAppend(parts: seq<string>, last: string, width: nat)
    ensures PadAll(parts + [last], width) == PadAll(parts, width) + [PadEndpoint(last, width)]
  {
    if parts == [] {
      assert parts + [last] == [last];
    } else {
      assert (parts + [last])[1..] == parts[1..] + [last];
      PadAllAppend(parts[1..], last, width);
    }
  }

  /** `p` is `s` with zeros before it, just so many that at least `width` digits stand before the point. */
  predicate PaddedEndpoint(p: string, s: string, width: nat) {
    && |s| <= |p| && p[|p| - |s|..] == s && (forall i | 0 <= i < |p| - |s| :: p[i] == '0')
    && IndexOf(p, '.') == if IndexOf(s, '.') < width then width else IndexOf(s, '.')
  }

  /** Both ends of a range are padded. */
  predicate Padded(p: string, s: string, width: nat) {
    var i, k := IndexOf(p, '-'), IndexOf(s, '-');
    && PaddedEndpoint(p[..i], s[..k], width)
    && (i < |p| <==> k < |s|)
    && (i < |p| && k < |s| ==> PaddedEndpoint(p[i + 1..], s[k + 1..], width))
  }

  lemma EndpointIsPadded(s: string, width: nat)
    requires IsEndpoint(s)
    ensures PaddedEndpoint(PadEndpoint(s, width), s, width)
  {
    var whole, fraction := EndpointParts(s);
    var zeros := Zeros(width - |whole|);
    assert zeros + s == zeros + whole + fraction;
    DigitsAfterZeros(width - |whole|, whole);
    EndpointOf(zeros + whole, fraction);
  }

  /** Padding pads: the whole part of each end of a number gets zeros in front up to the width, and nothing else. */
  lemma NumberIsPadded(s: string, width: nat)
    requires IsNumber(s)
    ensures Padded(Pad(s, width), s, width)
  {
    hide IsEndpoint, PaddedEndpoint, PadEndpoint;
    var k := IndexOf(s, '-');
    if k == |s| {
      assert s[..k] == s && SplitDash(s) == [s] && Pad(s, width) == PadEndpoint(s, width);
      PaddedHasNoDash(s, width);
    } else {
      var low, high := s[..k], s[k + 1..];
      PaddedHasNoDash(low, width);
      PaddedHasNoDash(high, width);
      assert s == low + "-" + high;
      PadOfRange(low, high, width);
      DashSplit(PadEndpoint(low, width), PadEndpoint(high, width));
    }
  }

  lemma PaddedHasNoDash(s: string, width: nat)
    requires IsEndpoint(s)
    ensures var p := PadEndpoint(s, width); PaddedEndpoint(p, s, width) && '-' !in p && IndexOf(p, '-') == |p| && p[..|p|] == p
  {
    var p := PadEndpoint(s, width);
    EndpointIsPadded(s, width);
    EndpointHasNoDash(s);
    IndexOfIs(p, '-', |p|);
  }

  /** `_pad`, as the loop it is. */
  method PadNumber(number: string, width: nat) returns (r: string)
    ensures r == Pad(number, width)
    ensures IsNumber(number) ==> Padded(r, number, width)
  {
    if IsNumber(number) {
      NumberIsPadded(number, width);
    }
    var parts := SplitDash(number);
    var padded: seq<string> := [];
    for i := 0 to |parts|
      invariant padded == PadAll(parts[..i], width)
    {
      PadAllAppend(parts[..i], parts[i], width);
      assert parts[..i + 1] == parts[..i] + [parts[i]];
      padded := padded + [PadEndpoint(parts[i], width)];
    }
    assert parts[..|parts|] == parts;
    r := JoinDash(padded);
  }

  /** What the fields hold: a number that canonicalises to itself. */
  predicate IsCanonical(s: string) {
    CanonicalNumber(s) == Some(s)
  }

  lemma EndpointHasNoDash(s: string)
    requires IsEndpoint(s)
    ensures '-' !in s
  {
  }

  lemma DashSplit(low: string, high: string)
    requires '-' !in low
    ensures var s := low + "-" + high;
      IndexOf(s, '-') == |low| && s[..|low|] == low && s[|low| + 1..] == high
  {
    var s := low + "-" + high;
    assert s[..|low|] == low;
    IndexOfIs(s, '-', |low|);
  }

  lemma CanonicalNumberIsCanonical(s: string)
    requires CanonicalNumber(s).Some?
    ensures IsCanonical(CanonicalNumber(s).value)
  {
    hide CanonicalEndpoint, IsEndpoint, DecimalOf, IndexOf;
    var k := IndexOf(s, '-');
    CanonicalEndpointShape(s[..k]);
    var low := CanonicalEndpoint(s[..k]);
    EndpointHasNoDash(low);
    if k == |s| {
      IndexOfIs(low, '-', |low|);
      assert low[..|low|] == low;
    } else {
      CanonicalEndpointShape(s[k + 1..]);
      DashSplit(low, CanonicalEndpoint(s[k + 1..]));
    }
  }

  /** The endpoints of a canonical range are canonical. */
  lemma CanonicalRangeParts(s: string) returns (low: string, high: string)
    requires IsCanonical(s) && IndexOf(s, '-') < |s|
    ensures s == low + "-" + high && IsEndpoint(low) && IsEndpoint(high)
    ensures CanonicalEndpoint(low) == low && CanonicalEndpoint(high) == high && DecimalOf(low) < DecimalOf(high)
  {
    var k := IndexOf(s, '-');
    CanonicalEndpointShape(s[..k]);
    CanonicalEndpointShape(s[k + 1..]);
    low, high := CanonicalEndpoint(s[..k]), CanonicalEndpoint(s[k + 1..]);
    EndpointHasNoDash(low);
    DashSplit(low, high);
  }

  /** A padded canonical number reads back as that number. */
  lemma CanonicalOfPadded(s: string, width: nat)
    requires IsCanonical(s)
    ensures IsNumber(Pad(s, width)) && CanonicalNumber(Pad(s, width)) == Some(s)
  {
    var k := IndexOf(s, '-');
    if k == |s| {
      assert s[..k] == s;
      CanonicalOfPaddedSingle(s, width);
    } else {
      var low, high := CanonicalRangeParts(s);
      CanonicalOfPaddedRange(low, high, width);
    }
  }

  lemma CanonicalOfPaddedSingle(s: string, width: nat)
    requires IsEndpoint(s) && CanonicalEndpoint(s) == s
    ensures IsNumber(Pad(s, width)) && CanonicalNumber(Pad(s, width)) == Some(s)
  {
    var p := PadEndpoint(s, width);
    CanonicalOfPaddedEndpoint(s, width);
    EndpointHasNoDash(s);
    EndpointHasNoDash(p);
    assert s[..|s|] == s && p[..|p|] == p;
    IndexOfIs(s, '-', |s|);
    IndexOfIs(p, '-', |p|);
    assert PadAll([s], width) == [p];
  }

  lemma RangeOf(low: string, high: string)
    requires IsEndpoint(low) && IsEndpoint(high)
    requires DecimalOf(CanonicalEndpoint(low)) < DecimalOf(CanonicalEndpoint(high))
    ensures IsNumber(low + "-" + high)
    ensures CanonicalNumber(low + "-" + high) == Some(CanonicalEndpoint(low) + "-" + CanonicalEndpoint(high))
  {
    EndpointHasNoDash(low);
    DashSplit(low, high);
  }

  lemma PadOfRange(low: string, high: string, width: nat)
    requires IsEndpoint(low) && IsEndpoint(high)
    ensures Pad(low + "-" + high, width) == PadEndpoint(low, width) + "-" + PadEndpoint(high, width)
  {
    EndpointHasNoDash(low);
    EndpointHasNoDash(high);
    DashSplit(low, high);
    assert high[..|high|] == high;
    IndexOfIs(high, '-', |high|);
    assert SplitDash(low + "-" + high) == [low, high];
    PadOfTwo(low, high, width);
  }

  lemma CanonicalOfPaddedRange(low: string, high: string, width: nat)
    requires IsEndpoint(low) && CanonicalEndpoint(low) == low
    requires IsEndpoint(high) && CanonicalEndpoint(high) == high
    requires DecimalOf(low) < DecimalOf(high)
    ensures var s := low + "-" + high;
      IsNumber(Pad(s, width)) && CanonicalNumber(Pad(s, width)) == Some(s)
  {
    PadOfRange(low, high, width);
    CanonicalOfPaddedEndpoint(low, width);
    CanonicalOfPaddedEndpoint(high, width);
    RangeOf(PadEndpoint(low, width), PadEndpoint(high, width));
  }

  lemma PadOfTwo(low: string, high: string, width: nat)
    ensures JoinDash(PadAll([low, high], width)) == PadEndpoint(low, width) + "-" + PadEndpoint(high, width)
  {
  }

  // ------------------------------------------------------------ decimal text of whole numbers

  /** How many digits, by this reading, a text ends in. */
  function TrailingDigits(isDigit: char -> bool, s: string): (n: nat)
    ensures n <= |s|
  {
    if s != "" && isDigit(s[|s| - 1]) then 1 + TrailingDigits(isDigit, s[..|s| - 1]) else 0
  }

  function NatText(n: nat): (s: string)
    ensures Digits(s)
  {
    if n < 10 then [DigitChar(n)] else NatText(n / 10) + [DigitChar(n % 10)]
  }

  function DigitChar(d: nat): (c: char)
    requires d < 10
    ensures IsDigit(c) && DigitValue(c) == d
  {
    '0' + d as char
  }

  lemma {:induction false} NatTextShape(n: nat)
    ensures ValueOf(NatText(n)) == n
    ensures NatText(n)[0] == '0' <==> n == 0
    ensures n == 0 ==> NatText(n) == "0"
  {
    var s := NatText(n);
    if n >= 10 {
      NatTextShape(n / 10);
      assert s[..|s| - 1] == NatText(n / 10);
    }
  }

  lemma NextDigit(n: nat)
    requires n >= 10
    ensures |NatText(n)| == |NatText(n / 10)| + 1
  {
  }

  lemma YearTextShape(n: nat)
    requires 1000 <= n <= 9999
    ensures |NatText(n)| == 4 && ValueOf(NatText(n)) == n
  {
    NatTextShape(n);
    NextDigit(n);
    NextDigit(n / 10);
    NextDigit(n / 10 / 10);
    assert |NatText(n / 10 / 10 / 10)| == 1;
  }

  lemma NatTextIsCanonical(n: nat)
    ensures IsCanonical(NatText(n))
  {
    var s := NatText(n);
    NatTextShape(n);
    DigitsHaveNo(s, '.');
    DigitsHaveNo(s, '-');
    assert StripZeros(s) == s by {
      if n == 0 {
        assert "0"[1..] == "";
      }
    }
    assert CanonicalEndpoint(s) == s;
  }
}
