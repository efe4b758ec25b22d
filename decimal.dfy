/**
  Coordinates in file names: `f"{x:.2f}"` when a per-point file is written,
  and `round(float(s), 2)` when it is read back. Reals stand for the Python
  floats; a coordinate key is a whole number of hundredths.
 */
module Decimal {
  import opened Common

  predicate IsDigit(c: char) {
    '0' <= c <= '9'
  }

  function DigitValue(c: char): nat
    requires IsDigit(c)
  {
    c as int - '0' as int
  }

  function DigitChar(d: nat): (c: char)
    requires d < 10
    ensures IsDigit(c) && DigitValue(c) == d
  {
    ('0' as int + d) as char
  }

  predicate AllDigits(s: string) {
    forall i :: 0 <= i < |s| ==> IsDigit(s[i])
  }

  /** The number a string of decimal digits spells, most significant first. */
  function DigitsValue(s: string): nat
    requires AllDigits(s)
    decreases |s|
  {
    if |s| == 0 then 0 else 10 * DigitsValue(s[..|s| - 1]) + DigitValue(s[|s| - 1])
  }

  /** The decimal spelling of n, without leading zeros. */
  function NatToDigits(n: nat): (s: string)
    ensures |s| > 0 && AllDigits(s)
    decreases n
  {
    if n < 10 then [DigitChar(n)] else NatToDigits(n / 10) + [DigitChar(n % 10)]
  }

  lemma {:induction false} DigitsRoundTrip(n: nat)
    ensures DigitsValue(NatToDigits(n)) == n
    decreases n
  {
    if n >= 10 {
      DigitsRoundTrip(n / 10);
      var s := NatToDigits(n);
      assert s[..|s| - 1] == NatToDigits(n / 10);
    }
  }

  /** The last w decimal digits of n, with leading zeros: `f"{n:0{w}d}"` for n < 10^w. */
  function Pad(n: nat, w: nat): (s: string)
    ensures |s| == w && AllDigits(s)
  {
    if w == 0 then [] else Pad(n / 10, w - 1) + [DigitChar(n % 10)]
  }

  /** A padded number below 10^w reads back as itself. */
  lemma {:induction false} PadValue(n: nat, w: nat)
    requires n < Pow10(w)
    ensures DigitsValue(Pad(n, w)) == n
  {
    if w > 0 {
      var s := Pad(n, w);
      assert n / 10 < Pow10(w - 1);
      PadValue(n / 10, w - 1);
      assert s[..w - 1] == Pad(n / 10, w - 1);
      assert DigitsValue(s) == 10 * (n / 10) + n % 10;
    }
  }

  /** Every string of w digits is the padding of the number it spells. */
  lemma {:induction false} PadDigits(s: string)
    requires AllDigits(s)
    ensures DigitsValue(s) < Pow10(|s|)
    ensures Pad(DigitsValue(s), |s|) == s
    decreases |s|
  {
    if |s| > 0 {
      var n := |s| - 1;
      var pre, c := s[..n], s[n];
      PadDigits(pre);
      var v := DigitsValue(pre);
      assert DigitsValue(s) == 10 * v + DigitValue(c);
      assert (10 * v + DigitValue(c)) / 10 == v && (10 * v + DigitValue(c)) % 10 == DigitValue(c);
      assert DigitChar(DigitValue(c)) == c;
      assert s == pre + [c];
    }
  }

  function Pow10(k: nat): (r: nat)
    ensures r >= 1
  {
    if k == 0 then 1 else 10 * Pow10(k - 1)
  }

  /**
    Rounding to two decimals, half to even, as a count of hundredths: the
    nearest multiple of 0.01 to x.
   */
  function Round2(x: real): (h: int)
    ensures -0.5 <= x * 100.0 - h as real <= 0.5
  {
    var y := x * 100.0;
    var f := y.Floor;
    var frac := y - f as real;
    if frac < 0.5 then f
    else if frac > 0.5 then f + 1
    else if f % 2 == 0 then f
    else f + 1
  }

  /** `f"{x:.2f}"` for a value whose rounding to hundredths is h. */
  function FormatFixed2(h: int): string
  {
    var a := AbsInt(h);
    (if h < 0 then "-" else "") + NatToDigits(a / 100) + "." + TwoDigits(a % 100)
  }

  /** The first '.' at or after position i. */
  function DotIndex(s: string, i: nat): (r: Option<nat>)
    ensures r.Some? ==> i <= r.value < |s| && s[r.value] == '.'
    ensures r.Some? ==> forall k :: i <= k < r.value ==> s[k] != '.'
    ensures r.None? ==> forall k :: i <= k < |s| ==> s[k] != '.'
    decreases |s| - i
  {
    if i >= |s| then None else if s[i] == '.' then Some(i) else DotIndex(s, i + 1)
  }

  /** An unsigned decimal: digits, optionally a '.' and more digits, at least one digit in all. */
  function ParseUnsigned(s: string): Option<real>
  {
    match DotIndex(s, 0)
    case None =>
      if |s| > 0 && AllDigits(s) then Some(DigitsValue(s) as real) else None
    case Some(k) =>
      var ip, fp := s[..k], s[k + 1..];
      if AllDigits(ip) && AllDigits(fp) && |ip| + |fp| > 0
      then Some(DigitsValue(ip) as real + DigitsValue(fp) as real / Pow10(|fp|) as real)
      else None
  }

  /** `float(s)` on plain decimal notation with an optional sign; `None` where it raises. */
  function ParseDecimal(s: string): Option<real>
  {
    if |s| > 0 && s[0] == '-' then
      match ParseUnsigned(s[1..])
      case None => None
      case Some(v) => Some(-v)
    else if |s| > 0 && s[0] == '+' then ParseUnsigned(s[1..])
    else ParseUnsigned(s)
  }

  /** The two-digit fraction part written by `FormatFixed2`. */
  function TwoDigits(rem: nat): (cc: string)
    requires rem < 100
    ensures |cc| == 2 && AllDigits(cc)
  {
    [DigitChar(rem / 10), DigitChar(rem % 10)]
  }

  lemma TwoDigitsValue(rem: nat)
    requires rem < 100
    ensures DigitsValue(TwoDigits(rem)) == rem
  {
    var cc := TwoDigits(rem);
    assert cc[..1] == [DigitChar(rem / 10)];
    assert DigitsValue(cc[..1]) == rem / 10;
  }

  lemma DotAfterDigits(d: string, rest: string)
    requires AllDigits(d) && |rest| > 0 && rest[0] == '.'
    ensures DotIndex(d + rest, 0) == Some(|d|)
  {
    var s := d + rest;
    assert s[|d|] == '.';
    assert forall k :: 0 <= k < |d| ==> s[k] == d[k];
  }

  /** The unsigned part of a formatted coordinate reads back as q + rem / 100. */
  lemma ParseUnsignedFixed2(q: nat, rem: nat)
    requires rem < 100
    ensures ParseUnsigned(NatToDigits(q) + "." + TwoDigits(rem)) == Some(q as real + rem as real / 100.0)
  {
    var d, cc := NatToDigits(q), TwoDigits(rem);
    var body := d + "." + cc;
    assert body == d + ("." + cc);
    DotAfterDigits(d, "." + cc);
    assert body[..|d|] == d;
    assert body[|d| + 1..] == cc;
    DigitsRoundTrip(q);
    TwoDigitsValue(rem);
    assert Pow10(2) == 100;
  }

  /** Reading back a formatted coordinate gives exactly its hundredths. */
  lemma ParseFormatted(h: int)
    ensures ParseDecimal(FormatFixed2(h)) == Some(h as real / 100.0)
  {
    var a := AbsInt(h);
    var q, rem := a / 100, a % 100;
    var body := NatToDigits(q) + "." + TwoDigits(rem);
    ParseUnsignedFixed2(q, rem);
    assert q as real + rem as real / 100.0 == a as real / 100.0;
    if h < 0 {
      assert FormatFixed2(h) == "-" + body;
      assert FormatFixed2(h)[1..] == body;
    } else {
      assert FormatFixed2(h) == body;
      assert IsDigit(body[0]);
    }
  }

  /** A whole number of hundredths is its own rounding. */
  lemma RoundHundredths(h: int)
    ensures Round2(h as real / 100.0) == h
  {
    assert (h as real / 100.0) * 100.0 == h as real;
  }

  /** Every '.' in `s` is followed by a digit. */
  predicate DotsFollowedByDigit(s: string) {
    forall i :: 0 <= i < |s| && s[i] == '.' ==> i + 1 < |s| && IsDigit(s[i + 1])
  }

  /** A formatted coordinate uses only digits, '-' and one '.' followed by digits. */
  lemma FormatShape(h: int)
    ensures forall i :: 0 <= i < |FormatFixed2(h)| ==> IsDigit(FormatFixed2(h)[i]) || FormatFixed2(h)[i] in "-."
    ensures DotsFollowedByDigit(FormatFixed2(h))
  {
    var a := AbsInt(h);
    var d := NatToDigits(a / 100);
    var cc := TwoDigits(a % 100);
    var sign: string := if h < 0 then "-" else "";
    var s := FormatFixed2(h);
    var dot := |sign| + |d|;
    assert s == sign + d + "." + cc;
    forall i | 0 <= i < |s| && i != dot ensures IsDigit(s[i]) || s[i] == '-' {
      if i < |sign| {
      } else if i < dot {
        assert s[i] == d[i - |sign|];
      } else {
        assert s[i] == cc[i - dot - 1];
      }
    }
    assert s[dot] == '.';
    assert s[dot + 1] == cc[0];
  }
}
