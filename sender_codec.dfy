/**
 * The frame generator's encoder: clamp the values, fit each formatted field
 * to four characters, join them into the 8-byte payload, and frame that
 * payload for CAN and FlexRay. The lemmas at the end run the payload back
 * through the dashboard's decoder.
 */
module Encoder {
  import opened Wrappers
  import opened Wire
  import opened Frames
  import opened QtText
  import opened Signals

  /** std::max(0.0f, x). */
  function Clamp(x: real): (r: real)
    ensures r >= 0.0
    ensures x >= 0.0 ==> r == x
    ensures x < 0.0 ==> r == 0.0
  {
    if x < 0.0 then 0.0 else x
  }

  /** A formatted field cut to its first four characters, or right-padded with spaces. */
  function FitField(s: seq<Latin1Char>): (r: seq<Latin1Char>)
    ensures |r| == 4
    ensures |s| >= 4 ==> r == s[..4]
    ensures |s| < 4 ==> r[..|s|] == s && forall i :: |s| <= i < 4 ==> r[i] == ' '
  {
    if |s| > 4 then s[..4] else s + seq(4 - |s|, _ => ' ')
  }

  /** The 8 bytes copied out of the two fields: speed first, then RPM. */
  function EncodePayload(speedText: seq<Latin1Char>, rpmText: seq<Latin1Char>): (p: Payload)
    ensures Latin1(p)[..4] == FitField(speedText)
    ensures Latin1(p)[4..] == FitField(rpmText)
  {
    var text := FitField(speedText) + FitField(rpmText);
    Latin1RoundTrip(text);
    Latin1Bytes(text)
  }

  /** The character of a decimal digit. */
  function Digit(d: nat): (c: Latin1Char)
    requires d < 10
    ensures IsDigit(c) && c as int - '0' as int == d
  {
    ('0' as int + d) as char
  }

  /** The decimal text of a natural number, as `std::fixed << std::setprecision(0)` prints an integral value. */
  function DecimalText(n: nat): (r: seq<Latin1Char>)
    ensures |r| >= 1 && AllDigits(r) && DigitsValue(r) == n
    ensures n < Pow10(|r|) && (|r| > 1 ==> Pow10(|r| - 1) <= n)
  {
    if n < 10 then [Digit(n)]
    else
      var r := DecimalText(n / 10) + [Digit(n % 10)];
      assert r[..|r| - 1] == DecimalText(n / 10);
      r
  }

  /** `std::fixed << std::setprecision(1)` of `tenths / 10`: the whole part, '.', one decimal. */
  function FixedText1(tenths: nat): seq<Latin1Char>
  {
    DecimalText(tenths / 10) + ['.', Digit(tenths % 10)]
  }

  lemma Pow10Monotone(a: nat, b: nat)
    requires a <= b
    ensures Pow10(a) <= Pow10(b)
    decreases b
  {
    if a < b { Pow10Monotone(a, b - 1); }
  }

  /** The decimal text of n fits a field exactly when n has at most four digits. */
  lemma DecimalTextFits(n: nat)
    ensures |DecimalText(n)| <= 4 <==> n <= 9999
  {
    var r := DecimalText(n);
    if |r| > 4 { Pow10Monotone(4, |r| - 1); }
    if n > 9999 && |r| <= 4 { Pow10Monotone(|r|, 4); }
  }

  /** Padding a digit string with spaces is undone by the parser's trimming. */
  lemma PaddedDigits(d: seq<Latin1Char>)
    requires 1 <= |d| <= 4 && IsDigit(d[0]) && IsDigit(d[|d| - 1])
    ensures Trimmed(FitField(d)) == d
  {
    var pad := seq(4 - |d|, _ => ' ');
    assert FitField(d) == [] + d + pad;
    TrimmedPadded([], d, pad);
  }

  /** toInt of a field whose trimmed text is a plain digit string. */
  lemma ParseIntOfDigits(t: string, d: string)
    requires Trimmed(t) == d && d != [] && AllDigits(d) && DigitsValue(d) <= IntMax
    ensures ParseInt(t) == Some(DigitsValue(d) as int)
  {
    assert IsDigit(d[0]);
    assert SignSplit(d) == (false, d);
  }

  /** An RPM of at most four digits comes back unchanged from toInt of its fitted field. */
  lemma {:induction false} RpmRoundTrip(n: nat)
    requires n <= 9999
    ensures ParseInt(FitField(DecimalText(n))) == Some(n)
  {
    var d := DecimalText(n);
    DecimalTextFits(n);
    PaddedDigits(d);
    ParseIntOfDigits(FitField(d), d);
  }

  /** A digit string of length k is worth less than 10^k. */
  lemma {:induction false} DigitsValueBound(s: string)
    requires AllDigits(s)
    ensures DigitsValue(s) < Pow10(|s|)
    decreases |s|
  {
    if s != [] {
      var t := s[..|s| - 1];
      DigitsValueBound(t);
    }
  }

  /** Appending one digit: the value of the tail from k grows the same way as the whole. */
  lemma DigitsValueSnoc(s: string, k: nat)
    requires AllDigits(s) && k < |s|
    ensures var t := s[..|s| - 1];
      AllDigits(t) && AllDigits(s[k..]) && AllDigits(t[k..])
      && DigitsValue(s[k..]) == DigitsValue(t[k..]) * 10 + (s[|s| - 1] as int - '0' as int)
  {
    var t := s[..|s| - 1];
    var u := s[k..];
    assert u[..|u| - 1] == t[k..];
    assert u[|u| - 1] == s[|s| - 1];
  }

  /** The value of a digit string splits at any position into its leading digits, shifted, and the rest. */
  lemma {:induction false} DigitsValueSplit(s: string, k: nat)
    requires AllDigits(s) && k <= |s|
    ensures AllDigits(s[..k]) && AllDigits(s[k..])
    ensures DigitsValue(s) == DigitsValue(s[..k]) * Pow10(|s| - k) + DigitsValue(s[k..])
    decreases |s|
  {
    if |s| == k {
      assert s[..k] == s;
      assert s[k..] == [];
    } else {
      var t := s[..|s| - 1];
      var d := s[|s| - 1] as int - '0' as int;
      DigitsValueSplit(t, k);
      DigitsValueSnoc(s, k);
      assert t[..k] == s[..k];
      var a := DigitsValue(s[..k]);
      var b := DigitsValue(t[k..]);
      var p := Pow10(|t| - k);
      assert Pow10(|s| - k) == 10 * p;
      assert DigitsValue(s) == DigitsValue(t) * 10 + d;
      assert DigitsValue(t) == a * p + b;
      ShiftDigit(a, p, b, d);
    }
  }

  lemma ShiftDigit(a: int, p: int, b: int, d: int)
    ensures (a * p + b) * 10 + d == a * (10 * p) + (b * 10 + d)
  {
  }

  /** Cutting the last |s| - k digits off a digit string leaves v with v * 10^(|s|-k) <= value < (v + 1) * 10^(|s|-k). */
  lemma {:induction false} LeadingDigits(s: string, k: nat)
    requires AllDigits(s) && k <= |s|
    ensures AllDigits(s[..k])
    ensures DigitsValue(s[..k]) * Pow10(|s| - k) <= DigitsValue(s) < (DigitsValue(s[..k]) + 1) * Pow10(|s| - k)
  {
    DigitsValueSplit(s, k);
    DigitsValueBound(s[k..]);
    Bracket(DigitsValue(s[..k]), Pow10(|s| - k), DigitsValue(s[k..]), DigitsValue(s));
  }

  lemma Bracket(v: int, p: int, b: int, r: int)
    requires r == v * p + b && 0 <= b < p
    ensures v * p <= r < (v + 1) * p
  {
    assert (v + 1) * p == v * p + p;
  }

  /** The RPM field of a number longer than four digits holds exactly its first four digits. */
  lemma LongRpmField(speedText: seq<Latin1Char>, n: nat)
    requires n > 9999
    ensures var d := DecimalText(n);
      |d| > 4 && Latin1(EncodePayload(speedText, d))[4..] == d[..4]
  {
    DecimalTextFits(n);
  }

  /**
   * A longer RPM comes back as its first four digits v: n lies between v and v + 1
   * shifted left by the dropped digits, so v is n with those digits cut off.
   */
  lemma {:induction false} RpmTruncated(speedText: seq<Latin1Char>, n: nat)
    requires n > 9999
    ensures var d := DecimalText(n);
      |d| > 4 && AllDigits(d[..4])
      && ParseInt(Latin1(EncodePayload(speedText, d))[4..]) == Some(DigitsValue(d[..4]) as int)
      && DigitsValue(d[..4]) * Pow10(|d| - 4) <= n < (DigitsValue(d[..4]) + 1) * Pow10(|d| - 4)
  {
    var d := DecimalText(n);
    LongRpmField(speedText, n);
    var f := d[..4];
    assert IsDigit(f[0]) && IsDigit(f[3]);
    PaddedDigits(f);
    assert FitField(f) == f;
    DigitsValueBound(f);
    ParseIntOfDigits(f, f);
    LeadingDigits(d, 4);
  }

  /** toFloat of a field whose trimmed text is digits, '.', one digit. */
  lemma {:induction false} ParseDecimalOfFixed(t: string, w: string, f: char)
    requires w != [] && AllDigits(w) && IsDigit(f) && Trimmed(t) == w + ['.', f]
    ensures ParseDecimal(t) == Some(DigitsValue(w) as real + (f as int - '0' as int) as real / 10.0)
  {
    var s := w + ['.', f];
    assert IsDigit(s[0]);
    assert SignSplit(s) == (false, s);
    assert s[|w|] == '.';
    assert forall i :: 0 <= i < |w| ==> s[i] == w[i];
    DotIndexFirst(s);
    assert DotIndex(s) == |w|;
    assert s[..|w|] == w;
    var frac := s[|w| + 1..];
    assert frac == [f];
    assert frac[1..] == [];
    assert FractionValue(frac) == ((f as int - '0' as int) as real + FractionValue([])) / 10.0;
  }

  lemma TenthsValue(t: nat)
    ensures (t / 10) as real + (t % 10) as real / 10.0 == t as real / 10.0
  {
    var q := t / 10;
    var r := t % 10;
    assert t == 10 * q + r;
    assert t as real == 10.0 * q as real + r as real;
  }

  /** A speed of at most 99.9 comes back exactly from toFloat of its fitted field. */
  lemma {:induction false} SpeedRoundTrip(tenths: nat)
    requires tenths < 1000
    ensures ParseDecimal(FitField(FixedText1(tenths))) == Some(tenths as real / 10.0)
  {
    var w := DecimalText(tenths / 10);
    var s := FixedText1(tenths);
    DecimalTextFits(tenths / 10);
    PaddedDigits(s);
    ParseDecimalOfFixed(FitField(s), w, Digit(tenths % 10));
    TenthsValue(tenths);
  }

  /** A payload decodes to the values its two fitted fields parse to. */
  lemma DecodeEncoded(speedText: seq<Latin1Char>, rpmText: seq<Latin1Char>, speed: real, rpm: int)
    requires ParseDecimal(FitField(speedText)) == Some(speed) && ParseInt(FitField(rpmText)) == Some(rpm)
    ensures DecodePayload(EncodePayload(speedText, rpmText)) == Some(Reading(speed, rpm))
  {
    DecodeOfFields(EncodePayload(speedText, rpmText), speed, rpm);
  }

  /** The whole encoder/decoder round trip for the values the generator sends. */
  lemma {:induction false} PayloadRoundTrip(tenths: nat, n: nat)
    requires tenths < 1000 && n <= 9999
    ensures DecodePayload(EncodePayload(FixedText1(tenths), DecimalText(n))) == Some(Reading(tenths as real / 10.0, n))
  {
    var speedText, rpmText := FixedText1(tenths), DecimalText(n);
    var speed := tenths as real / 10.0;
    SpeedRoundTrip(tenths);
    RpmRoundTrip(n);
    assert ParseDecimal(FitField(speedText)) == Some(speed);
    assert ParseInt(FitField(rpmText)) == Some(n);
    DecodeEncoded(speedText, rpmText, speed, n);
  }

  /** sendCANData's frame: the given identifier, dlc 8, the data bytes and zeros after them. */
  function CanFrameOf(canId: uint32, data: seq<byte>): (f: CanFrame)
    requires |data| <= 8
    ensures f.canId == canId && f.dlc == 8
    ensures f.data[..|data|] == data
    ensures forall i :: |data| <= i < 8 ==> f.data[i] == 0
  {
    CanFrame(canId, 8, data + seq(8 - |data|, _ => 0))
  }

  /**
   * sendFlexRayData's 12-byte datagram: the big-endian slot id, then the data.
   * Bytes of the buffer after a short `data` are never written; `stale` says what they held.
   */
  function FlexRayDatagram(slotId: uint32, data: seq<byte>, stale: Payload): (d: seq<byte>)
    requires |data| <= 8
    ensures |d| == 12
    ensures FromBe32(d[..4]) == slotId
    ensures d[4..4 + |data|] == data
  {
    Be32RoundTrip(slotId);
    var d := Be32(slotId) + data + stale[|data|..];
    assert d[..4] == Be32(slotId);
    d
  }
}
