/**
 * The parts of QString that the receivers rely on: QChar::isSpace,
 * QString::trimmed, and the number conversions QString::toInt (base 10) and
 * QString::toFloat, both of which ignore surrounding whitespace and report
 * failure through their `ok` flag (here: None).
 */
module QtText {
  import opened Wrappers

  /** QChar::isSpace: tab to carriage return, NEL, and the Unicode separators (Zs, Zl, Zp). */
  predicate IsSpace(c: char)
  {
    var n := c as int;
    n == 0x20 || 0x09 <= n <= 0x0D || n == 0x85 || n == 0xA0 || n == 0x1680
    || 0x2000 <= n <= 0x200A || n == 0x2028 || n == 0x2029 || n == 0x202F
    || n == 0x205F || n == 0x3000
  }

  predicate AllSpace(s: string)
  {
    forall i :: 0 <= i < |s| ==> IsSpace(s[i])
  }

  /** Drops leading whitespace. */
  function TrimStart(s: string): string
  {
    if s != [] && IsSpace(s[0]) then TrimStart(s[1..]) else s
  }

  /** Drops trailing whitespace. */
  function TrimEnd(s: string): string
  {
    if s != [] && IsSpace(s[|s| - 1]) then TrimEnd(s[..|s| - 1]) else s
  }

  /** QString::trimmed: the string without its leading and trailing whitespace. */
  function Trimmed(s: string): string
  {
    TrimEnd(TrimStart(s))
  }

  /** TrimStart removes a prefix of whitespace and stops at a non-space character. */
  lemma {:induction false} TrimStartShape(s: string)
    ensures var r := TrimStart(s);
      |r| <= |s| && r == s[|s| - |r|..] && AllSpace(s[..|s| - |r|]) && (r != [] ==> !IsSpace(r[0]))
  {
    if s != [] && IsSpace(s[0]) {
      TrimStartShape(s[1..]);
      var r := TrimStart(s);
      assert s[1..][|s| - 1 - |r|..] == s[|s| - |r|..];
      forall i | 0 <= i < |s| - |r| ensures IsSpace(s[i]) {
        if i > 0 { assert s[i] == s[1..][..|s| - 1 - |r|][i - 1]; }
      }
    }
  }

  /** TrimEnd removes a suffix of whitespace and stops at a non-space character. */
  lemma {:induction false} TrimEndShape(s: string)
    ensures var r := TrimEnd(s);
      |r| <= |s| && r == s[..|r|] && AllSpace(s[|r|..]) && (r != [] ==> !IsSpace(r[|r| - 1]))
  {
    if s != [] && IsSpace(s[|s| - 1]) {
      var t := s[..|s| - 1];
      TrimEndShape(t);
      var r := TrimEnd(s);
      assert t[..|r|] == s[..|r|];
      forall i | |r| <= i < |s| ensures IsSpace(s[i]) {
        if i < |s| - 1 { assert s[i] == t[|r|..][i - |r|]; }
      }
    }
  }

  /** Trimming keeps a middle slice: whitespace before it, whitespace after it, non-space at its ends. */
  lemma TrimmedShape(s: string)
    ensures |TrimStart(s)| <= |s|
    ensures var k := |s| - |TrimStart(s)|; var r := Trimmed(s);
      k + |r| <= |s| && r == s[k..k + |r|] && AllSpace(s[..k]) && AllSpace(s[k + |r|..])
      && (r != [] ==> !IsSpace(r[0]) && !IsSpace(r[|r| - 1]))
  {
    var t := TrimStart(s);
    var r := TrimEnd(t);
    TrimStartShape(s);
    TrimEndShape(t);
    var k := |s| - |t|;
    assert t[|r|..] == s[k + |r|..];
    assert t[..|r|] == s[k..k + |r|];
  }

  lemma {:induction false} TrimStartOfNonSpace(s: string)
    requires s == [] || !IsSpace(s[0])
    ensures TrimStart(s) == s
  {
  }

  lemma {:induction false} TrimEndOfNonSpace(s: string)
    requires s == [] || !IsSpace(s[|s| - 1])
    ensures TrimEnd(s) == s
  {
  }

  /** Trimming twice is trimming once. */
  lemma TrimmedIdempotent(s: string)
    ensures Trimmed(Trimmed(s)) == Trimmed(s)
  {
    var t := Trimmed(s);
    TrimmedShape(s);
    TrimStartOfNonSpace(t);
    TrimEndOfNonSpace(t);
  }

  lemma {:induction false} TrimStartPadded(pre: string, t: string)
    requires AllSpace(pre)
    requires t == [] || !IsSpace(t[0])
    ensures TrimStart(pre + t) == t
  {
    if pre == [] {
      assert pre + t == t;
      TrimStartOfNonSpace(t);
    } else {
      assert (pre + t)[1..] == pre[1..] + t;
      TrimStartPadded(pre[1..], t);
    }
  }

  lemma {:induction false} TrimEndPadded(t: string, post: string)
    requires AllSpace(post)
    requires t == [] || !IsSpace(t[|t| - 1])
    ensures TrimEnd(t + post) == t
  {
    if post == [] {
      assert t + post == t;
      TrimEndOfNonSpace(t);
    } else {
      assert (t + post)[..|t + post| - 1] == t + post[..|post| - 1];
      TrimEndPadded(t, post[..|post| - 1]);
    }
  }

  /** Whitespace around a word is exactly what trimming removes. */
  lemma TrimmedPadded(pre: string, t: string, post: string)
    requires AllSpace(pre) && AllSpace(post)
    requires t != [] && !IsSpace(t[0]) && !IsSpace(t[|t| - 1])
    ensures Trimmed(pre + t + post) == t
  {
    assert pre + t + post == pre + (t + post);
    TrimStartPadded(pre, t + post);
    TrimEndPadded(t, post);
  }

  predicate IsDigit(c: char)
  {
    '0' <= c <= '9'
  }

  predicate AllDigits(s: string)
  {
    forall i :: 0 <= i < |s| ==> IsDigit(s[i])
  }

  /** The value of a run of decimal digits, most significant first. */
  function DigitsValue(s: string): nat
    requires AllDigits(s)
  {
    if s == [] then 0 else DigitsValue(s[..|s| - 1]) * 10 + (s[|s| - 1] as int - '0' as int)
  }

  function Pow10(n: nat): (p: nat)
    ensures p >= 1
  {
    if n == 0 then 1 else 10 * Pow10(n - 1)
  }

  /** The value of the digits after a decimal point: 0.d1d2... is (d1 + 0.d2...) / 10. */
  function FractionValue(s: string): (v: real)
    requires AllDigits(s)
    ensures 0.0 <= v <= 1.0
  {
    if s == [] then 0.0 else ((s[0] as int - '0' as int) as real + FractionValue(s[1..])) / 10.0
  }

  const IntMin: int := -0x8000_0000
  const IntMax: int := 0x7FFF_FFFF

  /** Splits an optional leading '+' or '-' off a number: (negative?, rest). */
  function SignSplit(t: string): (r: (bool, string))
    ensures r.1 == t || (t != [] && (t[0] == '+' || t[0] == '-') && r.1 == t[1..])
    ensures r.0 ==> t != [] && t[0] == '-' && r.1 == t[1..]
  {
    if t != [] && (t[0] == '+' || t[0] == '-') then (t[0] == '-', t[1..]) else (false, t)
  }

  /** The unsigned part is a suffix of the text, at most one character shorter. */
  lemma SignSplitSuffix(t: string)
    ensures var r := SignSplit(t);
      |r.1| <= |t| && r.1 == t[|t| - |r.1|..] && (|r.1| < |t| ==> |r.1| == |t| - 1)
  {
  }

  /**
   * QString::toInt with base 10: optional sign and at least one decimal digit,
   * surrounded only by whitespace, and within the range of a C `int`.
   */
  function ParseInt(s: string): (r: Option<int>)
    ensures r.Some? ==> IntMin <= r.value <= IntMax
  {
    var (neg, d) := SignSplit(Trimmed(s));
    if d != [] && AllDigits(d) then
      var v: int := if neg then 0 - DigitsValue(d) as int else DigitsValue(d);
      if IntMin <= v <= IntMax then Some(v) else None
    else
      None
  }

  /** Position of the first '.' in s, or |s| when there is none. */
  function DotIndex(s: string): (k: nat)
    ensures k <= |s|
  {
    if s == [] then 0 else if s[0] == '.' then 0 else 1 + DotIndex(s[1..])
  }

  /** DotIndex finds the first '.', if any. */
  lemma {:induction false} DotIndexFirst(s: string)
    ensures forall i :: 0 <= i < DotIndex(s) ==> s[i] != '.'
    ensures DotIndex(s) < |s| ==> s[DotIndex(s)] == '.'
  {
    if s != [] && s[0] != '.' {
      DotIndexFirst(s[1..]);
      forall i | 1 <= i < DotIndex(s) ensures s[i] != '.' { assert s[i] == s[1..][i - 1]; }
    }
  }

  /**
   * The magnitude of an unsigned decimal: digits, optionally a '.' followed by
   * more digits, at least one digit in all.
   */
  function UnsignedDecimal(body: string): Option<real>
  {
    var k := DotIndex(body);
    var whole := body[..k];
    var frac := if k < |body| then body[k + 1..] else [];
    if AllDigits(whole) && AllDigits(frac) && |whole| + |frac| > 0 then
      Some(DigitsValue(whole) as real + FractionValue(frac))
    else
      None
  }

  /**
   * QString::toFloat on plain decimal notation, idealised to an exact rational:
   * an optional sign and an unsigned decimal, surrounded only by whitespace.
   */
  function ParseDecimal(s: string): Option<real>
  {
    var (neg, body) := SignSplit(Trimmed(s));
    match UnsignedDecimal(body)
    case None => None
    case Some(m) => Some(if neg then -m else m)
  }

  /** Every character of s is whitespace or one that `ok` admits, when every character of the trimmed string is. */
  lemma TrimmedAlphabet(s: string, ok: char -> bool)
    requires forall j :: 0 <= j < |Trimmed(s)| ==> ok(Trimmed(s)[j])
    ensures forall i :: 0 <= i < |s| ==> IsSpace(s[i]) || ok(s[i])
  {
    var t := Trimmed(s);
    TrimmedShape(s);
    var k := |s| - |TrimStart(s)|;
    forall i | 0 <= i < |s| ensures IsSpace(s[i]) || ok(s[i]) {
      if i < k {
        assert s[i] == s[..k][i];
      } else if i < k + |t| {
        assert s[i] == t[i - k];
      } else {
        assert s[i] == s[k + |t|..][i - k - |t|];
      }
    }
  }

  /** A digit of the trimmed string is a digit of the string. */
  lemma TrimmedDigit(s: string, j: nat)
    requires j < |Trimmed(s)| && IsDigit(Trimmed(s)[j])
    ensures exists i :: 0 <= i < |s| && IsDigit(s[i])
  {
    TrimmedShape(s);
    var k := |s| - |TrimStart(s)|;
    assert s[k + j] == Trimmed(s)[j];
  }

  /** A character that may occur in a field toInt accepts. */
  predicate IntChar(c: char)
  {
    IsSpace(c) || IsDigit(c) || c == '+' || c == '-'
  }

  /** A field toInt accepts holds only whitespace, digits and signs, and some digit. */
  lemma ParseIntAlphabet(s: string)
    requires ParseInt(s).Some?
    ensures forall i :: 0 <= i < |s| ==> IntChar(s[i])
    ensures exists i :: 0 <= i < |s| && IsDigit(s[i])
  {
    var t := Trimmed(s);
    var (neg, d) := SignSplit(t);
    SignSplitSuffix(t);
    var ok := (c: char) => IsDigit(c) || c == '+' || c == '-';
    forall j | 0 <= j < |t| ensures ok(t[j]) {
      if j >= |t| - |d| { assert t[j] == d[j - (|t| - |d|)]; }
    }
    TrimmedAlphabet(s, ok);
    assert t[|t| - 1] == d[|d| - 1];
    TrimmedDigit(s, |t| - 1);
  }

  /** A character that may occur in a field the decimal parser accepts. */
  predicate DecimalChar(c: char)
  {
    IntChar(c) || c == '.'
  }

  /** The unsigned part of an accepted decimal holds only digits and '.', and at least one digit. */
  lemma DecimalBody(body: string) returns (j: nat)
    requires UnsignedDecimal(body).Some?
    ensures forall i :: 0 <= i < |body| ==> IsDigit(body[i]) || body[i] == '.'
    ensures j < |body| && IsDigit(body[j])
  {
    var k := DotIndex(body);
    DotIndexFirst(body);
    var whole := body[..k];
    var frac := if k < |body| then body[k + 1..] else [];
    forall i | 0 <= i < |body| ensures IsDigit(body[i]) || body[i] == '.' {
      if i < k { assert body[i] == whole[i]; }
      else if i > k { assert body[i] == frac[i - k - 1]; }
    }
    if whole != [] {
      j := k - 1;
      assert body[j] == whole[k - 1];
    } else {
      j := |body| - 1;
      assert body[j] == frac[|frac| - 1];
    }
  }

  /** A field toFloat accepts holds only whitespace, digits, signs and '.', and some digit. */
  lemma ParseDecimalAlphabet(s: string)
    requires ParseDecimal(s).Some?
    ensures forall i :: 0 <= i < |s| ==> DecimalChar(s[i])
    ensures exists i :: 0 <= i < |s| && IsDigit(s[i])
  {
    var t := Trimmed(s);
    var (neg, body) := SignSplit(t);
    SignSplitSuffix(t);
    assert UnsignedDecimal(body).Some?;
    var j := DecimalBody(body);
    var ok := (c: char) => IsDigit(c) || c == '+' || c == '-' || c == '.';
    forall i | 0 <= i < |t| ensures ok(t[i]) {
      if i >= |t| - |body| { assert t[i] == body[i - (|t| - |body|)]; }
    }
    TrimmedAlphabet(s, ok);
    assert t[|t| - |body| + j] == body[j];
    TrimmedDigit(s, |t| - |body| + j);
  }

  /** A character outside the alphabet of toInt makes it fail. */
  lemma NonIntCharRejects(s: string, i: nat)
    requires i < |s| && !IntChar(s[i])
    ensures ParseInt(s) == None
  {
    if ParseInt(s).Some? {
      ParseIntAlphabet(s);
    }
  }

  /** A character outside the alphabet of toFloat makes it fail. */
  lemma NonDecimalCharRejects(s: string, i: nat)
    requires i < |s| && !DecimalChar(s[i])
    ensures ParseDecimal(s) == None
  {
    if ParseDecimal(s).Some? {
      ParseDecimalAlphabet(s);
    }
  }

  /** toFloat and toInt agree on a field that holds an integer. */
  lemma DecimalAgreesWithInt(s: string, v: int)
    requires ParseInt(s) == Some(v)
    ensures ParseDecimal(s) == Some(v as real)
  {
    var t := Trimmed(s);
    var (neg, d) := SignSplit(t);
    assert AllDigits(d) && d != [];
    assert DotIndex(d) == |d| by {
      DotIndexFirst(d);
    }
    assert d[..|d|] == d;
  }
}
