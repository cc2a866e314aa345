/**
 * toIndicDigits (src/utils.ts): every Western digit 0-9 in a string is
 * replaced by the Eastern Arabic-Indic digit with the same value; every
 * other character is kept as it is.
 */
module IndicDigits {

  /** The replacement glyphs, indexed by digit value (U+0660 .. U+0669). */
  const IndicGlyphs: string := "٠١٢٣٤٥٦٧٨٩"

  /** What the pattern \d matches: an ASCII decimal digit. */
  predicate IsAsciiDigit(c: char): (b: bool)
    ensures b <==> c in "0123456789"
  {
    '0' <= c <= '9'
  }

  predicate IsIndicDigit(c: char) {
    '٠' <= c <= '٩'
  }

  /** The digit value of an ASCII digit, as parseInt reads it. */
  function DigitValue(c: char): (d: nat)
    requires IsAsciiDigit(c)
    ensures d < 10 && "0123456789"[d] == c
  {
    c as int - '0' as int
  }

  lemma {:induction false} IndicGlyphsAreIndicDigits()
    ensures |IndicGlyphs| == 10
    ensures forall d :: 0 <= d < 10 ==> IndicGlyphs[d] as int == 0x0660 + d
  {
    assert IndicGlyphs == ['٠', '١', '٢', '٣', '٤',
                           '٥', '٦', '٧', '٨', '٩'];
  }

  /** The per-character callback of the replace: a digit becomes its glyph. */
  function TranscodeChar(c: char): (r: char)
    ensures IsAsciiDigit(c) ==> IsIndicDigit(r) && r as int - 0x0660 == DigitValue(c)
    ensures !IsAsciiDigit(c) ==> r == c
  {
    IndicGlyphsAreIndicDigits();
    if IsAsciiDigit(c) then IndicGlyphs[DigitValue(c)] else c
  }

  /** The whole replace, one character at a time. */
  function ToIndicDigits(s: string): (r: string)
    ensures |r| == |s|
    ensures forall i :: 0 <= i < |s| ==>
      r[i] == (if IsAsciiDigit(s[i]) then IndicGlyphs[DigitValue(s[i])] else s[i])
  {
    if s == [] then [] else [TranscodeChar(s[0])] + ToIndicDigits(s[1..])
  }

  /** The inverse reading of one character: an Eastern digit becomes the ASCII digit of equal value. */
  function UntranscodeChar(c: char): (r: char)
    ensures IsIndicDigit(c) ==> IsAsciiDigit(r) && DigitValue(r) == c as int - 0x0660
    ensures !IsIndicDigit(c) ==> r == c
  {
    if IsIndicDigit(c) then ('0' as int + (c as int - 0x0660)) as char else c
  }

  /** The inverse reading of a whole string. */
  function FromIndicDigits(s: string): (r: string)
    ensures |r| == |s|
  {
    if s == [] then [] else [UntranscodeChar(s[0])] + FromIndicDigits(s[1..])
  }

  /** A character that is not an Eastern digit survives transcoding and reading back. */
  lemma CharRoundTrip(c: char)
    requires !IsIndicDigit(c)
    ensures UntranscodeChar(TranscodeChar(c)) == c
  {
  }

  /** No ASCII digit survives the transcoding. */
  lemma NoAsciiDigitsRemain(s: string)
    ensures forall i :: 0 <= i < |s| ==> !IsAsciiDigit(ToIndicDigits(s)[i])
  {
    IndicGlyphsAreIndicDigits();
  }

  /** Transcoding text that is already transcoded changes nothing. */
  lemma Idempotent(s: string)
    ensures ToIndicDigits(ToIndicDigits(s)) == ToIndicDigits(s)
  {
    NoAsciiDigitsRemain(s);
  }

  /** Text without Eastern digits is recovered exactly by the inverse reading. */
  lemma {:induction false} RoundTrip(s: string)
    requires forall i :: 0 <= i < |s| ==> !IsIndicDigit(s[i])
    ensures FromIndicDigits(ToIndicDigits(s)) == s
  {
    if s != [] {
      var t := ToIndicDigits(s);
      assert t == [TranscodeChar(s[0])] + ToIndicDigits(s[1..]);
      assert t[0] == TranscodeChar(s[0]) && t[1..] == ToIndicDigits(s[1..]);
      CharRoundTrip(s[0]);
      RoundTrip(s[1..]);
    }
  }

  /** The replacement acts on each piece of a concatenation independently. */
  lemma {:induction false} Concat(a: string, b: string)
    ensures ToIndicDigits(a + b) == ToIndicDigits(a) + ToIndicDigits(b)
  {
    var l, r := ToIndicDigits(a + b), ToIndicDigits(a) + ToIndicDigits(b);
    assert |l| == |r|;
    forall i | 0 <= i < |l| ensures l[i] == r[i] {
      if i < |a| { assert (a + b)[i] == a[i]; } else { assert (a + b)[i] == b[i - |a|]; }
    }
  }

  /** The empty string maps to itself; a grouping comma is kept verbatim. */
  lemma Examples()
    ensures ToIndicDigits("") == ""
    ensures ToIndicDigits("12,345") == "١٢,٣٤٥"
  {
    var s := "12,345";
    var r := ToIndicDigits(s);
    assert IsAsciiDigit(s[0]) && DigitValue(s[0]) == 1;
    assert IsAsciiDigit(s[1]) && DigitValue(s[1]) == 2;
    assert !IsAsciiDigit(s[2]);
    assert IsAsciiDigit(s[3]) && DigitValue(s[3]) == 3;
    assert IsAsciiDigit(s[4]) && DigitValue(s[4]) == 4;
    assert IsAsciiDigit(s[5]) && DigitValue(s[5]) == 5;
    assert r == [r[0], r[1], r[2], r[3], r[4], r[5]];
  }
}
