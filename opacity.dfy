/** The non-mask alpha of the custom transparency export and the name of the
    file it downloads.

    The user's answer to the prompt arrives already parsed: `None` stands for a
    cancelled or empty prompt, `Some(n)` for the integer the answer parses to. */
module Opacity {
  import opened Wrappers
  import opened Pixels

  /** Non-mask alpha used when the user gives no answer, and by the fixed
      transparency export. */
  const DefaultNonMaskAlpha: Byte := 128

  const FixedFilename: string := "transparent-masked-image.png"
  const CustomPrefix: string := "transparent-masked-image-"
  const CustomSuffix: string := ".png"

  function Min(a: int, b: int): (m: int) { if a <= b then a else b }
  function Max(a: int, b: int): (m: int) { if a >= b then a else b }

  /** `max(0, min(255, v))`: always a byte, and the identity on bytes. */
  function Clamp(v: int): (r: Byte)
    ensures 0 <= v <= 255 ==> r == v
    ensures v < 0 ==> r == 0
    ensures v > 255 ==> r == 255
  {
    Max(0, Min(255, v))
  }

  /** The alpha the custom export writes outside the mask. */
  function ValidOpacity(answer: Option<int>): (r: Byte)
    ensures answer.None? ==> r == DefaultNonMaskAlpha
    ensures answer.Some? && 0 <= answer.value <= 255 ==> r == answer.value
    ensures answer.Some? && answer.value < 0 ==> r == 0
    ensures answer.Some? && answer.value > 255 ==> r == 255
  {
    var opacity := if answer.Some? then answer.value else DefaultNonMaskAlpha as int;
    Clamp(opacity)
  }

  /** Clamping twice is clamping once. */
  lemma ClampIdempotent(v: int)
    ensures Clamp(Clamp(v)) == Clamp(v)
  {
  }

  // ---- Decimal rendering of the opacity, as a template literal writes an integer.

  predicate IsDigit(c: char) {
    '0' <= c <= '9'
  }

  predicate AllDigits(s: string) {
    forall i :: 0 <= i < |s| ==> IsDigit(s[i])
  }

  function DigitChar(d: nat): (c: char)
    requires d < 10
    ensures IsDigit(c)
  {
    ('0' as int + d) as char
  }

  function DigitValue(c: char): (d: nat)
    requires IsDigit(c)
    ensures d < 10
  {
    c as int - '0' as int
  }

  /** Shortest decimal numeral of `n`: non-empty, all digits, and with no
      leading zero except for zero itself. */
  function Decimal(n: nat): (s: string)
    ensures |s| >= 1 && AllDigits(s)
    ensures s[0] == '0' <==> n == 0
    decreases n
  {
    if n < 10 then [DigitChar(n)]
    else Decimal(n / 10) + [DigitChar(n % 10)]
  }

  /** The value of a decimal numeral. */
  function ParseDecimal(s: string): (n: nat)
    requires AllDigits(s)
    decreases |s|
  {
    if s == [] then 0
    else 10 * ParseDecimal(s[..|s| - 1]) + DigitValue(s[|s| - 1])
  }

  /** Reading back the numeral gives the number. */
  lemma {:induction false} DecimalRoundTrip(n: nat)
    ensures ParseDecimal(Decimal(n)) == n
    decreases n
  {
    var s := Decimal(n);
    if n >= 10 {
      DecimalRoundTrip(n / 10);
      assert s[..|s| - 1] == Decimal(n / 10);
      assert s[|s| - 1] == DigitChar(n % 10);
    }
  }

  /** Download name of the custom export. */
  function CustomFilename(v: Byte): (name: string) {
    CustomPrefix + Decimal(v) + CustomSuffix
  }

  /** The opacity a custom-export file name carries, if it has that shape. */
  function FilenameOpacity(name: string): (v: Option<nat>) {
    var p, q := |CustomPrefix|, |CustomSuffix|;
    if |name| > p + q && name[..p] == CustomPrefix && name[|name| - q..] == CustomSuffix
       && AllDigits(name[p..|name| - q])
    then Some(ParseDecimal(name[p..|name| - q]))
    else None
  }

  /** The custom file name embeds exactly the alpha it was made from. */
  lemma FilenameRoundTrip(v: Byte)
    ensures FilenameOpacity(CustomFilename(v)) == Some(v)
  {
    var name := CustomFilename(v);
    var p, q := |CustomPrefix|, |CustomSuffix|;
    assert name[..p] == CustomPrefix;
    assert name[|name| - q..] == CustomSuffix;
    assert name[p..|name| - q] == Decimal(v);
    DecimalRoundTrip(v);
  }

  /** Different alphas give different file names. */
  lemma CustomFilenameInjective(a: Byte, b: Byte)
    ensures CustomFilename(a) == CustomFilename(b) ==> a == b
  {
    FilenameRoundTrip(a);
    FilenameRoundTrip(b);
  }

  /** The name follows the clamped value, not the raw answer: -10 downloads as
      `...-0.png`, 500 as `...-255.png`, and no answer as `...-128.png`. */
  lemma CustomFilenameExamples()
    ensures CustomFilename(ValidOpacity(Some(-10))) == "transparent-masked-image-0.png"
    ensures CustomFilename(ValidOpacity(Some(500))) == "transparent-masked-image-255.png"
    ensures CustomFilename(ValidOpacity(None)) == "transparent-masked-image-128.png"
  {
    assert Decimal(255) == Decimal(25) + ['5'];
    assert Decimal(25) == Decimal(2) + ['5'];
    assert Decimal(128) == Decimal(12) + ['8'];
    assert Decimal(12) == Decimal(1) + ['2'];
  }
}
