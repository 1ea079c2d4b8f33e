/** The four colour schemes of the visualiser and the digit-to-colour lookup
    the renderer performs with `color_scheme.get(digit, (0, 0, 0))`. */
module Palette {
  import opened Options

  /** One 8-bit colour channel. */
  type Byte = x: int | 0 <= x < 256

  datatype RGB = RGB(red: Byte, green: Byte, blue: Byte)

  /** The background of a new image and the colour of any unmapped character. */
  const Black := RGB(0, 0, 0)

  /** A colour scheme: a table from characters to colours. */
  type Scheme = map<char, RGB>

  predicate IsDigit(c: char) {
    '0' <= c <= '9'
  }

  predicate AllDigits(s: string) {
    forall i | 0 <= i < |s| :: IsDigit(s[i])
  }

  /** The keys of every scheme, in ascending order. */
  const DigitChars: string := "0123456789"

  const Grayscale: Scheme := map[
    '0' := RGB(255, 255, 255), '1' := RGB(227, 227, 227), '2' := RGB(199, 199, 199), '3' := RGB(171, 171, 171),
    '4' := RGB(143, 143, 143), '5' := RGB(115, 115, 115), '6' := RGB(87, 87, 87), '7' := RGB(59, 59, 59),
    '8' := RGB(31, 31, 31), '9' := RGB(3, 3, 3)]

  const Rainbow: Scheme := map[
    '0' := RGB(255, 0, 0), '1' := RGB(255, 128, 0), '2' := RGB(255, 255, 0), '3' := RGB(128, 255, 0),
    '4' := RGB(0, 255, 0), '5' := RGB(0, 255, 128), '6' := RGB(0, 128, 255), '7' := RGB(0, 0, 255),
    '8' := RGB(128, 0, 255), '9' := RGB(255, 0, 255)]

  const EarthTones: Scheme := map[
    '0' := RGB(0, 100, 0), '1' := RGB(34, 139, 34), '2' := RGB(107, 142, 35), '3' := RGB(154, 205, 50),
    '4' := RGB(218, 165, 32), '5' := RGB(184, 134, 11), '6' := RGB(139, 69, 19), '7' := RGB(160, 82, 45),
    '8' := RGB(188, 143, 143), '9' := RGB(216, 191, 216)]

  const CoolWarm: Scheme := map[
    '0' := RGB(0, 0, 112), '1' := RGB(0, 0, 224), '2' := RGB(0, 128, 255), '3' := RGB(0, 255, 255),
    '4' := RGB(0, 255, 128), '5' := RGB(128, 255, 0), '6' := RGB(255, 255, 0), '7' := RGB(255, 128, 0),
    '8' := RGB(255, 64, 0), '9' := RGB(255, 0, 0)]

  /** `color_schemes`, in the order the images are numbered. */
  const Schemes: seq<Scheme> := [Grayscale, Rainbow, EarthTones, CoolWarm]

  /** `scheme.get(c, (0, 0, 0))`. */
  function Lookup(scheme: Scheme, c: char): (color: RGB)
  {
    if c in scheme then scheme[c] else Black
  }

  /** Each predefined scheme has exactly the ten digits as keys. */
  lemma SchemeKeys(k: nat, c: char)
    requires k < |Schemes|
    ensures c in Schemes[k] <==> IsDigit(c)
  {
    if IsDigit(c) {
      assert c in DigitChars by { DigitIn(c); }
    }
  }

  lemma DigitIn(c: char)
    requires IsDigit(c)
    ensures c in DigitChars
  {
    var i := (c as int) - ('0' as int);
    assert 0 <= i < 10;
    assert DigitChars[i] == c;
  }

  /** Under a predefined scheme a character comes out black exactly when it
      is not a digit: no scheme gives any digit the background colour. */
  lemma LookupBlackIffNotDigit(k: nat, c: char)
    requires k < |Schemes|
    ensures Lookup(Schemes[k], c) == Black <==> !IsDigit(c)
  {
    SchemeKeys(k, c);
    if IsDigit(c) {
      DigitIn(c);
    }
  }

  /** No two keys of `scheme` share a colour. */
  predicate Injective(scheme: Scheme) {
    forall c, d | c in scheme && d in scheme && c != d :: scheme[c] != scheme[d]
  }

  /** Each predefined scheme gives distinct digits distinct colours. */
  lemma SchemeInjective(k: nat, c: char, d: char)
    requires k < |Schemes|
    requires IsDigit(c) && IsDigit(d) && c != d
    ensures Lookup(Schemes[k], c) != Lookup(Schemes[k], d)
  {
    SchemeKeys(k, c);
    SchemeKeys(k, d);
    if k == 0 { GrayscaleInjective(); }
    else if k == 1 { RainbowInjective(); }
    else if k == 2 { EarthTonesInjective(); }
    else { CoolWarmInjective(); }
  }

  lemma GrayscaleInjective() ensures Injective(Grayscale) { }
  lemma RainbowInjective() ensures Injective(Rainbow) { }
  lemma EarthTonesInjective() ensures Injective(EarthTones) { }
  lemma CoolWarmInjective() ensures Injective(CoolWarm) { }

  /** The first of `candidates` that `scheme` paints `color`, if any. */
  function DecodeFrom(scheme: Scheme, color: RGB, candidates: string): (r: Option<char>)
    ensures r.Some? ==> r.value in candidates && r.value in scheme && scheme[r.value] == color
    ensures r.None? ==> forall c | c in candidates && c in scheme :: scheme[c] != color
  {
    if |candidates| == 0 then None
    else if candidates[0] in scheme && scheme[candidates[0]] == color then Some(candidates[0])
    else DecodeFrom(scheme, color, candidates[1..])
  }

  /** The digit a scheme paints in `color`, or `None` for a colour it never uses. */
  function Decode(scheme: Scheme, color: RGB): (r: Option<char>)
  {
    DecodeFrom(scheme, color, DigitChars)
  }

  /** Decoding inverts the lookup: a digit comes back as itself, anything
      else (painted black) as `None`. */
  lemma DecodeLookup(k: nat, c: char)
    requires k < |Schemes|
    ensures Decode(Schemes[k], Lookup(Schemes[k], c)) == if IsDigit(c) then Some(c) else None
  {
    var scheme := Schemes[k];
    var r := Decode(scheme, Lookup(scheme, c));
    LookupBlackIffNotDigit(k, c);
    if IsDigit(c) {
      SchemeKeys(k, c);
      DigitIn(c);
      if r.Some? && r.value != c {
        assert IsDigit(r.value);
        SchemeInjective(k, c, r.value);
      }
    } else {
      if r.Some? {
        SchemeKeys(k, r.value);
        LookupBlackIffNotDigit(k, r.value);
      }
    }
  }
}
