/** The string logic of `read_pi_digits`, applied to the text the file held:
    strip the text, keep the fractional field, cut it to the digit limit. */
module Reader {
  import opened Strings

  /** The default `digit_limit` of `read_pi_digits`, and the limit `main` passes. */
  const DefaultDigitLimit: int := 1000000

  /** `content.split('.')[1]` when the text holds a `.`, the text itself
      otherwise: the run between the first `.` and the next one (or the end). */
  function FractionalField(content: string): (digits: string)
    ensures '.' !in digits
    ensures '.' !in content ==> digits == content
    ensures '.' in content ==>
      var start := Find(content, '.') + 1;
      && start + |digits| <= |content|
      && digits == content[start..start + |digits|]
      && (start + |digits| == |content| || content[start + |digits|] == '.')
  {
    if '.' in content then
      SplitSecond(content, '.');
      Split(content, '.')[1]
    else
      content
  }

  /** `s[:stop]`, Python slice semantics: a negative `stop` counts back from the end. */
  function SliceTo(s: string, stop: int): (r: string)
    ensures r <= s
    ensures 0 <= stop ==> |r| == if stop < |s| then stop else |s|
    ensures stop < 0 ==> |r| == if |s| + stop < 0 then 0 else |s| + stop
  {
    if 0 <= stop then (if stop < |s| then s[..stop] else s)
    else (if |s| + stop < 0 then [] else s[..|s| + stop])
  }

  /** `read_pi_digits` once the file has been read into `content`. */
  function ReadDigits(content: string, digitLimit: int): (digits: string)
    ensures digits <= FractionalField(Strip(content))
    ensures '.' !in digits
    ensures 0 <= digitLimit ==>
      |digits| == if |FractionalField(Strip(content))| < digitLimit then |FractionalField(Strip(content))| else digitLimit
    ensures digitLimit < 0 ==>
      |digits| == if |FractionalField(Strip(content))| + digitLimit < 0 then 0 else |FractionalField(Strip(content))| + digitLimit
    ensures |FractionalField(Strip(content))| <= digitLimit ==> digits == FractionalField(Strip(content))
  {
    SliceTo(FractionalField(Strip(content)), digitLimit)
  }

  /** For a trimmed number `whole.frac`, reading keeps exactly the
      fractional digits, cut to the limit. */
  lemma ReadNumber(whole: string, frac: string, digitLimit: int)
    requires '.' !in whole && '.' !in frac
    requires Trimmed(whole + "." + frac)
    ensures ReadDigits(whole + "." + frac, digitLimit) == SliceTo(frac, digitLimit)
  {
    var s := whole + "." + frac;
    assert s[0..|s|] == s;
    StripUnique(s, 0, |s|);
    assert s == Join([whole, frac], '.');
    SplitJoin([whole, frac], '.');
  }

  lemma ReadDigitsExamplePi()
    ensures ReadDigits("3.14159", 3) == "141"
  {
    assert "3.14159" == "3" + "." + "14159";
    ReadNumber("3", "14159", 3);
  }

  lemma ReadDigitsExampleNoDot()
    ensures ReadDigits("271828", 10) == "271828"
  {
    var s := "271828";
    assert s[0..|s|] == s;
    StripUnique(s, 0, |s|);
  }

  /** Under the default limit of one million, a short number keeps its
      whole fractional field. */
  lemma ReadDigitsExampleDefault()
    ensures ReadDigits("2.71828", DefaultDigitLimit) == "71828"
  {
    assert "2.71828" == "2" + "." + "71828";
    ReadNumber("2", "71828", DefaultDigitLimit);
  }

  lemma ReadDigitsExampleShort()
    ensures ReadDigits("3.14", 100) == "14"
  {
    assert "3.14" == "3" + "." + "14";
    ReadNumber("3", "14", 100);
  }
}
