/** `sanitize_text`: trim, then cut to a maximum byte length with an ellipsis. */
module Utils {
  import opened Wrappers
  import opened Text

  /** As written: `&trimmed[..max_length - 3]` panics when that byte falls
      inside a multi-byte character. When `max_length` is below 3 and the text
      does not fit, the code panics too: at the subtraction with overflow
      checks, otherwise at the slice, whose wrapped-around end is out of range. */
  function SanitizeText(text: Str, maxLength: nat): (r: Result<Str, Panic>)
    ensures |Trim(text)| <= maxLength ==> r == Ok(Trim(text))
    ensures |Trim(text)| > maxLength && maxLength < 3 ==> r == Err(SubtractOverflow)
    ensures |Trim(text)| > maxLength && maxLength >= 3 ==>
              && (r.Ok? <==> IsCharBoundary(Trim(text), maxLength - 3))
              && (r.Ok? ==> r.value == Trim(text)[..maxLength - 3] + Ellipsis
                            && |r.value| == maxLength)
              && (r.Err? ==> r.error == NotCharBoundary(maxLength - 3))
  {
    var trimmed := Trim(text);
    if |trimmed| <= maxLength then Ok(trimmed)
    else if maxLength < 3 then Err(SubtractOverflow)
    else match SliceTo(trimmed, maxLength - 3)
      case Ok(head) => Ok(head + Ellipsis)
      case Err(p) => Err(p)
  }

  /** " " followed by 46 bytes "a", then "é" (0xC3 0xA9), then 10 bytes "a",
      with a limit of 50: trimmed it is 58 bytes long, and cutting at 47 lands
      inside "é". */
  lemma SanitizePanicsInsideCharacter()
    ensures var t := [0x20] + seq(46, _ => 0x61) + [0xC3, 0xA9] + seq(10, _ => 0x61);
            SanitizeText(t, 50) == Err(NotCharBoundary(47))
  {
    var t: Str := [0x20] + seq(46, _ => 0x61) + [0xC3, 0xA9] + seq(10, _ => 0x61);
    var body := t[1..];
    assert SliceBetweenWhitespace(t, body, 1);
    assert body[0] == 0x61 && body[|body| - 1] == 0x61;
    TrimUnique(t, body, 1);
    assert body[47] == 0xA9;
  }

  /** The cut moved back to the last character boundary, so it never panics
      and the result never exceeds `maxLength` bytes. */
  function SanitizeTextOnBoundary(text: Str, maxLength: nat): (r: Str)
    requires maxLength >= 3 || |Trim(text)| <= maxLength
    ensures |Trim(text)| <= maxLength ==> r == Trim(text)
    ensures |Trim(text)| > maxLength ==>
              exists k: nat :: && k <= maxLength - 3 && IsCharBoundary(Trim(text), k)
                               && (forall j :: k < j <= maxLength - 3 ==> !IsCharBoundary(Trim(text), j))
                               && r == Trim(text)[..k] + Ellipsis
    ensures |r| <= maxLength
  {
    var trimmed := Trim(text);
    if |trimmed| <= maxLength then trimmed
    else trimmed[..FloorCharBoundary(trimmed, maxLength - 3)] + Ellipsis
  }

  /** Wherever the code as written does not panic, the corrected cut is the same. */
  lemma SanitizeAgreesWhenNoPanic(text: Str, maxLength: nat)
    ensures SanitizeText(text, maxLength).Ok? ==>
              && (maxLength >= 3 || |Trim(text)| <= maxLength)
              && SanitizeTextOnBoundary(text, maxLength) == SanitizeText(text, maxLength).value
  {
  }
}
