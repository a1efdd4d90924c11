/** The content model of the clipboard manager: what a clipboard holds, the
    history item built from it, search matching, the one-line preview, and the
    choice between the text and image readings of the system clipboard. */
module Clipboard {
  import opened Wrappers
  import opened Errors
  import opened Text
  import opened Uuids

  /** A UTC instant; only its order matters to the model. */
  type Timestamp = int

  datatype ImageMetadata = ImageMetadata(width: nat, height: nat, bytesPerPixel: nat)

  datatype ClipboardContent =
    | Text(text: Str)
    | Image(data: seq<byte>, meta: ImageMetadata)

  datatype ClipboardItem = ClipboardItem(
    id: Uuid,
    content: ClipboardContent,
    timestamp: Timestamp,
    pinned: bool)

  /** `ClipboardItem::new`. The fresh uuid and the current time are inputs. */
  function NewItem(content: ClipboardContent, id: Uuid, now: Timestamp): (it: ClipboardItem)
    ensures it.content == content && !it.pinned
    ensures it.id == id && it.timestamp == now
  {
    ClipboardItem(id, content, now, false)
  }

  // Search

  /** `matches_search`: an empty query matches everything; otherwise only text
      whose lowercase form contains the lowercase query. */
  function MatchesSearch(item: ClipboardItem, query: Str): (r: bool)
    ensures |query| == 0 ==> r
    ensures r && |query| > 0 ==> item.content.Text?
  {
    if |query| == 0 then true
    else match item.content
      case Text(t) => Contains(Lower(t), Lower(query))
      case Image(_, _) => false
  }

  lemma MatchesSearchSpec(item: ClipboardItem, query: Str)
    ensures |query| == 0 ==> MatchesSearch(item, query)
    ensures |query| > 0 && item.content.Image? ==> !MatchesSearch(item, query)
    ensures |query| > 0 && item.content.Text? ==>
              (MatchesSearch(item, query) <==>
               exists i :: OccursAt(Lower(item.content.text), Lower(query), i))
  {
    if item.content.Text? {
      ContainsIff(Lower(item.content.text), Lower(query));
    }
  }

  // Preview (`impl Display for ClipboardItem`)

  const PreviewLimit: nat := 50
  const PreviewCut: nat := 47

  /** "Image " */
  const ImagePrefix: Str := [0x49, 0x6D, 0x61, 0x67, 0x65, 0x20]
  const Times: byte := 0x78  // 'x'

  /** "Image {width}x{height}" */
  function ImageLabel(width: nat, height: nat): (r: Str)
    ensures |r| >= |ImagePrefix| + 3
    ensures r[..|ImagePrefix|] == ImagePrefix
    ensures forall i :: |ImagePrefix| <= i < |r| ==> IsDigit(r[i]) || r[i] == Times
  {
    ImagePrefix + Decimal(width) + [Times] + Decimal(height)
  }

  /** The preview exactly as the Rust code computes it: `&text[..47]` panics when
      byte 47 falls inside a multi-byte character. */
  function DisplayAsWritten(item: ClipboardItem): (r: Result<Str, Panic>)
    ensures item.content.Image? ==>
              r == Ok(ImageLabel(item.content.meta.width, item.content.meta.height))
    ensures item.content.Text? && |item.content.text| <= PreviewLimit ==>
              r == Ok(item.content.text)
    ensures item.content.Text? && |item.content.text| > PreviewLimit ==>
              && (r.Ok? <==> IsCharBoundary(item.content.text, PreviewCut))
              && (r.Ok? ==> |r.value| == PreviewLimit
                            && r.value == item.content.text[..PreviewCut] + Ellipsis)
  {
    match item.content
    case Text(t) =>
      if |t| > PreviewLimit then
        match SliceTo(t, PreviewCut)
        case Ok(head) => Ok(head + Ellipsis)
        case Err(p) => Err(p)
      else Ok(t)
    case Image(_, meta) => Ok(ImageLabel(meta.width, meta.height))
  }

  /** A text of 46 ASCII bytes followed by "é" (0xC3 0xA9) and more text: byte 47
      is the second byte of "é", so the as-written preview panics. */
  lemma DisplayPanicsInsideCharacter(id: Uuid, now: Timestamp)
    ensures var t := seq(46, _ => 0x61) + [0xC3, 0xA9] + seq(10, _ => 0x61);
            DisplayAsWritten(NewItem(Text(t), id, now)) == Err(NotCharBoundary(PreviewCut))
  {
    var t := seq(46, _ => 0x61) + [0xC3, 0xA9] + seq(10, _ => 0x61);
    assert t[47] == 0xA9;
  }

  /** The preview cut at the last character boundary at or before byte 47,
      so that it never panics and never exceeds 50 bytes. */
  function Display(item: ClipboardItem): (r: Str)
    ensures item.content.Image? ==>
              r == ImageLabel(item.content.meta.width, item.content.meta.height)
    ensures item.content.Text? && |item.content.text| <= PreviewLimit ==> r == item.content.text
    ensures item.content.Text? && |item.content.text| > PreviewLimit ==>
              exists k: nat :: && k <= PreviewCut && IsCharBoundary(item.content.text, k)
                          && (forall j :: k < j <= PreviewCut ==> !IsCharBoundary(item.content.text, j))
                          && r == item.content.text[..k] + Ellipsis
    ensures item.content.Text? ==> |r| <= PreviewLimit
  {
    match item.content
    case Text(t) =>
      if |t| > PreviewLimit then t[..FloorCharBoundary(t, PreviewCut)] + Ellipsis else t
    case Image(_, meta) => ImageLabel(meta.width, meta.height)
  }

  /** Wherever the as-written preview does not panic, the corrected one is the same. */
  lemma DisplayAgreesWhenNoPanic(item: ClipboardItem)
    ensures DisplayAsWritten(item).Ok? ==> Display(item) == DisplayAsWritten(item).value
  {
  }

  // Reading the image label back

  function IndexOf(s: Str, b: byte): (r: Option<nat>)
    ensures r.Some? ==> r.value < |s| && s[r.value] == b
                        && forall i :: 0 <= i < r.value ==> s[i] != b
    ensures r.None? ==> forall i :: 0 <= i < |s| ==> s[i] != b
  {
    if |s| == 0 then None
    else if s[0] == b then Some(0)
    else match IndexOf(s[1..], b)
      case Some(i) => Some(i + 1)
      case None => None
  }

  /** Recovers width and height from a string of the form "Image {w}x{h}". */
  function ParseImageLabel(s: Str): Option<(nat, nat)> {
    if |s| < |ImagePrefix| || s[..|ImagePrefix|] != ImagePrefix then None
    else
      var rest := s[|ImagePrefix|..];
      match IndexOf(rest, Times)
      case None => None
      case Some(i) =>
        var w := rest[..i];
        var h := rest[i + 1..];
        if (forall j :: 0 <= j < |w| ==> IsDigit(w[j])) && (forall j :: 0 <= j < |h| ==> IsDigit(h[j]))
        then Some((DigitsValue(w), DigitsValue(h)))
        else None
  }

  /** The image preview names the image's dimensions unambiguously. */
  lemma ImageLabelRoundTrip(width: nat, height: nat)
    ensures ParseImageLabel(ImageLabel(width, height)) == Some((width, height))
  {
    var s := ImageLabel(width, height);
    var dw := Decimal(width);
    var dh := Decimal(height);
    var rest := s[|ImagePrefix|..];
    assert s[..|ImagePrefix|] == ImagePrefix;
    assert rest == dw + [Times] + dh;
    assert rest[|dw|] == Times;
    assert forall j :: 0 <= j < |dw| ==> rest[j] == dw[j] && IsDigit(dw[j]);
    assert IndexOf(rest, Times) == Some(|dw|);
    assert rest[..|dw|] == dw;
    assert rest[|dw| + 1..] == dh;
    DecimalRoundTrip(width);
    DecimalRoundTrip(height);
  }

  // Choosing what the clipboard holds (`ClipboardManager::get_current_content`)

  /** What `arboard` hands back for an image. */
  datatype ImageData = ImageData(width: nat, height: nat, bytesPerPixel: nat, bytes: seq<byte>)

  /** Text first, image second; the two library reads are inputs. */
  function CurrentContent(text: Result<Str, ClipboardError>, image: Result<ImageData, ClipboardError>)
    : (r: Result<Option<ClipboardContent>, ClipboardError>)
    ensures r.Ok?
    ensures r.value != Some(Text([]))
    ensures text.Ok? && |text.value| > 0 ==> r.value == Some(Text(text.value))
    ensures !(text.Ok? && |text.value| > 0) ==>
              && (r.value.Some? <==> image.Ok?)
              && (image.Ok? ==> r.value == Some(Image(image.value.bytes,
                    ImageMetadata(image.value.width, image.value.height, image.value.bytesPerPixel))))
  {
    if text.Ok? && |text.value| > 0 then Ok(Some(Text(text.value)))
    else match image
      case Ok(img) => Ok(Some(Image(img.bytes, ImageMetadata(img.width, img.height, img.bytesPerPixel))))
      case Err(_) => Ok(None)
  }
}
