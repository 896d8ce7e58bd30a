/**
 * Images: format detection by magic bytes, dimensions read from the PNG
 * IHDR chunk or a JPEG start-of-frame segment, the scaling modes, the
 * image XObject stream and the operators that draw it.
 */
module Images {
  import opened Results
  import opened Strs
  import opened Bytes
  import opened PdfErrors

  datatype ImageFormat = Jpeg | Png

  datatype ImageScaleMode = Stretch | FitWidth | FitHeight | FitBox

  datatype ImageDimensions = ImageDimensions(width: nat, height: nat)

  datatype JpegInfo = JpegInfo(width: nat, height: nat, numComponents: byte)

  // ---------------------------------------------------------------------
  // Scaling
  // ---------------------------------------------------------------------

  /**
   * The size an image is drawn at: the target box itself, the target width
   * or height with the other side following the image's aspect ratio, or
   * the largest size with that aspect ratio that fits the box.
   */
  function CalculateScaledDimensions(ow: nat, oh: nat, tw: real, th: real, mode: ImageScaleMode): (r: (real, real))
    requires mode == FitWidth ==> ow > 0
    requires mode == FitHeight ==> oh > 0
    requires mode == FitBox ==> ow > 0 && oh > 0
    ensures mode == Stretch ==> r == (tw, th)
    ensures mode == FitWidth ==> r.0 == tw && r.1 * ow as real == tw * oh as real
    ensures mode == FitHeight ==> r.1 == th && r.0 * oh as real == th * ow as real
    ensures mode == FitBox ==>
      && r.0 * oh as real == r.1 * ow as real
      && r.0 <= tw && r.1 <= th
      && (r.0 == tw || r.1 == th)
  {
    match mode
    case Stretch => (tw, th)
    case FitWidth => FitWidthSize(ow, oh, tw)
    case FitHeight =>
      var (h, w) := FitWidthSize(oh, ow, th);
      (w, h)
    case FitBox => FitBoxSize(ow, oh, tw, th)
  }

  /** The width is the target; the height keeps the aspect ratio. */
  function FitWidthSize(ow: nat, oh: nat, tw: real): (r: (real, real))
    requires ow > 0
    ensures r.0 == tw && r.1 * ow as real == tw * oh as real
  {
    var aspect := oh as real / ow as real;
    (tw, tw * aspect)
  }

  /** The larger size that fits the box and keeps the aspect ratio. */
  function FitBoxSize(ow: nat, oh: nat, tw: real, th: real): (r: (real, real))
    requires ow > 0 && oh > 0
    ensures r.0 * oh as real == r.1 * ow as real
    ensures r.0 <= tw && r.1 <= th
    ensures r.0 == tw || r.1 == th
  {
    var wr := tw / ow as real;
    var hr := th / oh as real;
    var scale := if wr <= hr then wr else hr;
    (ow as real * scale, oh as real * scale)
  }

  // ---------------------------------------------------------------------
  // Format detection
  // ---------------------------------------------------------------------

  const PngSignature: seq<byte> := [0x89, 0x50, 0x4E, 0x47, 0x0D, 0x0A, 0x1A, 0x0A]

  predicate HasJpegMagic(data: seq<byte>)
  {
    |data| >= 3 && data[0] == 0xFF && data[1] == 0xD8 && data[2] == 0xFF
  }

  predicate HasPngSignature(data: seq<byte>)
  {
    |data| >= 8 && data[..8] == PngSignature
  }

  /**
   * The format named by the leading bytes. At least eight bytes are needed
   * even for JPEG, which is recognised first.
   */
  function DetectFormat(data: seq<byte>): (r: Result<ImageFormat, PdfError>)
    ensures |data| < 8 ==> r == Err(ImageError("Image data too short"))
    ensures r == Ok(Jpeg) <==> |data| >= 8 && HasJpegMagic(data)
    ensures r == Ok(Png) <==> |data| >= 8 && HasPngSignature(data)
    ensures |data| >= 8 && !HasJpegMagic(data) && !HasPngSignature(data) ==>
              r == Err(ImageError("Unknown image format"))
  {
    if |data| < 8 then Err(ImageError("Image data too short"))
    else if data[0] == 0xFF && data[1] == 0xD8 && data[2] == 0xFF then Ok(Jpeg)
    else if data[0..8] == PngSignature then Ok(Png)
    else Err(ImageError("Unknown image format"))
  }

  // ---------------------------------------------------------------------
  // PNG
  // ---------------------------------------------------------------------

  const Ihdr: seq<byte> := [0x49, 0x48, 0x44, 0x52]

  /** Width and height of the IHDR chunk, which must come first. */
  function GetPngDimensions(data: seq<byte>): (r: Result<ImageDimensions, PdfError>)
    ensures |data| < 24 ==> r == Err(ImageError("PNG data too short"))
    ensures |data| >= 24 && data[12..16] != Ihdr ==> r == Err(ImageError("Invalid PNG: IHDR not found"))
    ensures r.Ok? ==> |data| >= 24 && data[12..16] == Ihdr && r.value == ImageDimensions(Be32(data, 16), Be32(data, 20))
  {
    if |data| < 24 then Err(ImageError("PNG data too short"))
    else if data[12..16] != Ihdr then Err(ImageError("Invalid PNG: IHDR not found"))
    else Ok(ImageDimensions(Be32(data, 16), Be32(data, 20)))
  }

  /** The first 24 bytes of a PNG file: signature, IHDR length and tag, width, height. */
  function PngHeader(width: nat, height: nat): (bs: seq<byte>)
    requires width < 0x1_0000_0000 && height < 0x1_0000_0000
    ensures |bs| == 24
  {
    PngSignature + [0, 0, 0, 0x0D] + Ihdr + EncodeBe32(width) + EncodeBe32(height)
  }

  /** A PNG header reads back as the dimensions written into it. */
  lemma PngHeaderRoundTrip(width: nat, height: nat, rest: seq<byte>)
    requires width < 0x1_0000_0000 && height < 0x1_0000_0000
    ensures GetPngDimensions(PngHeader(width, height) + rest) == Ok(ImageDimensions(width, height))
    ensures GetDimensions(PngHeader(width, height) + rest) == Ok(ImageDimensions(width, height))
  {
    var pre := PngSignature + [0, 0, 0, 0x0D] + Ihdr;
    var data := PngHeader(width, height) + rest;
    assert data == pre + EncodeBe32(width) + (EncodeBe32(height) + rest);
    Be32RoundTrip(width, pre, EncodeBe32(height) + rest);
    assert data == (pre + EncodeBe32(width)) + EncodeBe32(height) + rest;
    Be32RoundTrip(height, pre + EncodeBe32(width), rest);
    assert data[12..16] == Ihdr;
    assert data[..8] == PngSignature;
  }

  // ---------------------------------------------------------------------
  // JPEG
  // ---------------------------------------------------------------------

  /** Start-of-frame markers: C0 to CF except DHT (C4), JPG (C8) and DAC (CC). */
  predicate IsSof(marker: byte)
  {
    0xC0 <= marker <= 0xCF && marker != 0xC4 && marker != 0xC8 && marker != 0xCC
  }

  /** A start-of-frame segment begins at `i`. */
  predicate SofAt(data: seq<byte>, i: nat)
  {
    i + 10 < |data| && data[i] == 0xFF && IsSof(data[i + 1])
  }

  /** Height, width and component count of the frame segment at `i`. */
  function InfoAt(data: seq<byte>, i: nat): JpegInfo
    requires i + 10 <= |data|
  {
    JpegInfo(Be16(data, i + 7), Be16(data, i + 5), data[i + 9])
  }

  /**
   * The marker scan: a non-0xFF byte is skipped; at a frame marker the scan
   * stops; any other marker segment is jumped over by its big-endian
   * length, and a length below 2 or a length field past the end stops the
   * scan without a result.
   */
  function SofScan(data: seq<byte>, i: nat): (r: Option<nat>)
    ensures r.Some? ==> i <= r.value && SofAt(data, r.value)
    ensures SofAt(data, i) ==> r == Some(i)
    ensures i + 10 >= |data| ==> r == None
    decreases |data| - i
  {
    if i + 10 >= |data| then None
    else if data[i] != 0xFF then SofScan(data, i + 1)
    else if IsSof(data[i + 1]) then Some(i)
    else if i + 4 < |data| then
      var length := Be16(data, i + 2);
      if length < 2 then None else SofScan(data, i + 2 + length)
    else None
  }

  /** A marker segment whose length field is below 2 ends the scan with nothing. */
  lemma SofScanBadLength(data: seq<byte>, i: nat)
    requires i + 10 < |data| && data[i] == 0xFF && !IsSof(data[i + 1])
    requires Be16(data, i + 2) < 2
    ensures SofScan(data, i) == None
  {
  }

  /** The scan jumps over a whole marker segment: nothing inside it is looked at. */
  lemma SofScanSkipsSegment(data: seq<byte>, i: nat)
    requires i + 10 < |data| && data[i] == 0xFF && !IsSof(data[i + 1])
    requires Be16(data, i + 2) >= 2
    ensures SofScan(data, i) == SofScan(data, i + 2 + Be16(data, i + 2))
  {
  }

  /**
   * A marker segment that is not a frame: 0xFF, the marker, a big-endian
   * length that counts itself and the payload, then the payload.
   */
  datatype MarkerSegment = MarkerSegment(marker: byte, payload: seq<byte>)

  predicate PlainSegment(s: MarkerSegment)
  {
    !IsSof(s.marker) && |s.payload| + 2 < 0x10000
  }

  /** A marker segment that is not a frame and whose length fits its 16-bit field. */
  type PlainSeg = s: MarkerSegment | PlainSegment(s) witness MarkerSegment(0, [])

  function SegmentBytes(s: MarkerSegment): (bs: seq<byte>)
    requires PlainSegment(s)
    ensures |bs| == 4 + |s.payload|
  {
    var n := |s.payload| + 2;
    [0xFF, s.marker, (n / 0x100) as byte, (n % 0x100) as byte] + s.payload
  }

  /** The number of bytes a marker segment occupies. */
  function SegLen(s: MarkerSegment): nat
  {
    |s.payload| + 4
  }

  /** The bytes of a chain of marker segments, one after another. */
  function ChainBytes(segs: seq<PlainSeg>): (bs: seq<byte>)
    ensures |bs| == ChainLen(segs)
  {
    if segs == [] then [] else SegmentBytes(segs[0]) + ChainBytes(segs[1..])
  }

  /** The number of bytes a chain of marker segments occupies. */
  function ChainLen(segs: seq<PlainSeg>): nat
  {
    if segs == [] then 0 else SegLen(segs[0]) + ChainLen(segs[1..])
  }

  /** The header of `s` (0xFF, its marker, its length field) starts at `i`. */
  predicate HeaderAt(data: seq<byte>, i: nat, s: MarkerSegment)
  {
    i + 4 <= |data| && data[i] == 0xFF && data[i + 1] == s.marker && Be16(data, i + 2) == |s.payload| + 2
  }

  /** The segments of `segs` lie one after another in `data` from index `i`. */
  predicate ChainAt(data: seq<byte>, i: nat, segs: seq<PlainSeg>)
    decreases |segs|
  {
    segs == [] || (HeaderAt(data, i, segs[0]) && ChainAt(data, i + SegLen(segs[0]), segs[1..]))
  }

  /** The scan at a plain marker segment continues right after it. */
  lemma ScanSkipsOne(data: seq<byte>, i: nat, s: PlainSeg)
    requires i + 10 < |data| && HeaderAt(data, i, s)
    ensures SofScan(data, i) == SofScan(data, i + SegLen(s))
  {
    SofScanSkipsSegment(data, i);
  }

  /** Starting at a chain of marker segments, the scan lands on the frame that follows it. */
  lemma {:induction false} ScanSkipsChain(data: seq<byte>, i: nat, segs: seq<PlainSeg>)
    requires ChainAt(data, i, segs) && SofAt(data, i + ChainLen(segs))
    ensures SofScan(data, i) == Some(i + ChainLen(segs))
    decreases |segs|
  {
    if segs != [] {
      ScanSkipsOne(data, i, segs[0]);
      ScanSkipsChain(data, i + SegLen(segs[0]), segs[1..]);
    }
  }

  /** The bytes of one segment, placed after any prefix, carry its header. */
  lemma SegmentBytesAt(pre: seq<byte>, s: PlainSeg, post: seq<byte>)
    ensures HeaderAt(pre + SegmentBytes(s) + post, |pre|, s)
  {
    var data := pre + SegmentBytes(s) + post;
    var n := |s.payload| + 2;
    assert data[|pre|] == 0xFF && data[|pre| + 1] == s.marker;
    assert data[|pre| + 2] == (n / 0x100) as byte && data[|pre| + 3] == (n % 0x100) as byte;
  }

  /** The bytes of a chain, placed after any prefix, form that chain. */
  lemma {:induction false} ChainBytesAt(pre: seq<byte>, segs: seq<PlainSeg>, post: seq<byte>)
    ensures ChainAt(pre + ChainBytes(segs) + post, |pre|, segs)
    decreases |segs|
  {
    if segs != [] {
      var bs := SegmentBytes(segs[0]);
      ChainBytesHead(pre, segs, post);
      ChainBytesAt(pre + bs, segs[1..], post);
    }
  }

  /** The first segment's header opens the chain's bytes; the rest follow it. */
  lemma ChainBytesHead(pre: seq<byte>, segs: seq<PlainSeg>, post: seq<byte>)
    requires segs != []
    ensures var data := pre + ChainBytes(segs) + post;
      var bs := SegmentBytes(segs[0]);
      && HeaderAt(data, |pre|, segs[0])
      && data == (pre + bs) + ChainBytes(segs[1..]) + post
      && |pre + bs| == |pre| + SegLen(segs[0])
  {
    var bs := SegmentBytes(segs[0]);
    var rest := ChainBytes(segs[1..]);
    assert ChainBytes(segs) == bs + rest;
    Regroup(pre, bs, rest, post);
    SegmentBytesAt(pre, segs[0], rest + post);
  }

  lemma Regroup(a: seq<byte>, b: seq<byte>, c: seq<byte>, d: seq<byte>)
    ensures a + (b + c) + d == a + b + (c + d) == (a + b) + c + d
  {
  }

  /**
   * A frame segment placed after any chain of well-formed marker segments
   * is the one the JPEG reader reports.
   */
  lemma FrameAfterSegments(segs: seq<PlainSeg>, tail: seq<byte>)
    requires SofAt(tail, 0)
    ensures GetJpegInfo([0xFF, 0xD8] + ChainBytes(segs) + tail) == Ok(InfoAt(tail, 0))
  {
    var pre := [0xFF, 0xD8] + ChainBytes(segs);
    ChainBytesAt([0xFF, 0xD8], segs, tail);
    InfoAfter(pre, tail);
    ScanSkipsChain(pre + tail, 2, segs);
  }

  /** In particular, the frame header `JpegHeader` writes is read back after any such chain. */
  lemma HeaderAfterSegments(segs: seq<PlainSeg>, width: nat, height: nat, components: byte, next: byte,
                            rest: seq<byte>)
    requires width < 0x10000 && height < 0x10000
    ensures GetJpegInfo([0xFF, 0xD8] + ChainBytes(segs) + (JpegHeader(width, height, components, next)[2..] + rest))
            == Ok(JpegInfo(width, height, components))
  {
    FrameHeaderInfo(width, height, components, next, rest);
    FrameAfterSegments(segs, JpegHeader(width, height, components, next)[2..] + rest);
  }

  /** The frame header written by `JpegHeader` reads back from its own start. */
  lemma FrameHeaderInfo(width: nat, height: nat, components: byte, next: byte, rest: seq<byte>)
    requires width < 0x10000 && height < 0x10000
    ensures var tail := JpegHeader(width, height, components, next)[2..] + rest;
      SofAt(tail, 0) && InfoAt(tail, 0) == JpegInfo(width, height, components)
  {
    var tail := JpegHeader(width, height, components, next)[2..] + rest;
    assert tail[5] == (height / 0x100) as byte && tail[6] == (height % 0x100) as byte;
    assert tail[7] == (width / 0x100) as byte && tail[8] == (width % 0x100) as byte;
  }

  /** A frame after some prefix is still a frame, and reads as it does on its own. */
  lemma InfoAfter(pre: seq<byte>, tail: seq<byte>)
    requires SofAt(tail, 0)
    ensures SofAt(pre + tail, |pre|) && InfoAt(pre + tail, |pre|) == InfoAt(tail, 0)
  {
    var data := pre + tail;
    var p := |pre|;
    assert data[p] == tail[0] && data[p + 1] == tail[1];
    assert data[p + 5] == tail[5] && data[p + 6] == tail[6];
    assert data[p + 7] == tail[7] && data[p + 8] == tail[8];
    assert data[p + 9] == tail[9];
  }

  /**
   * A non-frame segment whose length field is below 2 stops the reader, so
   * a frame after it is never found.
   */
  lemma BadLengthHidesFrame(marker: byte, length: byte, rest: seq<byte>)
    requires !IsSof(marker) && length < 2 && |rest| >= 7
    ensures GetJpegInfo([0xFF, 0xD8, 0xFF, marker, 0, length] + rest) == Err(ImageError("Could not parse JPEG info"))
  {
    var data := [0xFF, 0xD8, 0xFF, marker, 0, length] + rest;
    assert data[2] == 0xFF && data[3] == marker && data[4] == 0 && data[5] == length;
    SofScanBadLength(data, 2);
  }

  /** JPEG dimensions and components from the first frame segment after the SOI marker. */
  function GetJpegInfo(data: seq<byte>): (r: Result<JpegInfo, PdfError>)
    ensures r.Err? <==> SofScan(data, 2).None?
    ensures r.Err? ==> r.error == ImageError("Could not parse JPEG info")
    ensures r.Ok? ==> exists p | 2 <= p && SofAt(data, p) :: r.value == InfoAt(data, p)
  {
    match SofScan(data, 2)
    case None => Err(ImageError("Could not parse JPEG info"))
    case Some(p) => Ok(InfoAt(data, p))
  }

  /**
   * The smallest JPEG prefix the scan accepts: SOI, then a baseline frame
   * header with precision 8, the given height, width and component count,
   * then one more byte.
   */
  function JpegHeader(width: nat, height: nat, components: byte, next: byte): (bs: seq<byte>)
    requires width < 0x10000 && height < 0x10000
    ensures |bs| == 13
  {
    [0xFF, 0xD8, 0xFF, 0xC0, 0x00, 0x11, 0x08,
     (height / 0x100) as byte, (height % 0x100) as byte,
     (width / 0x100) as byte, (width % 0x100) as byte,
     components, next]
  }

  /** A frame header reads back as the dimensions and components written into it. */
  lemma JpegHeaderRoundTrip(width: nat, height: nat, components: byte, next: byte, rest: seq<byte>)
    requires width < 0x10000 && height < 0x10000
    ensures GetJpegInfo(JpegHeader(width, height, components, next) + rest) == Ok(JpegInfo(width, height, components))
    ensures GetDimensions(JpegHeader(width, height, components, next) + rest) == Ok(ImageDimensions(width, height))
  {
    var data := JpegHeader(width, height, components, next) + rest;
    assert SofAt(data, 2);
    assert Be16(data, 7) == height;
    assert Be16(data, 9) == width;
  }

  /** Dimensions by whichever parser the magic bytes select. */
  function GetDimensions(data: seq<byte>): (r: Result<ImageDimensions, PdfError>)
    ensures DetectFormat(data).Err? ==> r == Err(DetectFormat(data).error)
    ensures DetectFormat(data) == Ok(Png) ==> r == GetPngDimensions(data)
    ensures DetectFormat(data) == Ok(Jpeg) ==>
      r == (match GetJpegInfo(data)
            case Ok(info) => Ok(ImageDimensions(info.width, info.height))
            case Err(e) => Err(e))
  {
    match DetectFormat(data)
    case Err(e) => Err(e)
    case Ok(Jpeg) =>
      (match GetJpegInfo(data)
       case Ok(info) => Ok(ImageDimensions(info.width, info.height))
       case Err(e) => Err(e))
    case Ok(Png) => GetPngDimensions(data)
  }

  // ---------------------------------------------------------------------
  // XObject
  // ---------------------------------------------------------------------

  datatype ImageXObject = ImageXObject(
    width: nat, height: nat, colorSpace: string, bitsPerComponent: byte, filter: string, data: seq<byte>)

  /** A JPEG is embedded as is, with the DCT filter; one component means grey. */
  function FromJpeg(data: seq<byte>): (r: Result<ImageXObject, PdfError>)
    ensures r.Err? <==> GetJpegInfo(data).Err?
    ensures r.Ok? ==>
      var info := GetJpegInfo(data).value;
      && r.value.width == info.width && r.value.height == info.height
      && (r.value.colorSpace == "DeviceGray" <==> info.numComponents == 1)
      && (r.value.colorSpace == "DeviceGray" || r.value.colorSpace == "DeviceRGB")
      && r.value.bitsPerComponent == 8 && r.value.filter == "DCTDecode"
      && r.value.data == data
  {
    match GetJpegInfo(data)
    case Err(e) => Err(e)
    case Ok(info) =>
      var cs := if info.numComponents == 1 then "DeviceGray" else "DeviceRGB";
      Ok(ImageXObject(info.width, info.height, cs, 8, "DCTDecode", data))
  }

  /** The values a stream dictionary holds here. */
  datatype PdfObject = Name(name: string) | Integer(value: int)

  datatype Stream = Stream(dict: map<string, PdfObject>, content: seq<byte>)

  /** The XObject as an image stream: its dictionary and the data as content. */
  function ToPdfStream(x: ImageXObject): (s: Stream)
    ensures s.content == x.data
    ensures s.dict.Keys == {"Type", "Subtype", "Width", "Height", "ColorSpace", "BitsPerComponent", "Filter", "Length"}
  {
    Stream(map[
      "Type" := Name("XObject"),
      "Subtype" := Name("Image"),
      "Width" := Integer(x.width),
      "Height" := Integer(x.height),
      "ColorSpace" := Name(x.colorSpace),
      "BitsPerComponent" := Integer(x.bitsPerComponent as int),
      "Filter" := Name(x.filter),
      "Length" := Integer(|x.data|)], x.data)
  }

  /** Reads an image XObject back from a stream, checking every entry. */
  function FromPdfStream(s: Stream): (r: Option<ImageXObject>)
  {
    var d := s.dict;
    if && "Type" in d && d["Type"] == Name("XObject")
       && "Subtype" in d && d["Subtype"] == Name("Image")
       && "Width" in d && d["Width"].Integer? && d["Width"].value >= 0
       && "Height" in d && d["Height"].Integer? && d["Height"].value >= 0
       && "ColorSpace" in d && d["ColorSpace"].Name?
       && "BitsPerComponent" in d && d["BitsPerComponent"].Integer?
       && 0 <= d["BitsPerComponent"].value < 256
       && "Filter" in d && d["Filter"].Name?
       && "Length" in d && d["Length"] == Integer(|s.content|)
    then Some(ImageXObject(d["Width"].value, d["Height"].value, d["ColorSpace"].name,
                           d["BitsPerComponent"].value as byte, d["Filter"].name, s.content))
    else None
  }

  /** The stream carries every field of the XObject: reading it back gives the XObject. */
  lemma PdfStreamRoundTrip(x: ImageXObject)
    ensures FromPdfStream(ToPdfStream(x)) == Some(x)
  {
  }

  // ---------------------------------------------------------------------
  // Drawing
  // ---------------------------------------------------------------------

  /**
   * Save state, map the unit square to the `width` x `height` box at
   * (`x`, `y`), paint the named image, restore state. `num` stands for
   * Rust's `Display` of a float.
   */
  function GenerateImageOperators(name: string, x: real, y: real, width: real, height: real,
                                  num: real -> string): (ops: string)
    ensures |ops| >= 4 && ops[..2] == "q\n" && ops[|ops| - 2..] == "Q\n"
  {
    var ls := ImageOperatorLines(name, x, y, width, height, num);
    ImageOpsJoin(ls);
    Join(ls, "\n")
  }

  function ImageOperatorLines(name: string, x: real, y: real, width: real, height: real,
                              num: real -> string): (ls: seq<string>)
    ensures |ls| == 5 && ls[0] == "q" && ls[3] == "Q" && ls[4] == ""
  {
    ["q", num(width) + " 0 0 " + num(height) + " " + num(x) + " " + num(y) + " cm",
     "/" + name + " Do", "Q", ""]
  }

  lemma ImageOpsJoin(ls: seq<string>)
    requires |ls| == 5 && ls[0] == "q" && ls[3] == "Q" && ls[4] == ""
    ensures var s := Join(ls, "\n"); |s| >= 4 && s[..2] == "q\n" && s[|s| - 2..] == "Q\n"
  {
    var s := Join(ls, "\n");
    assert ls[3..][1..] == ls[4..] && ls[2..][1..] == ls[3..] && ls[1..][1..] == ls[2..];
    assert Join(ls[4..], "\n") == "";
    assert Join(ls[3..], "\n") == "Q\n";
    var tail := ls[1] + "\n" + (ls[2] + "\n" + "Q\n");
    assert Join(ls[1..], "\n") == tail;
    assert s == "q" + "\n" + tail;
  }

  /**
   * Read back line by line, the operators are exactly `q`, the `cm`
   * matrix [width 0 0 height x y], the `Do` of the named image and `Q`.
   */
  lemma ImageOperatorsLines(name: string, x: real, y: real, width: real, height: real, num: real -> string)
    requires '\n' !in name
    requires forall v: real :: '\n' !in num(v)
    ensures Split(GenerateImageOperators(name, x, y, width, height, num), '\n') ==
      ["q", num(width) + " 0 0 " + num(height) + " " + num(x) + " " + num(y) + " cm",
       "/" + name + " Do", "Q", ""]
  {
    var ls := ImageOperatorLines(name, x, y, width, height, num);
    assert '\n' !in num(width) && '\n' !in num(height) && '\n' !in num(x) && '\n' !in num(y);
    forall i | 0 <= i < |ls| ensures '\n' !in ls[i] {
    }
    SplitJoin(ls, '\n');
  }
}
