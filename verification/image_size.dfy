/**
 * `get_image_size`: sniffs a PNG, GIF or JPEG head and reads the pixel
 * dimensions straight out of the encoding.
 *
 * The stream is the whole byte sequence plus a position. Reads past the end
 * come back short, which the code turns into an exception; seeking past the
 * end is allowed and only makes the next read short.
 */
module ImageSize {
  import opened Wrappers
  import opened Bytes
  import Text

  datatype ImageType = Png | Gif | Jpeg
  {
    /** The type string the plugin puts into a `data:image/...` URI. */
    function Name(): string
    {
      match this
      case Png => "png"
      case Gif => "gif"
      case Jpeg => "jpeg"
    }
  }

  /** The `(width, height, type)` triple, with `None` where Python returns `None`. */
  datatype Measure = Measure(width: Option<int>, height: Option<int>, ttype: Option<ImageType>)

  /** `get_image_size` either returns a triple or lets `struct.error` escape on a short head. */
  datatype SizeOutcome = Returned(measure: Measure) | Raised

  /** The PNG file signature: 0x89 'P' 'N' 'G' CR LF 0x1A LF (section 5.2 of the PNG specification). */
  const PngSignature: seq<Byte> := [0x89, 0x50, 0x4E, 0x47, 0x0D, 0x0A, 0x1A, 0x0A]
  const Gif87a: seq<Byte> := [0x47, 0x49, 0x46, 0x38, 0x37, 0x61]
  const Gif89a: seq<Byte> := [0x47, 0x49, 0x46, 0x38, 0x39, 0x61]
  const Jfif: seq<Byte> := [0x4A, 0x46, 0x49, 0x46]
  const Exif: seq<Byte> := [0x45, 0x78, 0x69, 0x66]
  /** The value `get_image_size` compares bytes 4..8 of a PNG head against. */
  const PngCheck: int := 0x0D0A1A0A

  /** The answers of `imghdr.what` that matter here; every other answer is `Other`. */
  datatype Sniffed = SniffJpeg | SniffPng | SniffGif | SniffOther

  /**
   * `imghdr.what('', head)` restricted to jpeg, png and gif. The library tries
   * its tests in this order (jpeg first), so the first test that fires wins.
   */
  function Sniff(head: seq<Byte>): (r: Sniffed)
    ensures r == SniffJpeg <==> |head| >= 10 && (head[6..10] == Jfif || head[6..10] == Exif)
    ensures r == SniffPng ==> |head| >= 8 && head[..8] == PngSignature
    ensures r == SniffGif ==> |head| >= 6 && (head[..6] == Gif87a || head[..6] == Gif89a)
  {
    if |head| >= 10 && (head[6..10] == Jfif || head[6..10] == Exif) then SniffJpeg
    else if |head| >= 8 && head[..8] == PngSignature then SniffPng
    else if |head| >= 6 && (head[..6] == Gif87a || head[..6] == Gif89a) then SniffGif
    else SniffOther
  }

  /** Start-of-frame range the scan loop stops at: 0xC0..0xCF, which also takes DHT (0xC4) and DAC (0xCC). */
  predicate IsFrameMarker(m: Byte)
  {
    0xC0 <= m <= 0xCF
  }

  /**
   * The inner `while ord(byte) == 0xff` loop started at position `q`: the index
   * of the first byte that is not 0xFF, or `None` when the stream runs out first.
   */
  function SkipFill(data: seq<Byte>, q: nat): (r: Option<nat>)
    ensures r.Some? ==> q <= r.value < |data| && data[r.value] != 0xFF
    ensures r.Some? ==> forall k :: q <= k < r.value ==> data[k] == 0xFF
    ensures r.None? ==> forall k :: q <= k < |data| ==> data[k] == 0xFF
    decreases |data| - q
  {
    if q >= |data| then None
    else if data[q] == 0xFF then SkipFill(data, q + 1)
    else Some(q)
  }

  /** A marker byte found at index `at`, with the segment length stored right after it. */
  datatype MarkerRead = MarkerRead(at: nat, marker: Byte, length: int)
  {
    /** The stream position after the two length bytes. */
    function Next(): nat { at + 3 }
  }

  /** One pass of the scan loop body after its seek: read the marker and the 2-byte length. */
  function ReadMarker(data: seq<Byte>, q: nat): (r: Option<MarkerRead>)
    ensures r.Some? ==> q <= r.value.at && r.value.Next() <= |data|
    ensures r.Some? ==> r.value.marker == data[r.value.at] != 0xFF
    ensures r.Some? ==> r.value.length == U16BE(data[r.value.at + 1], data[r.value.at + 2])
    ensures r.None? <==> SkipFill(data, q).None? || SkipFill(data, q).value + 3 > |data|
  {
    match SkipFill(data, q)
    case None => None
    case Some(j) =>
      if j + 3 <= |data| then Some(MarkerRead(j, data[j], U16BE(data[j + 1], data[j + 2]))) else None
  }

  /**
   * The JPEG `while not 0xc0 <= ftype <= 0xcf` loop, entered with the stream at
   * `pos` and a pending relative seek of `skip` (the previous length minus 2).
   * Yields `(height, width)`, in the order the frame header stores them, or
   * `None` for any short read.
   */
  function JpegScan(data: seq<Byte>, pos: nat, skip: int): (r: Option<(int, int)>)
    requires pos <= |data| && skip >= -2 && pos + skip >= 0
    ensures r.Some? ==> exists j :: pos + skip <= j && FrameAt(data, j, r.value)
    decreases |data| - pos
  {
    match ReadMarker(data, pos + skip)
    case None => None
    case Some(m) =>
      if IsFrameMarker(m.marker) then
        var n := m.Next();
        if n + 5 <= |data| then
          var hw := (U16BE(data[n + 1], data[n + 2]), U16BE(data[n + 3], data[n + 4]));
          assert FrameAt(data, m.at, hw);
          Some(hw)
        else None
      else
        JpegScan(data, m.Next(), m.length - 2)
  }

  /**
   * At index `j` sits a frame marker whose header, after the length and the
   * precision byte, stores height `hw.0` and width `hw.1`.
   */
  ghost predicate FrameAt(data: seq<Byte>, j: int, hw: (int, int))
  {
    && 0 <= j && j + 8 <= |data|
    && IsFrameMarker(data[j])
    && hw == (U16BE(data[j + 4], data[j + 5]), U16BE(data[j + 6], data[j + 7]))
  }

  /** The at most 24 bytes `f.read(24)` returns. */
  function Head(data: seq<Byte>): (head: seq<Byte>)
    ensures |head| <= 24 && head <= data
    ensures |head| == 24 || head == data
  {
    if |data| <= 24 then data else data[..24]
  }

  /** The JPEG result: the frame's width and height, swapped into that order, or no size when the scan fell short. */
  function JpegMeasure(scan: Option<(int, int)>): (m: Measure)
    ensures m.ttype == Some(Jpeg) && (m.width.None? <==> scan.None?) && (m.height.None? <==> scan.None?)
    ensures scan.Some? ==> m.width == Some(scan.value.1) && m.height == Some(scan.value.0)
  {
    match scan
    case None => Measure(None, None, Some(Jpeg))
    case Some(hw) => Measure(Some(hw.1), Some(hw.0), Some(Jpeg))
  }

  /** `get_image_size(f)` for a stream holding `data`, read from position 0. */
  function GetImageSize(data: seq<Byte>): (r: SizeOutcome)
    ensures r.Raised? ==> |data| < 24
    ensures r.Returned? && r.measure.ttype.None? ==> r.measure.width.None? && r.measure.height.None?
    ensures r.Returned? && r.measure.ttype == Some(Png) ==> r.measure.width.Some? && r.measure.height.Some?
    ensures r.Returned? && r.measure.ttype == Some(Gif) ==> r.measure.width.Some? && r.measure.height.Some? && 0 <= r.measure.width.value < 0x1_0000 && 0 <= r.measure.height.value < 0x1_0000
    ensures r.Returned? && r.measure.ttype == Some(Jpeg) ==> (r.measure.width.None? <==> r.measure.height.None?)
  {
    var head := Head(data);
    match Sniff(head)
    case SniffPng =>
      var check := I32BE(head[4..8]);
      if check != PngCheck then Returned(Measure(None, None, Some(Png)))
      else if |head| < 24 then Raised
      else Returned(Measure(Some(I32BE(head[16..20])), Some(I32BE(head[20..24])), Some(Png)))
    case SniffGif =>
      if |head| < 10 then Raised
      else Returned(Measure(Some(U16LE(head[6], head[7])), Some(U16LE(head[8], head[9])), Some(Gif)))
    case SniffJpeg => Returned(JpegMeasure(JpegScan(data, 0, 2)))
    case SniffOther =>
      // The `<svg` test returns the same triple as an unrecognised head.
      Returned(Measure(None, None, None))
  }

  /** A JPEG marker segment other than a frame header: 0xFF, marker, 2-byte length, payload. */
  datatype Segment = Segment(marker: Byte, payload: seq<Byte>)
  {
    predicate Valid()
    {
      marker != 0xFF && !IsFrameMarker(marker) && |payload| + 2 < 0x1_0000
    }

    function Encode(): (r: seq<Byte>)
      requires Valid()
      ensures |r| == 4 + |payload|
    {
      [0xFF, marker] + EncodeU16BE(|payload| + 2) + payload
    }
  }

  predicate AllValid(segs: seq<Segment>)
  {
    forall i :: 0 <= i < |segs| ==> segs[i].Valid()
  }

  function EncodeSegments(segs: seq<Segment>): seq<Byte>
    requires AllValid(segs)
  {
    if segs == [] then [] else segs[0].Encode() + EncodeSegments(segs[1..])
  }

  /** A frame header with marker `sof`, 8-bit precision, height `h` and width `w`. */
  function FrameBytes(sof: Byte, h: int, w: int): (r: seq<Byte>)
    requires IsFrameMarker(sof) && 0 <= h < 0x1_0000 && 0 <= w < 0x1_0000
    ensures |r| == 9
  {
    [0xFF, sof] + EncodeU16BE(11) + [8] + EncodeU16BE(h) + EncodeU16BE(w)
  }

  /** A well-formed segment at index `q` is read as its own marker and length, and the bytes after it follow. */
  lemma SegmentRead(data: seq<Byte>, q: nat, seg: Segment, rest: seq<Byte>)
    requires seg.Valid() && Text.OccursAt(data, seg.Encode() + rest, q)
    ensures ReadMarker(data, q) == Some(MarkerRead(q + 1, seg.marker, |seg.payload| + 2))
    ensures Text.OccursAt(data, rest, q + 4 + |seg.payload|)
  {
    var x := seg.Encode() + rest;
    var e := EncodeU16BE(|seg.payload| + 2);
    assert x == [0xFF, seg.marker] + e + (seg.payload + rest);
    Text.OccursAtIndex(data, x, q, 0);
    Text.OccursAtIndex(data, x, q, 1);
    Text.OccursAtIndex(data, x, q, 2);
    Text.OccursAtIndex(data, x, q, 3);
    assert data[q + 2] == e[0] && data[q + 3] == e[1];
    assert SkipFill(data, q + 1) == Some(q + 1);
    assert data[q + 4 + |seg.payload|..q + 4 + |seg.payload| + |rest|] == x[4 + |seg.payload|..];
  }

  /** A frame header at index `q` ends the scan with its height and width. */
  lemma FrameRead(data: seq<Byte>, pos: nat, skip: int, sof: Byte, h: int, w: int)
    requires pos <= |data| && skip >= -2 && pos + skip >= 0
    requires IsFrameMarker(sof) && 0 <= h < 0x1_0000 && 0 <= w < 0x1_0000
    requires Text.OccursAt(data, FrameBytes(sof, h, w), pos + skip)
    ensures JpegScan(data, pos, skip) == Some((h, w))
  {
    var q := pos + skip;
    var x := FrameBytes(sof, h, w);
    var eh := EncodeU16BE(h);
    var ew := EncodeU16BE(w);
    assert x == [0xFF, sof] + EncodeU16BE(11) + [8] + eh + ew;
    assert x[5] == eh[0] && x[6] == eh[1] && x[7] == ew[0] && x[8] == ew[1];
    Text.OccursAtIndex(data, x, q, 0);
    Text.OccursAtIndex(data, x, q, 1);
    Text.OccursAtIndex(data, x, q, 5);
    Text.OccursAtIndex(data, x, q, 6);
    Text.OccursAtIndex(data, x, q, 7);
    Text.OccursAtIndex(data, x, q, 8);
    assert SkipFill(data, q + 1) == Some(q + 1);
    assert ReadMarker(data, q).value.at == q + 1;
  }

  /** The scan steps over any run of well-formed segments and reads the frame header after them. */
  lemma {:induction false} ScanSkipsSegments(data: seq<Byte>, pos: nat, skip: int, segs: seq<Segment>, sof: Byte, h: int, w: int)
    requires pos <= |data| && skip >= -2 && pos + skip >= 0
    requires AllValid(segs) && IsFrameMarker(sof) && 0 <= h < 0x1_0000 && 0 <= w < 0x1_0000
    requires Text.OccursAt(data, EncodeSegments(segs) + FrameBytes(sof, h, w), pos + skip)
    ensures JpegScan(data, pos, skip) == Some((h, w))
    decreases |segs|
  {
    if segs == [] {
      assert EncodeSegments(segs) + FrameBytes(sof, h, w) == FrameBytes(sof, h, w);
      FrameRead(data, pos, skip, sof, h, w);
    } else {
      var q := pos + skip;
      var seg := segs[0];
      var rest := EncodeSegments(segs[1..]) + FrameBytes(sof, h, w);
      assert EncodeSegments(segs) + FrameBytes(sof, h, w) == seg.Encode() + rest;
      SegmentRead(data, q, seg, rest);
      assert !IsFrameMarker(seg.marker);
      ScanSkipsSegments(data, q + 4, |seg.payload|, segs[1..], sof, h, w);
      assert JpegScan(data, pos, skip) == JpegScan(data, q + 4, |seg.payload|);
    }
  }

  /** Bytes 4..8 of any PNG head are fixed by the signature, so the `None`-size branch cannot be taken. */
  lemma PngCheckAlwaysHolds(data: seq<Byte>)
    requires Sniff(Head(data)) == SniffPng
    ensures I32BE(Head(data)[4..8]) == PngCheck
    ensures GetImageSize(data) != Returned(Measure(None, None, Some(Png)))
  {
    assert Head(data)[4..8] == PngSignature[4..8];
  }

  /** A PNG head of 24 bytes or more yields the signed IHDR width and height. */
  lemma PngRoundTrip(mid: seq<Byte>, w: int, h: int, tail: seq<Byte>)
    requires |mid| == 8
    requires -TwoTo31 <= w < TwoTo31 && -TwoTo31 <= h < TwoTo31
    ensures GetImageSize(PngSignature + mid + EncodeI32BE(w) + EncodeI32BE(h) + tail)
            == Returned(Measure(Some(w), Some(h), Some(Png)))
  {
    var data := PngSignature + mid + EncodeI32BE(w) + EncodeI32BE(h) + tail;
    var head := Head(data);
    assert head[6] == 0x1A;
    assert head[..8] == PngSignature;
    assert head[4..8] == PngSignature[4..8];
    assert head[16..20] == EncodeI32BE(w);
    assert head[20..24] == EncodeI32BE(h);
  }

  /** A PNG head shorter than 24 bytes makes `struct.unpack` raise. */
  lemma PngShortHeadRaises(data: seq<Byte>)
    requires PngSignature <= data && |data| < 24
    ensures GetImageSize(data) == Raised
  {
    assert Head(data)[6] == 0x1A;
    assert Head(data)[..8] == PngSignature;
    assert Head(data)[4..8] == PngSignature[4..8];
  }

  /** A GIF head yields the little-endian logical screen width and height at bytes 6..10. */
  lemma GifRoundTrip(signature: seq<Byte>, w: int, h: int, tail: seq<Byte>)
    requires signature == Gif87a || signature == Gif89a
    requires 0 <= w < 0x1_0000 && 0 <= h < 0x1_0000
    requires EncodeU16LE(w) + EncodeU16LE(h) != Jfif && EncodeU16LE(w) + EncodeU16LE(h) != Exif
    ensures GetImageSize(signature + EncodeU16LE(w) + EncodeU16LE(h) + tail)
            == Returned(Measure(Some(w), Some(h), Some(Gif)))
  {
    var data := signature + EncodeU16LE(w) + EncodeU16LE(h) + tail;
    var head := Head(data);
    assert head[..6] == signature;
    assert head[6..10] == EncodeU16LE(w) + EncodeU16LE(h);
    assert head[..8] != PngSignature by { assert head[0] != PngSignature[0]; }
  }

  /**
   * imghdr tests for jpeg before gif: a GIF whose width and height bytes spell
   * `JFIF` (width 17994, height 17993) is taken for a JPEG.
   */
  lemma GifSpellingJfifIsSniffedAsJpeg(tail: seq<Byte>)
    ensures Sniff(Head(Gif89a + EncodeU16LE(17994) + EncodeU16LE(17993) + tail)) == SniffJpeg
  {
    var data := Gif89a + EncodeU16LE(17994) + EncodeU16LE(17993) + tail;
    assert Head(data)[6..10] == Jfif;
  }

  /** A JPEG head whose scan reaches a frame header yields that frame's size. */
  lemma JpegMeasured(data: seq<Byte>, h: int, w: int)
    requires Sniff(Head(data)) == SniffJpeg
    requires |data| >= 2 && JpegScan(data, 0, 2) == Some((h, w))
    ensures GetImageSize(data) == Returned(Measure(Some(w), Some(h), Some(Jpeg)))
  {
  }

  lemma JfifSegmentSniffed(data: seq<Byte>, segs: seq<Segment>)
    requires AllValid(segs) && |segs| > 0
    requires |segs[0].payload| >= 4 && (segs[0].payload[..4] == Jfif || segs[0].payload[..4] == Exif)
    requires Text.OccursAt(data, EncodeSegments(segs), 2)
    ensures Sniff(Head(data)) == SniffJpeg
  {
    var p := segs[0].payload;
    var first := segs[0].Encode();
    var x := EncodeSegments(segs);
    assert x == first + EncodeSegments(segs[1..]);
    assert first == [0xFF, segs[0].marker] + EncodeU16BE(|p| + 2) + p;
    forall k | 0 <= k < 4 ensures data[6 + k] == p[k] {
      Text.OccursAtIndex(data, x, 2, 4 + k);
      assert x[4 + k] == first[4 + k] == p[k];
    }
    assert data[6..10] == p[..4];
    assert Head(data)[6..10] == data[6..10];
  }

  /**
   * A JPEG with a JFIF or Exif first segment, any run of other segments and then
   * a frame header yields the frame's width and height, read height first.
   */
  lemma JpegRoundTrip(segs: seq<Segment>, sof: Byte, h: int, w: int, tail: seq<Byte>)
    requires AllValid(segs) && |segs| > 0
    requires |segs[0].payload| >= 4 && (segs[0].payload[..4] == Jfif || segs[0].payload[..4] == Exif)
    requires IsFrameMarker(sof) && 0 <= h < 0x1_0000 && 0 <= w < 0x1_0000
    ensures GetImageSize([0xFF, 0xD8] + EncodeSegments(segs) + FrameBytes(sof, h, w) + tail)
            == Returned(Measure(Some(w), Some(h), Some(Jpeg)))
  {
    var x := EncodeSegments(segs);
    var body := x + FrameBytes(sof, h, w);
    var data := [0xFF, 0xD8] + x + FrameBytes(sof, h, w) + tail;
    assert data[2..2 + |x|] == x;
    JfifSegmentSniffed(data, segs);
    assert data[2..2 + |body|] == body;
    assert Text.OccursAt(data, body, 2);
    ScanSkipsSegments(data, 0, 2, segs, sof, h, w);
    JpegMeasured(data, h, w);
  }

  /** An `<svg` head, like any head none of the three tests recognise, yields no type and no size. */
  lemma UnrecognisedHasNoType(data: seq<Byte>)
    requires Sniff(Head(data)) == SniffOther
    ensures GetImageSize(data) == Returned(Measure(None, None, None))
  {
  }

  /** A JPEG cut off before any frame header yields the type but no size. */
  lemma TruncatedJpegHasNoSize()
    ensures GetImageSize([0xFF, 0xD8, 0xFF, 0xE0, 0x00, 0x10] + Jfif) == Returned(Measure(None, None, Some(Jpeg)))
  {
    var data: seq<Byte> := [0xFF, 0xD8, 0xFF, 0xE0, 0x00, 0x10] + Jfif;
    assert Head(data)[6..10] == Jfif;
    assert SkipFill(data, 3) == Some(3);
    assert SkipFill(data, 2) == Some(3);
    assert ReadMarker(data, 2) == Some(MarkerRead(3, 0xE0, 16));
    assert SkipFill(data, 20) == None;
  }

  /** The frame range also takes a DHT segment (0xC4): its bytes are read as if they held the size. */
  lemma DhtTakenAsFrame()
    ensures JpegScan([0xFF, 0xD8, 0xFF, 0xC4, 0x00, 0x1F, 0x00, 0x00, 0x01, 0x00, 0x05], 0, 2) == Some((1, 5))
  {
    var data: seq<Byte> := [0xFF, 0xD8, 0xFF, 0xC4, 0x00, 0x1F, 0x00, 0x00, 0x01, 0x00, 0x05];
    assert SkipFill(data, 3) == Some(3);
    assert SkipFill(data, 2) == Some(3);
    assert ReadMarker(data, 2) == Some(MarkerRead(3, 0xC4, 31));
  }

}
