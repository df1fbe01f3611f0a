/** src/bin/parse.rs: the per-frame pipeline of `main`. Packets of the
    selected video stream go to the decoder; every frame it gives back is
    scaled to RGB, reduced to luma, copied into an image, handed to the
    marker detector, and recorded with its index, its timestamp tick and
    the markers whose pose could be resolved. */
module Parse {
  import opened Wrappers
  import opened AprilTag
  import opened Pose

  /** A demuxed packet and the index of the stream it belongs to. */
  datatype Packet = Packet(stream: nat, payload: seq<byte>)

  /** A decoded frame: its presentation timestamp in stream ticks, if the
      container gave one, and its picture in the codec's own pixel format. */
  datatype DecodedFrame = DecodedFrame(pts: Option<int>, picture: seq<byte>)

  /** The foreign code the loop calls.
      - `send`: `decoder.send_packet` followed by `receive_frame` until it
        stops succeeding. The decoder's state is the history of the video
        packets it was sent before. `None` is an error from `send_packet`.
      - `scale`: `scaler.run` to RGB24, giving the bytes of plane 0, or `None`
        on error.
      - `luma`: the `f32` weighting `0.299 r + 0.587 g + 0.114 b` cast to `u8`.
      - `detect`: `detector.detect` on the image, given as its rows.
      - `estimate`: `estimate_tag_pose`. */
  datatype Collaborators = Collaborators(
    send: (seq<Packet>, Packet) -> Option<seq<DecodedFrame>>,
    scale: DecodedFrame -> Option<seq<byte>>,
    luma: (byte, byte, byte) -> byte,
    detect: seq<seq<byte>> -> seq<Detection>,
    estimate: PoseEstimator)

  /** What `main` fixes before the loop: the selected video stream, the
      decoder's frame size and the tag parameters from the calibration. */
  datatype Config = Config(videoStream: nat, width: nat, height: nat, params: TagParams)

  /** Ways the loop ends `main` before the JSON is written: the two `?`
      returns and the panic of an out-of-range `luma_data[idx]`. */
  datatype ParseError = SendPacketFailed | ScalerFailed | LumaIndexOutOfBounds

  /** `PosesInFrame`; `tick` is the timestamp before its conversion to seconds. */
  datatype PosesInFrame = PosesInFrame(frameIdx: nat, tick: int, poses: seq<MarkerPose>)

  // ---------------------------------------------------------------------
  // RGB to luma

  /** The luma of each complete RGB triple, in order (`chunks_exact(3)`). */
  function LumaOf(data: seq<byte>, luma: (byte, byte, byte) -> byte): seq<byte>
    decreases |data|
  {
    if |data| < 3 then [] else [luma(data[0], data[1], data[2])] + LumaOf(data[3..], luma)
  }

  /** The luma buffer has one entry per complete triple, so trailing bytes
      are ignored, and entry `i` is the luma of bytes `3i`, `3i+1`, `3i+2`. */
  lemma {:induction false} LumaOfAt(data: seq<byte>, luma: (byte, byte, byte) -> byte)
    ensures |LumaOf(data, luma)| == |data| / 3
    ensures forall i :: 0 <= i < |data| / 3 ==>
      LumaOf(data, luma)[i] == luma(data[3 * i], data[3 * i + 1], data[3 * i + 2])
  {
    if |data| >= 3 {
      var rest := data[3..];
      LumaOfAt(rest, luma);
      forall i | 1 <= i < |data| / 3
        ensures LumaOf(data, luma)[i] == luma(data[3 * i], data[3 * i + 1], data[3 * i + 2])
      {
        assert LumaOf(data, luma)[i] == LumaOf(rest, luma)[i - 1];
        assert rest[3 * (i - 1)] == data[3 * i];
      }
    }
  }

  /** The chunk loop that fills `luma_data`. */
  method ToLuma(data: seq<byte>, luma: (byte, byte, byte) -> byte) returns (lumaData: seq<byte>)
    ensures |lumaData| == |data| / 3
    ensures forall i :: 0 <= i < |lumaData| ==>
      lumaData[i] == luma(data[3 * i], data[3 * i + 1], data[3 * i + 2])
    ensures lumaData == LumaOf(data, luma)
  {
    lumaData := [];
    var offset := 0;
    while offset + 3 <= |data|
      invariant offset == 3 * |lumaData| && offset <= |data|
      invariant forall i :: 0 <= i < |lumaData| ==>
        lumaData[i] == luma(data[3 * i], data[3 * i + 1], data[3 * i + 2])
      decreases |data| - offset
    {
      var chunk := data[offset..offset + 3];
      lumaData := lumaData + [luma(chunk[0], chunk[1], chunk[2])];
      offset := offset + 3;
    }
    LumaOfAt(data, luma);
  }

  // ---------------------------------------------------------------------
  // Row-major layout

  /** Multiplying by a natural number keeps order. */
  lemma {:induction false} MulMonotone(a: nat, b: nat, w: nat)
    requires a <= b
    ensures a * w <= b * w
    decreases b - a
  {
    if a < b {
      MulMonotone(a, b - 1, w);
      assert b * w == (b - 1) * w + w;
    }
  }

  /** The offset of pixel `(x, y)` in a row-major buffer of rows `width`
      long, counted row by row (PixelIndexIs gives the closed form). */
  function PixelIndex(x: nat, y: nat, width: nat): nat
  {
    if y == 0 then x else PixelIndex(x, y - 1, width) + width
  }

  /** The offset is the source's `y * width + x`. */
  lemma {:induction false} PixelIndexIs(x: nat, y: nat, width: nat)
    ensures PixelIndex(x, y, width) == y * width + x
  {
    if y > 0 {
      PixelIndexIs(x, y - 1, width);
    }
  }

  /** Every pixel of a `width`×`height` image lies below `width*height`. */
  lemma PixelIndexBound(x: nat, y: nat, width: nat, height: nat)
    requires x < width && y < height
    ensures PixelIndex(x, y, width) < width * height
  {
    PixelIndexIs(x, y, width);
    MulMonotone(y + 1, height, width);
    assert (y + 1) * width == y * width + width;
  }

  /** No two pixels share an offset, so each cell of the image is written
      from its own entry, once. */
  lemma PixelIndexInjective(x1: nat, y1: nat, x2: nat, y2: nat, width: nat)
    requires x1 < width && x2 < width
    requires PixelIndex(x1, y1, width) == PixelIndex(x2, y2, width)
    ensures x1 == x2 && y1 == y2
  {
    PixelIndexIs(x1, y1, width);
    PixelIndexIs(x2, y2, width);
  }

  /** Every offset below `width*height` is the offset of some pixel, so the
      x-outer, y-inner loops reach every entry the image needs. */
  lemma PixelIndexOnto(k: nat, width: nat, height: nat)
    requires k < width * height
    ensures width > 0 && k % width < width && k / width < height
    ensures PixelIndex(k % width, k / width, width) == k
  {
    if k / width >= height {
      MulMonotone(height, k / width, width);
    }
    PixelIndexIs(k % width, k / width, width);
  }

  /** Every pixel's offset is inside `buffer`: no `luma_data[idx]` of the
      copy loops goes past the end. */
  predicate CoversImage(buffer: seq<byte>, width: nat, height: nat)
  {
    forall x: nat, y: nat :: x < width && y < height ==> PixelIndex(x, y, width) < |buffer|
  }

  /** The copy loops stay in bounds exactly when the buffer holds at least
      `width*height` entries. */
  lemma CoversImageIff(buffer: seq<byte>, width: nat, height: nat)
    ensures CoversImage(buffer, width, height) <==> |buffer| >= width * height
  {
    if width > 0 && height > 0 {
      PixelIndexIs(width - 1, height - 1, width);
      assert (height - 1) * width + width == height * width;
    }
    if |buffer| >= width * height {
      forall x: nat, y: nat | x < width && y < height
        ensures PixelIndex(x, y, width) < |buffer|
      {
        PixelIndexBound(x, y, width, height);
      }
    }
  }

  /** One pixel whose offset is past the end is enough to break the copy. */
  lemma MissingPixel(buffer: seq<byte>, width: nat, height: nat, x: nat, y: nat)
    requires x < width && y < height && PixelIndex(x, y, width) >= |buffer|
    ensures !CoversImage(buffer, width, height)
  {
  }

  /** The image as rows (row `y` holds cells `(0, y)` .. `(width-1, y)`). */
  function Rows(image: array2<byte>): (r: seq<seq<byte>>)
    reads image
    ensures |r| == image.Length1
    ensures forall y :: 0 <= y < |r| ==> |r[y]| == image.Length0
    ensures forall y, x :: 0 <= y < |r| && 0 <= x < image.Length0 ==> r[y][x] == image[x, y]
  {
    seq(image.Length1, y requires 0 <= y < image.Length1 reads image =>
      seq(image.Length0, x requires 0 <= x < image.Length0 reads image => image[x, y]))
  }

  /** The rows a row-major buffer describes (RowsOfAt states each cell). */
  function RowsOf(buffer: seq<byte>, width: nat, height: nat): seq<seq<byte>>
    requires CoversImage(buffer, width, height)
  {
    seq(height, y requires 0 <= y < height =>
      seq(width, x requires 0 <= x < width => buffer[PixelIndex(x, y, width)]))
  }

  /** Cell `(x, y)` of the described image is `buffer[y*width + x]`. */
  lemma RowsOfAt(buffer: seq<byte>, width: nat, height: nat, x: nat, y: nat)
    requires CoversImage(buffer, width, height)
    requires x < width && y < height
    ensures |RowsOf(buffer, width, height)| == height
    ensures |RowsOf(buffer, width, height)[y]| == width
    ensures y * width + x < |buffer|
    ensures RowsOf(buffer, width, height)[y][x] == buffer[y * width + x]
  {
    PixelIndexIs(x, y, width);
  }

  /** Column `x` of `image` holds the buffer entries of its pixels. */
  predicate ColumnCopied(image: array2<byte>, buffer: seq<byte>, x: nat)
    reads image
    requires x < image.Length0
  {
    forall y :: 0 <= y < image.Length1 ==>
      PixelIndex(x, y, image.Length0) < |buffer|
      && image[x, y] == buffer[PixelIndex(x, y, image.Length0)]
  }

  /** The inner `for y in 0..height` loop for one column `x`. `ok` is false
      where the source panics on an index past the end of `luma_data`;
      the other columns are left alone. */
  method CopyColumn(image: array2<byte>, lumaData: seq<byte>, x: nat) returns (ok: bool)
    requires x < image.Length0
    modifies image
    ensures ok ==> ColumnCopied(image, lumaData, x)
    ensures !ok ==> !CoversImage(lumaData, image.Length0, image.Length1)
    ensures forall x', y' :: 0 <= x' < image.Length0 && x' != x && 0 <= y' < image.Length1 ==>
      image[x', y'] == old(image[x', y'])
    ensures forall x' :: 0 <= x' < image.Length0 && x' != x ==>
      (old(ColumnCopied(image, lumaData, x')) ==> ColumnCopied(image, lumaData, x'))
  {
    for y := 0 to image.Length1
      invariant forall y' :: 0 <= y' < y ==>
        PixelIndex(x, y', image.Length0) < |lumaData|
        && image[x, y'] == lumaData[PixelIndex(x, y', image.Length0)]
      invariant forall x', y' :: 0 <= x' < image.Length0 && x' != x && 0 <= y' < image.Length1 ==>
        image[x', y'] == old(image[x', y'])
    {
      var idx := PixelIndex(x, y, image.Length0);
      if idx >= |lumaData| {
        MissingPixel(lumaData, image.Length0, image.Length1, x, y);
        return false;
      }
      image[x, y] := lumaData[idx];
    }
    ok := true;
  }

  /** Once every column is copied, the image is the one the buffer describes. */
  lemma CopiedImage(image: array2<byte>, buffer: seq<byte>)
    requires forall x :: 0 <= x < image.Length0 ==> ColumnCopied(image, buffer, x)
    ensures CoversImage(buffer, image.Length0, image.Length1)
    ensures Rows(image) == RowsOf(buffer, image.Length0, image.Length1)
  {
    forall x: nat, y: nat | x < image.Length0 && y < image.Length1
      ensures PixelIndex(x, y, image.Length0) < |buffer|
      ensures image[x, y] == buffer[PixelIndex(x, y, image.Length0)]
    {
      assert ColumnCopied(image, buffer, x);
    }
    var rows, described := Rows(image), RowsOf(buffer, image.Length0, image.Length1);
    forall y | 0 <= y < image.Length1
      ensures rows[y] == described[y]
    {
      assert |rows[y]| == |described[y]|;
    }
  }

  /** The nested copy loops: `x` outer, `y` inner, `image[(x, y)] =
      luma_data[y*width + x]`. `ok` is false where the source panics, which
      happens exactly when some pixel's offset is past the end of
      `luma_data` (by CoversImageIff: when it is shorter than
      `width*height`). */
  method CopyToImage(lumaData: seq<byte>, width: nat, height: nat)
    returns (ok: bool, image: array2<byte>)
    ensures image.Length0 == width && image.Length1 == height
    ensures ok <==> CoversImage(lumaData, width, height)
    ensures ok ==>
      CoversImage(lumaData, width, height) && Rows(image) == RowsOf(lumaData, width, height)
  {
    image := new byte[width, height]((_, _) => 0);
    for x := 0 to width
      invariant forall x' :: 0 <= x' < x ==> ColumnCopied(image, lumaData, x')
    {
      var columnOk := CopyColumn(image, lumaData, x);
      if !columnOk {
        return false, image;
      }
    }
    CopiedImage(image, lumaData);
    ok := true;
  }

  /** When the scaled buffer is tightly packed (three bytes per pixel, no
      row padding), cell `(x, y)` of the detector's image is the luma of
      the RGB triple at offset `3*(y*width + x)`. */
  lemma PackedPixel(rgb: seq<byte>, luma: (byte, byte, byte) -> byte,
                    width: nat, height: nat, x: nat, y: nat)
    requires |rgb| == 3 * (width * height)
    requires x < width && y < height
    ensures CoversImage(LumaOf(rgb, luma), width, height)
    ensures var k := y * width + x;
      && 3 * k + 2 < |rgb|
      && RowsOf(LumaOf(rgb, luma), width, height)[y][x]
           == luma(rgb[3 * k], rgb[3 * k + 1], rgb[3 * k + 2])
  {
    var n := width * height;
    LumaOfAt(rgb, luma);
    assert |rgb| / 3 == n;
    CoversImageIff(LumaOf(rgb, luma), width, height);
    RowsOfAt(LumaOf(rgb, luma), width, height, x, y);
  }

  /** When the plane's rows are padded (a line size greater than
      `3*width`), the chunks run across the padding: with one pixel per row,
      two rows and a line size of 4, the second cell is the luma of the
      first row's padding byte and the second row's red and green bytes,
      and the copy does not panic. */
  lemma PaddedRowShifts(rgb: seq<byte>, luma: (byte, byte, byte) -> byte)
    requires |rgb| == 8
    ensures CoversImage(LumaOf(rgb, luma), 1, 2)
    ensures RowsOf(LumaOf(rgb, luma), 1, 2)[1][0] == luma(rgb[3], rgb[4], rgb[5])
  {
    LumaOfAt(rgb, luma);
    CoversImageIff(LumaOf(rgb, luma), 1, 2);
    RowsOfAt(LumaOf(rgb, luma), 1, 2, 0, 1);
  }

  // ---------------------------------------------------------------------
  // Poses of one frame

  /** `detections.iter().filter_map(from_detection)`: the resolvable
      detections' poses, in detector order. */
  function FilterPoses(ds: seq<Detection>, params: TagParams, estimate: PoseEstimator)
    : (r: seq<MarkerPose>)
    ensures |r| <= |ds|
  {
    if ds == [] then []
    else
      (match FromDetection(ds[0], params, estimate)
       case None => []
       case Some(m) => [m]) + FilterPoses(ds[1..], params, estimate)
  }

  /** The filter keeps detector order: it distributes over concatenation. */
  lemma {:induction false} FilterPosesAppend(a: seq<Detection>, b: seq<Detection>,
                                            params: TagParams, estimate: PoseEstimator)
    ensures FilterPoses(a + b, params, estimate)
         == FilterPoses(a, params, estimate) + FilterPoses(b, params, estimate)
  {
    if a == [] {
      assert a + b == b;
    } else {
      assert (a + b)[0] == a[0];
      assert (a + b)[1..] == a[1..] + b;
      FilterPosesAppend(a[1..], b, params, estimate);
    }
  }

  /** A pose is emitted exactly when some detection resolves to it: no
      detection without a pose contributes anything. */
  lemma {:induction false} FilterPosesMembers(ds: seq<Detection>, params: TagParams,
                                             estimate: PoseEstimator, m: MarkerPose)
    ensures m in FilterPoses(ds, params, estimate) <==>
      exists i :: 0 <= i < |ds| && FromDetection(ds[i], params, estimate) == Some(m)
  {
    if ds != [] {
      var rest := ds[1..];
      FilterPosesMembers(rest, params, estimate, m);
      if exists i :: 0 <= i < |rest| && FromDetection(rest[i], params, estimate) == Some(m) {
        var i :| 0 <= i < |rest| && FromDetection(rest[i], params, estimate) == Some(m);
        assert ds[i + 1] == rest[i];
      }
      if exists i :: 0 <= i < |ds| && FromDetection(ds[i], params, estimate) == Some(m) {
        var i :| 0 <= i < |ds| && FromDetection(ds[i], params, estimate) == Some(m);
        if i > 0 {
          assert rest[i - 1] == ds[i];
        }
      }
    }
  }

  /** The timestamp tick of a frame: `pts().unwrap_or_default()`. */
  function Tick(f: DecodedFrame): (t: int)
    ensures f.pts.Some? ==> t == f.pts.value
    ensures f.pts.None? ==> t == 0
  {
    match f.pts
    case Some(p) => p
    case None => 0
  }

  /** The body of the `receive_frame` loop up to the record: scale, luma,
      copy into the image, detect and resolve poses. */
  function FramePoses(f: DecodedFrame, cfg: Config, c: Collaborators)
    : Result<seq<MarkerPose>, ParseError>
  {
    match c.scale(f)
    case None => Failure(ScalerFailed)
    case Some(rgb) =>
      var lumaData := LumaOf(rgb, c.luma);
      if !CoversImage(lumaData, cfg.width, cfg.height) then Failure(LumaIndexOutOfBounds)
      else Success(FilterPoses(c.detect(RowsOf(lumaData, cfg.width, cfg.height)),
                               cfg.params, c.estimate))
  }

  /** A frame hits the out-of-range panic exactly when the scaler succeeds
      but gives fewer than `width*height` complete RGB triples; a frame the
      scaler rejects fails with the scaler's error instead. */
  lemma FramePosesFailures(f: DecodedFrame, cfg: Config, c: Collaborators)
    ensures FramePoses(f, cfg, c) == Failure(ScalerFailed) <==> c.scale(f).None?
    ensures FramePoses(f, cfg, c) == Failure(LumaIndexOutOfBounds) <==>
      c.scale(f).Some? && |c.scale(f).value| / 3 < cfg.width * cfg.height
  {
    if c.scale(f).Some? {
      var lumaData := LumaOf(c.scale(f).value, c.luma);
      LumaOfAt(c.scale(f).value, c.luma);
      CoversImageIff(lumaData, cfg.width, cfg.height);
    }
  }

  /** One frame, step by step as the source runs it. */
  method ProcessFrame(f: DecodedFrame, cfg: Config, c: Collaborators)
    returns (r: Result<seq<MarkerPose>, ParseError>)
    ensures r == FramePoses(f, cfg, c)
  {
    var scaled := c.scale(f);
    if scaled.None? {
      return Failure(ScalerFailed);
    }
    var lumaData := ToLuma(scaled.value, c.luma);
    var ok, image := CopyToImage(lumaData, cfg.width, cfg.height);
    if !ok {
      return Failure(LumaIndexOutOfBounds);
    }
    var rows := Rows(image);
    var detections := c.detect(rows);
    r := Success(FilterPoses(detections, cfg.params, c.estimate));
  }

  // ---------------------------------------------------------------------
  // The packet and frame loops

  /** The packets of stream `s`, in order. */
  function VideoPackets(ps: seq<Packet>, s: nat): (r: seq<Packet>)
    ensures |r| <= |ps|
    ensures forall i :: 0 <= i < |r| ==> r[i].stream == s
    decreases |ps|
  {
    if ps == [] then []
    else VideoPackets(ps[..|ps| - 1], s) + (if ps[|ps| - 1].stream == s then [ps[|ps| - 1]] else [])
  }

  lemma {:induction false} VideoPacketsIdempotent(ps: seq<Packet>, s: nat)
    ensures VideoPackets(VideoPackets(ps, s), s) == VideoPackets(ps, s)
    decreases |ps|
  {
    if ps != [] {
      var prior := ps[..|ps| - 1];
      var v := VideoPackets(prior, s);
      VideoPacketsIdempotent(prior, s);
      if ps[|ps| - 1].stream == s {
        var w := v + [ps[|ps| - 1]];
        assert w[..|w| - 1] == v;
        assert VideoPackets(w, s) == VideoPackets(v, s) + [ps[|ps| - 1]];
      } else {
        assert VideoPackets(ps, s) == v + [] == v;
      }
    }
  }

  /** The selection is exact: a packet is selected exactly when it is one
      of the input packets and belongs to stream `s`. */
  lemma {:induction false} VideoPacketsMembers(ps: seq<Packet>, s: nat)
    ensures forall p :: p in VideoPackets(ps, s) <==> p in ps && p.stream == s
    decreases |ps|
  {
    if ps != [] {
      var prior := ps[..|ps| - 1];
      VideoPacketsMembers(prior, s);
      assert ps == prior + [ps[|ps| - 1]];
    }
  }

  /** Appending the records of `frames` to `records`, one per frame, each
      numbered by the count of records before it. */
  function AppendFrames(records: seq<PosesInFrame>, frames: seq<DecodedFrame>,
                        cfg: Config, c: Collaborators): Result<seq<PosesInFrame>, ParseError>
    decreases |frames|
  {
    if frames == [] then Success(records)
    else
      var rs :- AppendFrames(records, frames[..|frames| - 1], cfg, c);
      var f := frames[|frames| - 1];
      var poses :- FramePoses(f, cfg, c);
      Success(rs + [PosesInFrame(|rs|, Tick(f), poses)])
  }

  /** The whole loop over `packets`: `Success` holds `marker_poses` as it is
      serialised; `Failure` means `main` returned before writing anything. */
  function Run(packets: seq<Packet>, cfg: Config, c: Collaborators)
    : Result<seq<PosesInFrame>, ParseError>
    decreases |packets|
  {
    if packets == [] then Success([])
    else
      var prior := packets[..|packets| - 1];
      var packet := packets[|packets| - 1];
      var rs :- Run(prior, cfg, c);
      if packet.stream != cfg.videoStream then Success(rs)
      else
        match c.send(VideoPackets(prior, cfg.videoStream), packet)
        case None => Failure(SendPacketFailed)
        case Some(frames) => AppendFrames(rs, frames, cfg, c)
  }

  /** The frames the decoder hands back, in decode order. */
  function SentFrames(packets: seq<Packet>, cfg: Config, c: Collaborators): seq<DecodedFrame>
    decreases |packets|
  {
    if packets == [] then []
    else
      var prior := packets[..|packets| - 1];
      var packet := packets[|packets| - 1];
      SentFrames(prior, cfg, c) +
        if packet.stream != cfg.videoStream then []
        else match c.send(VideoPackets(prior, cfg.videoStream), packet)
          case None => []
          case Some(frames) => frames
  }

  /** Once a frame fails, the frames after it change nothing. */
  lemma {:induction false} AppendFramesFailureSticks(records: seq<PosesInFrame>,
      frames: seq<DecodedFrame>, k: nat, cfg: Config, c: Collaborators)
    requires k <= |frames|
    requires AppendFrames(records, frames[..k], cfg, c).Failure?
    ensures AppendFrames(records, frames, cfg, c) == AppendFrames(records, frames[..k], cfg, c)
    decreases |frames|
  {
    if k < |frames| {
      var prior := frames[..|frames| - 1];
      assert prior[..k] == frames[..k];
      AppendFramesFailureSticks(records, prior, k, cfg, c);
    } else {
      assert frames[..k] == frames;
    }
  }

  /** Records are only ever appended: each frame adds exactly one record,
      numbered by its position, with the frame's tick and resolved poses.
      The appending fails exactly when one of the frames fails. */
  lemma {:induction false} AppendFramesRecords(records: seq<PosesInFrame>,
      frames: seq<DecodedFrame>, cfg: Config, c: Collaborators)
    ensures AppendFrames(records, frames, cfg, c).Failure? <==>
      exists j :: 0 <= j < |frames| && FramePoses(frames[j], cfg, c).Failure?
    ensures AppendFrames(records, frames, cfg, c).Success? ==>
      var out := AppendFrames(records, frames, cfg, c).value;
      && |out| == |records| + |frames|
      && out[..|records|] == records
      && forall j :: 0 <= j < |frames| ==>
           out[|records| + j] == PosesInFrame(|records| + j, Tick(frames[j]),
                                             FramePoses(frames[j], cfg, c).value)
    decreases |frames|
  {
    if frames != [] {
      var n := |frames|;
      var prior := frames[..n - 1];
      AppendFramesRecords(records, prior, cfg, c);
      assert forall j :: 0 <= j < n - 1 ==> prior[j] == frames[j];
    }
  }

  /** Once the run fails, the packets after it change nothing. */
  lemma {:induction false} RunFailureSticks(packets: seq<Packet>, k: nat, cfg: Config, c: Collaborators)
    requires k <= |packets|
    requires Run(packets[..k], cfg, c).Failure?
    ensures Run(packets, cfg, c) == Run(packets[..k], cfg, c)
    decreases |packets|
  {
    if k < |packets| {
      var prior := packets[..|packets| - 1];
      assert prior[..k] == packets[..k];
      RunFailureSticks(prior, k, cfg, c);
    } else {
      assert packets[..k] == packets;
    }
  }

  /** Packets of other streams produce nothing: the run over the whole
      input equals the run over the video stream's packets alone. */
  lemma {:induction false} RunSkipsOtherStreams(packets: seq<Packet>, cfg: Config, c: Collaborators)
    ensures Run(packets, cfg, c) == Run(VideoPackets(packets, cfg.videoStream), cfg, c)
    decreases |packets|
  {
    var s := cfg.videoStream;
    if packets != [] {
      var prior := packets[..|packets| - 1];
      var packet := packets[|packets| - 1];
      var v := VideoPackets(prior, s);
      RunSkipsOtherStreams(prior, cfg, c);
      if packet.stream == s {
        var w := v + [packet];
        assert VideoPackets(packets, s) == w;
        assert w[..|w| - 1] == v && w[|w| - 1] == packet;
        VideoPacketsIdempotent(prior, s);
      } else {
        assert VideoPackets(packets, s) == v + [] == v;
        assert Run(packets, cfg, c) == Run(prior, cfg, c);
      }
    }
  }

  /** An input without a packet of the video stream yields an empty list. */
  lemma RunWithoutVideo(packets: seq<Packet>, cfg: Config, c: Collaborators)
    requires VideoPackets(packets, cfg.videoStream) == []
    ensures Run(packets, cfg, c) == Success([])
  {
    RunSkipsOtherStreams(packets, cfg, c);
  }

  /** A successful run holds exactly one record per decoded frame, in decode
      order: record `k` has `frame_idx == k`, the tick of frame `k` (its pts,
      or 0 when it has none) and that frame's resolved poses. */
  lemma {:induction false} RunRecords(packets: seq<Packet>, cfg: Config, c: Collaborators)
    requires Run(packets, cfg, c).Success?
    ensures var rs := Run(packets, cfg, c).value;
      var frames := SentFrames(packets, cfg, c);
      && |rs| == |frames|
      && forall k :: 0 <= k < |rs| ==>
           && FramePoses(frames[k], cfg, c).Success?
           && rs[k] == PosesInFrame(k, Tick(frames[k]), FramePoses(frames[k], cfg, c).value)
    decreases |packets|
  {
    if packets != [] {
      var prior := packets[..|packets| - 1];
      var packet := packets[|packets| - 1];
      RunRecords(prior, cfg, c);
      var rs0 := Run(prior, cfg, c).value;
      var f0 := SentFrames(prior, cfg, c);
      if packet.stream == cfg.videoStream {
        var frames := c.send(VideoPackets(prior, cfg.videoStream), packet).value;
        AppendFramesRecords(rs0, frames, cfg, c);
        var rs := Run(packets, cfg, c).value;
        var all := SentFrames(packets, cfg, c);
        assert all == f0 + frames;
        forall k | 0 <= k < |rs|
          ensures FramePoses(all[k], cfg, c).Success?
          ensures rs[k] == PosesInFrame(k, Tick(all[k]), FramePoses(all[k], cfg, c).value)
        {
          if k < |rs0| {
            assert rs[k] == rs[..|rs0|][k];
          } else {
            assert all[k] == frames[k - |rs0|];
            if FramePoses(frames[k - |rs0|], cfg, c).Failure? {
              assert false;
            }
          }
        }
      }
    }
  }

  /** Records are only appended: the output after any prefix of the packets
      is a prefix of the final output. */
  lemma {:induction false} RunAppendsOnly(packets: seq<Packet>, k: nat, cfg: Config, c: Collaborators)
    requires k <= |packets|
    requires Run(packets, cfg, c).Success?
    ensures Run(packets[..k], cfg, c).Success?
    ensures var rs := Run(packets, cfg, c).value;
      var early := Run(packets[..k], cfg, c).value;
      |early| <= |rs| && rs[..|early|] == early
    decreases |packets|
  {
    if k < |packets| {
      var prior := packets[..|packets| - 1];
      assert prior[..k] == packets[..k];
      var packet := packets[|packets| - 1];
      RunAppendsOnly(prior, k, cfg, c);
      if packet.stream == cfg.videoStream {
        var frames := c.send(VideoPackets(prior, cfg.videoStream), packet).value;
        AppendFramesRecords(Run(prior, cfg, c).value, frames, cfg, c);
      }
    } else {
      assert packets[..k] == packets;
    }
  }

  /** The `while decoder.receive_frame(..)` loop for one packet: each
      received frame is processed and pushed onto `marker_poses` with the
      running `frame_index`, which is incremented after it. */
  method ReceiveFrames(markerPoses: seq<PosesInFrame>, frameIndex: nat,
                       frames: seq<DecodedFrame>, cfg: Config, c: Collaborators)
    returns (out: Result<seq<PosesInFrame>, ParseError>, nextIndex: nat)
    requires frameIndex == |markerPoses|
    ensures out == AppendFrames(markerPoses, frames, cfg, c)
    ensures out.Success? ==> nextIndex == |out.value|
  {
    var records := markerPoses;
    nextIndex := frameIndex;
    var j := 0;
    while j < |frames|
      invariant 0 <= j <= |frames|
      invariant AppendFrames(markerPoses, frames[..j], cfg, c) == Success(records)
      invariant nextIndex == |records|
    {
      var frame := frames[j];
      assert frames[..j + 1][..j] == frames[..j];
      var poses := ProcessFrame(frame, cfg, c);
      if poses.Failure? {
        AppendFramesFailureSticks(markerPoses, frames, j + 1, cfg, c);
        return Failure(poses.error), nextIndex;
      }
      records := records + [PosesInFrame(nextIndex, Tick(frame), poses.value)];
      nextIndex := nextIndex + 1;
      j := j + 1;
    }
    assert frames[..|frames|] == frames;
    out := Success(records);
  }

  /** The loops of `main`, from the first packet to the JSON write. */
  method ParseVideo(packets: seq<Packet>, cfg: Config, c: Collaborators)
    returns (out: Result<seq<PosesInFrame>, ParseError>)
    ensures out == Run(packets, cfg, c)
  {
    var markerPoses: seq<PosesInFrame> := [];
    var frameIndex: nat := 0;
    var sent: seq<Packet> := [];
    for p := 0 to |packets|
      invariant Run(packets[..p], cfg, c) == Success(markerPoses)
      invariant frameIndex == |markerPoses|
      invariant sent == VideoPackets(packets[..p], cfg.videoStream)
    {
      var packet := packets[p];
      assert packets[..p + 1][..p] == packets[..p];
      if packet.stream == cfg.videoStream {
        var received := c.send(sent, packet);
        if received.None? {
          RunFailureSticks(packets, p + 1, cfg, c);
          return Failure(SendPacketFailed);
        }
        sent := sent + [packet];
        var appended;
        appended, frameIndex := ReceiveFrames(markerPoses, frameIndex, received.value, cfg, c);
        if appended.Failure? {
          RunFailureSticks(packets, p + 1, cfg, c);
          return Failure(appended.error);
        }
        markerPoses := appended.value;
      }
    }
    assert packets[..|packets|] == packets;
    out := Success(markerPoses);
  }
}
