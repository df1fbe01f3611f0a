/** src/bin/calibrate.rs: the integer and string logic around the OpenCV
    camera calibration. The OpenCV calls (reading and inspecting an image,
    solving for the camera matrix) are function-typed parameters. */
module Calibrate {
  import opened Wrappers
  import opened Calibration

  /** Inner corners of the standard chessboard pattern (`i32` in the source). */
  const ChessboardWidth: int := 6
  const ChessboardHeight: int := 9

  /** `Point3f` of the object grid: every coordinate is a small integer, which
      `f32` holds exactly. */
  datatype Point3 = Point3(x: int, y: int, z: int)

  /** `Point2f`: a refined image-space corner. */
  type Point2 = (real, real)

  /** OpenCV `Size`; `Size::default()` is 0 by 0. */
  datatype Size = Size(width: int, height: int)

  const DefaultSize: Size := Size(0, 0)

  // ---------------------------------------------------------------------
  // The `.jpg` filter over the directory listing

  /** The index of the last '.' in `s`, if any. */
  function LastDot(s: string): (r: Option<nat>)
    ensures r.Some? ==> r.value < |s| && s[r.value] == '.'
    ensures r.Some? ==> forall j :: r.value < j < |s| ==> s[j] != '.'
    ensures r.None? ==> forall j :: 0 <= j < |s| ==> s[j] != '.'
  {
    if s == [] then None
    else if s[|s| - 1] == '.' then Some(|s| - 1)
    else LastDot(s[..|s| - 1])
  }

  /** `Path::extension` of a file name: the text after the last '.', except
      that a name without a '.', a name whose only '.' is its first character,
      and the name ".." have none. */
  function Extension(name: string): (r: Option<string>)
    ensures r.Some? <==> name != ".." && LastDot(name).Some? && LastDot(name).value > 0
    ensures r.Some? ==> r.value == name[LastDot(name).value + 1..]
  {
    if name == ".." then None
    else match LastDot(name)
      case None => None
      case Some(k) => if k == 0 then None else Some(name[k + 1..])
  }

  /** `u8::to_ascii_lowercase`: 'A'..'Z' become 'a'..'z', all else is kept. */
  function AsciiLower(c: char): (l: char)
    ensures 'A' <= c <= 'Z' ==> l as int == c as int + 32
    ensures !('A' <= c <= 'Z') ==> l == c
  {
    if 'A' <= c <= 'Z' then (c as int + 32) as char else c
  }

  function AsciiLowercase(s: string): (r: string)
    ensures |r| == |s|
    ensures forall i :: 0 <= i < |s| ==> r[i] == AsciiLower(s[i])
  {
    seq(|s|, i requires 0 <= i < |s| => AsciiLower(s[i]))
  }

  /** The filter closure: an extension whose ASCII-lowercase form is "jpg". */
  predicate IsJpg(name: string) {
    Extension(name).Some? && AsciiLowercase(Extension(name).value) == "jpg"
  }

  /** An independent description of the filter: the name is at least five
      characters long and ends in '.' followed by j, p, g in any case. So
      "IMG_1.JPG" is kept while "a.jpeg", "README" and ".jpg" are not. */
  lemma IsJpgIffSuffix(name: string)
    ensures IsJpg(name) <==>
      |name| >= 5 && name[|name| - 4] == '.' && AsciiLowercase(name[|name| - 3..]) == "jpg"
  {
    var n := |name|;
    if IsJpg(name) {
      var k := LastDot(name).value;
      assert |name[k + 1..]| == 3;
    }
    if n >= 5 && name[n - 4] == '.' && AsciiLowercase(name[n - 3..]) == "jpg" {
      var tail := name[n - 3..];
      forall j | n - 4 < j < n ensures name[j] != '.' {
        assert AsciiLower(tail[j - (n - 3)]) == "jpg"[j - (n - 3)];
      }
      LastDotIs(name, n - 4);
    }
  }

  /** A '.' with no '.' after it is the last dot. */
  lemma {:induction false} LastDotIs(s: string, k: nat)
    requires k < |s| && s[k] == '.'
    requires forall j :: k < j < |s| ==> s[j] != '.'
    ensures LastDot(s) == Some(k)
  {
    if k < |s| - 1 {
      LastDotIs(s[..|s| - 1], k);
    }
  }

  /** `read_dir(..).flatten().filter(..)`: entries that could not be read
      (`None`) are dropped, then the names that are not `.jpg`, keeping
      the listing order. */
  function FilterJpgs(entries: seq<Option<string>>): (r: seq<string>)
    ensures |r| <= |entries|
    ensures forall n :: n in r <==> Some(n) in entries && IsJpg(n)
  {
    if entries == [] then []
    else
      var rest := FilterJpgs(entries[1..]);
      assert entries == [entries[0]] + entries[1..];
      if entries[0].Some? && IsJpg(entries[0].value) then [entries[0].value] + rest else rest
  }

  // ---------------------------------------------------------------------
  // The loop over the images

  /** What OpenCV reports for one image: its size (`gray.size()`) and the
      refined corners when `find_chessboard_corners` found the pattern. */
  datatype Inspection = Inspection(size: Size, corners: Option<seq<Point2>>)

  /** `image_points` and `img_size` after the loop. */
  datatype Collected = Collected(imagePoints: seq<seq<Point2>>, imgSize: Size)

  /** The inspection of each image in turn; `None` is a failed `unwrap` in
      `imread`, `cvt_color`, `size`, `find_chessboard_corners` or
      `corner_sub_pix`, which aborts the program. */
  function Inspections(images: seq<string>, inspect: string -> Option<Inspection>)
    : (r: seq<Option<Inspection>>)
    ensures |r| == |images|
    ensures forall i :: 0 <= i < |images| ==> r[i] == inspect(images[i])
  {
    seq(|images|, i requires 0 <= i < |images| => inspect(images[i]))
  }

  /** The state after running the loop body over `results`, in order:
      `img_size` overwritten each time, corners pushed when found. */
  function Collect(results: seq<Option<Inspection>>): Option<Collected>
    decreases |results|
  {
    if results == [] then Some(Collected([], DefaultSize))
    else
      var c :- Collect(results[..|results| - 1]);
      var ins :- results[|results| - 1];
      Some(Collected(c.imagePoints + (if ins.corners.Some? then [ins.corners.value] else []),
                     ins.size))
  }

  /** Reference definition: the corners of the images where the pattern was
      found, in iteration order. */
  function CornersFound(ins: seq<Inspection>): (r: seq<seq<Point2>>)
    ensures |r| <= |ins|
    ensures forall cs :: cs in r <==> exists i :: 0 <= i < |ins| && ins[i].corners == Some(cs)
  {
    if ins == [] then []
    else (if ins[0].corners.Some? then [ins[0].corners.value] else []) + CornersFound(ins[1..])
  }

  lemma {:induction false} CornersFoundAppend(a: seq<Inspection>, b: seq<Inspection>)
    ensures CornersFound(a + b) == CornersFound(a) + CornersFound(b)
  {
    if a != [] {
      assert (a + b)[0] == a[0];
      assert (a + b)[1..] == a[1..] + b;
      CornersFoundAppend(a[1..], b);
    } else {
      assert a + b == b;
    }
  }

  /** An image contributes a corner set exactly when the pattern was found in it. */
  lemma {:induction false} CornersFoundNone(ins: seq<Inspection>)
    requires forall i :: 0 <= i < |ins| ==> ins[i].corners.None?
    ensures CornersFound(ins) == []
  {
    if ins != [] {
      CornersFoundNone(ins[1..]);
    }
  }

  /** The loop panics exactly when one of the images fails. */
  lemma {:induction false} CollectFails(results: seq<Option<Inspection>>)
    ensures Collect(results).None? <==> exists i :: 0 <= i < |results| && results[i].None?
  {
    if results != [] {
      var n := |results|;
      var prior := results[..n - 1];
      CollectFails(prior);
      assert forall i :: 0 <= i < n - 1 ==> prior[i] == results[i];
    }
  }

  /** When every image succeeds, `image_points` holds one entry per image
      whose corners were found, in order, and `img_size` is the size of the
      last image, or the default size when there was none. */
  lemma {:induction false} CollectAll(ins: seq<Inspection>)
    ensures Collect(seq(|ins|, i requires 0 <= i < |ins| => Some(ins[i])))
         == Some(Collected(CornersFound(ins), if ins == [] then DefaultSize else ins[|ins| - 1].size))
  {
    var results := seq(|ins|, i requires 0 <= i < |ins| => Some(ins[i]));
    if ins != [] {
      var n := |ins|;
      var prior := ins[..n - 1];
      var last := ins[n - 1];
      var priorResults := seq(|prior|, i requires 0 <= i < |prior| => Some(prior[i]));
      assert results[..n - 1] == priorResults;
      assert results[n - 1] == Some(last);
      CollectAll(prior);
      var c := Collected(CornersFound(prior), if prior == [] then DefaultSize else prior[|prior| - 1].size);
      assert Collect(results) == Some(Collected(c.imagePoints + (if last.corners.Some? then [last.corners.value] else []), last.size));
      assert ins == prior + [last];
      CornersFoundAppend(prior, [last]);
      assert [last][1..] == [];
      assert CornersFound([last]) == (if last.corners.Some? then [last.corners.value] else []);
    }
  }

  /** The `for image in images` loop. */
  method CollectCorners(images: seq<string>, inspect: string -> Option<Inspection>)
    returns (r: Option<Collected>)
    ensures r == Collect(Inspections(images, inspect))
  {
    var imagePoints: seq<seq<Point2>> := [];
    var imgSize := DefaultSize;
    for i := 0 to |images|
      invariant Collect(Inspections(images[..i], inspect)) == Some(Collected(imagePoints, imgSize))
    {
      var inspection := inspect(images[i]);
      ghost var done := Inspections(images[..i + 1], inspect);
      assert done[..i] == Inspections(images[..i], inspect);
      assert done[i] == inspection;
      if inspection.None? {
        CollectFails(Inspections(images, inspect));
        return None;
      }
      imgSize := inspection.value.size;
      if inspection.value.corners.Some? {
        imagePoints := imagePoints + [inspection.value.corners.value];
      } else {
        assert imagePoints + [] == imagePoints;
      }
      assert |done| == i + 1 && done[..|done| - 1] == done[..i];
    }
    assert images[..|images|] == images;
    r := Some(Collected(imagePoints, imgSize));
  }

  // ---------------------------------------------------------------------
  // The object points

  /** `objp`: point `i` is `(i % 6, i / 6, 0)`; every point lies on the board,
      and its index can be read back from it, so the points are distinct. */
  function ObjectGrid(): (g: seq<Point3>)
    ensures |g| == ChessboardWidth * ChessboardHeight == 54
    ensures forall i :: 0 <= i < |g| ==>
      0 <= g[i].x < ChessboardWidth && 0 <= g[i].y < ChessboardHeight && g[i].z == 0
    ensures forall i :: 0 <= i < |g| ==> g[i].y * ChessboardWidth + g[i].x == i
  {
    seq(ChessboardWidth * ChessboardHeight,
        i requires 0 <= i < ChessboardWidth * ChessboardHeight =>
          Point3(i % ChessboardWidth, i / ChessboardWidth, 0))
  }

  /** Every square corner of the board appears in `objp`, at index `y*6 + x`. */
  lemma ObjectGridCovers(x: int, y: int)
    requires 0 <= x < ChessboardWidth && 0 <= y < ChessboardHeight
    ensures 0 <= y * ChessboardWidth + x < |ObjectGrid()|
    ensures ObjectGrid()[y * ChessboardWidth + x] == Point3(x, y, 0)
  {
    var i := y * ChessboardWidth + x;
    assert ObjectGrid()[i].y * ChessboardWidth + ObjectGrid()[i].x == i;
  }

  /** `object_points`: `n` copies of `objp`, one per entry of `image_points`. */
  function ObjectPoints(n: nat): (r: seq<seq<Point3>>)
    ensures |r| == n
    ensures forall i :: 0 <= i < n ==> r[i] == ObjectGrid()
  {
    seq(n, _ => ObjectGrid())
  }

  /** `calibrate_camera`: object points, image points and image size to a
      camera matrix. Its error result is ignored by the source, so a failed
      solve leaves the matrix empty. */
  type Solver = (seq<seq<Point3>>, seq<seq<Point2>>, Size) -> Matrix

  /** `calibrate_from_images`. `None` is a panic: an image that fails to
      load, or a camera matrix without the four intrinsic cells. */
  method CalibrateFromImages(entries: seq<Option<string>>,
                             inspect: string -> Option<Inspection>, solve: Solver)
    returns (r: Option<Intrinsics>)
    ensures var images := FilterJpgs(entries);
      (exists i :: 0 <= i < |images| && inspect(images[i]).None?) ==> r.None?
    ensures match Collect(Inspections(FilterJpgs(entries), inspect))
      case None => r.None?
      case Some(c) =>
        r == FromMatrix(solve(ObjectPoints(|c.imagePoints|), c.imagePoints, c.imgSize))
  {
    var images := FilterJpgs(entries);
    var collected := CollectCorners(images, inspect);
    CollectFails(Inspections(images, inspect));
    if collected.None? {
      return None;
    }
    var objectPoints := ObjectPoints(|collected.value.imagePoints|);
    var mtx := solve(objectPoints, collected.value.imagePoints, collected.value.imgSize);
    r := FromMatrix(mtx);
  }
}
