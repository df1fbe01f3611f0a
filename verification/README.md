# pose-from-video in Dafny

A model of the pure and index-arithmetic core of `pose-from-video`. This is a pair of
command-line programs. `parse` reads a video and, for every decoded frame,
writes the AprilTag markers seen in it and their poses. `calibrate` computes
a camera's intrinsics from chessboard photographs.

The foreign libraries are function-typed parameters with no body:

- ffmpeg's decoder and scaler
- AprilTag's detector and pose estimator
- OpenCV's image inspection and `calibrate_camera`

The program's own `f32` luma weighting (`src/bin/parse.rs:93-96`) is also a
parameter, an uninterpreted function from three bytes to one. Everything
else the Rust code computes is modelled as it is written, except that
weighting and the `f64` timestamp in seconds (`src/bin/parse.rs:83`), both
listed under "Left out".

Modules:

- `Wrappers` (`wrappers.dfy`): `Option` and `Result`, with the `:-` early-return protocol used for Rust's `?`.
- `AprilTag` (`apriltag.dfy`): the values the AprilTag bindings exchange with the program. These are `TagParams`, `Detection`, `Pose` and the pose-estimator type.
- `Pose` (`pose.dfy`, for `src/pose.rs`): `MarkerPose::from_detection` and `From<Pose> for SerialisablePose`.
- `Calibration` (`calibration.dfy`, for `src/calibration.rs`): the `Calibration` value, its `Default`, `From<Mat>` and `to_params`.
- `Calibrate` (`calibrate.dfy`, for `src/bin/calibrate.rs`) covers `calibrate_from_images`:
  - the `.jpg` filter over the directory listing;
  - the `for image in images` loop, as a method proved against the function `Collect`;
  - the `objp` chessboard grid;
  - the replication into `object_points`;
  - the final cell selection.
- `Parse` (`parse.dfy`, for `src/bin/parse.rs`) covers the packet and frame loops of `main`:
  - the stream filter and the decoder hand-off;
  - the RGB-to-luma chunk loop (`ToLuma`);
  - the x-outer, y-inner row-major image copy on a 2-D array (`CopyColumn`, `CopyToImage`);
  - the `filter_map` to marker poses;
  - the `PosesInFrame` record with its running `frame_index`.

  The packet and frame loops are methods (`ParseVideo`, `ReceiveFrames`), and so is the body of the frame loop (`ProcessFrame`, which calls the `ToLuma` and `CopyToImage` loops). Each is proved equal to a specification function (`Run`, `AppendFrames`, `FramePoses`), and the promised properties are proved about those functions as lemmas.

Some modelling choices:

- **Decoder state.** The decoder is a function of the video packets sent before, plus the new packet. It yields the frames that `receive_frame` returns until it stops succeeding, or `None` when `send_packet` fails.
- **Early exits.** A `?` return or a panic becomes a `Failure`/`None` that ends the run before the output file is written (the JSON list of `parse`, the TOML calibration of `calibrate`). Covered are:
  - in `parse`: the `?` on `send_packet` and on `scaler.run`, and the panic of an out-of-range `luma_data[idx]`;
  - in `calibrate`: the five `unwrap`s of the image loop (`imread`, `cvt_color`, `size`, `find_chessboard_corners`, `corner_sub_pix`), as a failed inspection, and the `unwrap` of `at_2d` on a missing matrix cell.
- **Pixel offsets.** The offset `y*width + x` is computed by `PixelIndex`, defined row by row. `PixelIndexIs` proves it equal to the source's expression.
- **Bounds check.** The copy panics exactly when some pixel's offset is past the end of the luma buffer. `CoversImageIff` turns that into "the buffer is shorter than `width*height`".

## Model

| member | source | states |
|---|---|---|
| Pose.FromPose | src/pose.rs:25-32 | rotation and translation are copied element for element, in order, with their lengths kept |
| Pose.FromPoseInjective | src/pose.rs:25-32 | the copy loses nothing: equal serialised poses come from equal poses |
| Pose.FromDetection | src/pose.rs:10-16 | `None` exactly when the estimator gives no pose; otherwise `marker_id` is the detection's id and the pose is the copied estimate; the result depends only on the detection, the parameters and the estimator |
| Calibration.Default | src/calibration.rs:6-12 | the derived default has all four intrinsics zero |
| Calibration.At | src/calibration.rs:23-26 | `at_2d` succeeds exactly for an existing cell and then gives that cell |
| Calibration.FromMatrix | src/calibration.rs:20-29 | succeeds exactly when cells (0,0), (1,1), (0,2), (1,2) exist, and then takes focal x, focal y, principal x, principal y from them |
| Calibration.FromMatrixIgnoresOtherCells | src/calibration.rs:20-29 | matrices agreeing on the four cells give the same calibration: skew (0,1), row 2 and all other cells are ignored |
| Calibration.ToParams | src/calibration.rs:32-40 | `tagsize` is passed through unchecked; fx, fy, cx, cy are focal x, focal y, principal x, principal y |
| Calibration.ToParamsInjective | src/calibration.rs:32-40 | the calibration and the tag size can be read back from the parameters |
| Calibration.ToParamsFromMatrix | src/calibration.rs:20-40 | composed, a matrix and tag size `t` give `(t, m[0][0], m[1][1], m[0][2], m[1][2])` |
| Calibrate.LastDot | src/bin/calibrate.rs:43 | the position of the last '.' of a name, or none when it has no '.' |
| Calibrate.Extension | src/bin/calibrate.rs:43 | the extension is the text after the last '.', and is absent for names without a '.', names whose only '.' leads, and ".." |
| Calibrate.AsciiLower | src/bin/calibrate.rs:43 | ASCII lower-casing maps 'A'..'Z' to 'a'..'z' and keeps every other character |
| Calibrate.AsciiLowercase | src/bin/calibrate.rs:43 | lower-casing keeps the length and lower-cases each character in place |
| Calibrate.IsJpgIffSuffix | src/bin/calibrate.rs:41-44 | a name passes the filter exactly when it has at least five characters and ends in '.' plus "jpg" in any case, so "IMG_1.JPG" passes while "a.jpeg", "README" and ".jpg" do not |
| Calibrate.LastDotIs | src/bin/calibrate.rs:43 | a '.' with no '.' after it is the last dot |
| Calibrate.FilterJpgs | src/bin/calibrate.rs:41-44 | the kept names are exactly the readable entries that pass the jpg test; no more names than entries |
| Calibrate.Inspections | src/bin/calibrate.rs:52-61 | one OpenCV inspection per image, in order |
| Calibrate.CornersFound | src/bin/calibrate.rs:63-69 | reference definition of `image_points`: a corner set is in it exactly when some image found those corners; never more corner sets than images |
| Calibrate.CornersFoundAppend | src/bin/calibrate.rs:52-70 | the corner sets of consecutive runs of images concatenate, so order is kept |
| Calibrate.CornersFoundNone | src/bin/calibrate.rs:63-69 | images without the pattern contribute nothing |
| Calibrate.CollectFails | src/bin/calibrate.rs:52-70 | the loop panics exactly when the inspection of some image fails |
| Calibrate.CollectAll | src/bin/calibrate.rs:48-70 | when every image succeeds, `image_points` holds one entry per image whose corners were found, in order, and `img_size` is the size of the last image, or the default size when there were no images |
| Calibrate.CollectCorners | src/bin/calibrate.rs:48-70 | the loop computes exactly `Collect` of the inspections, failing on the first failed image |
| Calibrate.ObjectGrid | src/bin/calibrate.rs:73-74 | `objp` has `CHESSBOARD_WIDTH * CHESSBOARD_HEIGHT` = 54 points, each on the board with z = 0, and point `i` has `y*6 + x == i`, so the points are distinct |
| Calibrate.ObjectGridCovers | src/bin/calibrate.rs:74 | every corner `(x, y, 0)` of the 6-by-9 board is in `objp`, at index `y*6 + x` |
| Calibrate.ObjectPoints | src/bin/calibrate.rs:77 | `n` entries, each equal to `objp` |
| Calibrate.CalibrateFromImages | src/bin/calibrate.rs:32-96 | a failed image makes the run fail; otherwise the result is the four cells of the matrix solved from exactly `image_points.len()` copies of `objp`, the collected corners and the last image size |
| Parse.LumaOfAt | src/bin/parse.rs:91-98 | the luma buffer has `len / 3` entries, so trailing bytes are ignored, and entry `i` is the luma of bytes `3i`, `3i+1`, `3i+2` |
| Parse.ToLuma | src/bin/parse.rs:91-98 | the chunk loop builds exactly that buffer |
| Parse.PixelIndexIs | src/bin/parse.rs:105 | the row-by-row offset of pixel `(x, y)` is `y*width + x` |
| Parse.PixelIndexBound | src/bin/parse.rs:103-106 | every pixel of a `width`-by-`height` image has an offset below `width*height` |
| Parse.PixelIndexInjective | src/bin/parse.rs:103-107 | no two pixels share an offset, so each cell is written from its own entry, once |
| Parse.PixelIndexOnto | src/bin/parse.rs:103-107 | every offset below `width*height` belongs to some pixel, even though `x` is the outer loop |
| Parse.CoversImageIff | src/bin/parse.rs:102-108 | no `luma_data[idx]` goes past the end exactly when the buffer holds at least `width*height` entries |
| Parse.MissingPixel | src/bin/parse.rs:105-106 | one pixel whose offset is past the end is enough to break the copy |
| Parse.Rows | src/bin/parse.rs:111 | the detector's image as rows: row `y`, column `x` is `image[(x, y)]` |
| Parse.RowsOfAt | src/bin/parse.rs:101-106 | cell `(x, y)` of the image a buffer describes is `buffer[y*width + x]` |
| Parse.CopyColumn | src/bin/parse.rs:104-107 | the inner `y` loop fills column `x` from the buffer, or reports the out-of-range panic; the other columns are unchanged |
| Parse.CopiedImage | src/bin/parse.rs:102-108 | once every column is copied, the image is the one the buffer describes |
| Parse.CopyToImage | src/bin/parse.rs:102-108 | the nested loops succeed exactly when every offset is in range, and then `image[(x, y)] == luma_data[y*width + x]` for every cell |
| Parse.PackedPixel | src/bin/parse.rs:91-108 | for a tightly packed buffer (`len == 3*width*height`), cell `(x, y)` is the luma of the bytes at `3*(y*width + x)` |
| Parse.PaddedRowShifts | src/bin/parse.rs:91-108 | with padded rows (width 1, height 2, line size 4) the copy succeeds but cell (0, 1) is the luma of the padding byte and the second row's red and green bytes |
| Parse.FilterPoses | src/bin/parse.rs:115 | a frame never has more poses than detections |
| Parse.FilterPosesAppend | src/bin/parse.rs:115 | the filter distributes over concatenation, so detector order is kept |
| Parse.FilterPosesMembers | src/bin/parse.rs:115 | a pose is emitted exactly when some detection resolves to it |
| Parse.Tick | src/bin/parse.rs:83 | the frame's pts, or 0 when it has none |
| Parse.FramePosesFailures | src/bin/parse.rs:86-108 | a frame fails with the scaler error exactly when scaling fails, and with the index panic exactly when it has fewer than `width*height` complete RGB triples |
| Parse.ProcessFrame | src/bin/parse.rs:83-115 | the per-frame steps compute exactly `FramePoses` |
| Parse.VideoPackets | src/bin/parse.rs:75-76 | the selected packets all belong to the video stream, and there are no more of them than packets |
| Parse.VideoPacketsMembers | src/bin/parse.rs:75-78 | the selection is exact: a packet is sent to the decoder exactly when it is in the input and belongs to the video stream |
| Parse.VideoPacketsIdempotent | src/bin/parse.rs:76 | selecting the video stream twice selects nothing more |
| Parse.AppendFramesFailureSticks | src/bin/parse.rs:82-124 | once a frame fails, later frames change nothing |
| Parse.AppendFramesRecords | src/bin/parse.rs:82-124 | the frame loop fails exactly when some frame fails; otherwise it appends exactly one record per frame, keeps the earlier records, and gives the k-th new record the index `|before| + k`, the frame's tick and its poses |
| Parse.RunFailureSticks | src/bin/parse.rs:75-87 | once the run fails, later packets change nothing, so no partial output is written |
| Parse.RunSkipsOtherStreams | src/bin/parse.rs:75-76 | the run over all packets equals the run over the video stream's packets alone |
| Parse.RunWithoutVideo | src/bin/parse.rs:70-76 | with no packet of the video stream the output list is empty |
| Parse.RunRecords | src/bin/parse.rs:74-126 | a successful run has one record per decoded frame, in decode order; record `k` has `frame_idx == k`, frame `k`'s tick and its poses |
| Parse.RunAppendsOnly | src/bin/parse.rs:117-123 | records are only appended: the output after any prefix of the packets is a prefix of the final output |
| Parse.ReceiveFrames | src/bin/parse.rs:82-124 | the `receive_frame` loop computes exactly `AppendFrames`, with `frame_index` equal to the number of records |
| Parse.ParseVideo | src/bin/parse.rs:70-129 | the packet loop computes exactly `Run`: the list that is serialised, or the error `main` returns before writing |

## Left out

- ffmpeg internals are left out. This covers demuxing, codec set-up, `send_packet`/`receive_frame` and scaling (`src/bin/parse.rs:38-61, 78-87`). They are the `send` and `scale` parameters, and the set-up before the loop is not modelled.
- The decoder is never sent end-of-stream and never drained. Frames still buffered at the end of the input are not emitted, in the source or in the model.
- The luma weighting `0.299 r + 0.587 g + 0.114 b` is left out. It is `f32` arithmetic cast to `u8`, and exact arithmetic on reals would round differently. It is the uninterpreted `luma` parameter.
- The timestamp `t = pts * time_base` is an `f64` product. The model records only the tick (pts, or 0 when there is none), which the product is computed from.
- The RGB plane's row stride (linesize) is not a parameter of the model. The scaled plane is the byte sequence `data(0)` gives, cut into triples as `chunks_exact(3)` cuts it. So the model reproduces what the source does with padded rows: when the line size exceeds `3*width`, every row after the first is shifted (`PaddedRowShifts`), without a panic. The per-pixel statement `PackedPixel` holds for a tightly packed plane.
- `Image::zeros_with_alignment(..).unwrap()` is left out. The image's alignment padding is not visible to the program, so the image is a `width`-by-`height` two-dimensional array and the detector receives its rows.
- AprilTag detection, `estimate_tag_pose`, and the 3x3 and 3x1 shapes of the pose matrices are not modelled. They are the `detect` and `estimate` parameters, and pose data is a sequence of reals.
- OpenCV is left out: `imread`, `cvt_color`, `find_chessboard_corners`, `corner_sub_pix` with its `TermCriteria` values, and `calibrate_camera`. They are the `inspect` and `solve` parameters. `solve`'s error is ignored, as in the source, so a failed solve leaves an empty matrix, and `FromMatrix` then fails.
- The `Mat` element type check of `at_2d::<f64>` is not modelled: a matrix is rows of reals.
- `f64` values are modelled as `real`. They are only copied, never computed with, so NaN and rounding play no part.
- `read_dir(..).unwrap()` is left out: the listing is given as input, with unreadable entries as `None`.
- Command-line parsing (clap) is left out.
- TOML and JSON (de)serialisation is left out.
- File reads and writes are left out, including the ignored result of `fs::write`.
- `println!` output is left out.
- The `Display` implementation for `Calibration` is left out (float formatting).
- `Family::from_str(..).unwrap()` and the detector builder are left out. They are configuration set up before the loop.
- The loop methods run over values. The side effects of the foreign calls on ffmpeg's and OpenCV's own objects (`decoded`, `rgb_frame`, `gray`, `corners`) are not modelled; only their results are.
