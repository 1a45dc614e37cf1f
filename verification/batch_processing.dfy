/**
 * Batch processing of a folder of `.bmp` frames: every file is decoded and
 * run through the kernel with fixed parameters, and the results are folded
 * into a running sum while processed and skipped files are counted.
 * Decoding is a collaborator: each file arrives with its decode outcome.
 */
module BatchProcessing {
  import opened Wrappers
  import opened Grids
  import opened IonEventCounting

  /** The constants `process_single_image` passes to the kernel (`event_size` keeps its default 1). */
  const FixedParams := Params(threshold := 70, mode := 5, nxnarea := 5, multiplyFactor := 5, intOffset := 10, eventSize := 1)

  /** What decoding one file gives: a grayscale frame or the error's message. */
  datatype Decoded = Image(pixels: Grid) | DecodeError(message: string)

  /** `(event_map, None)` or `(None, error)`. */
  datatype ImageResult = Processed(eventMap: Grid) | Skipped(error: string)

  /** A file found under the folder, with its decode outcome. */
  datatype FileEntry = FileEntry(name: string, decoded: Decoded)

  /** `file.endswith(".bmp")`, case-sensitive. */
  predicate IsBmp(name: string)
  {
    |name| >= 4 && name[|name| - 4..] == ".bmp"
  }

  /** The files the batch processes: those ending in `.bmp`, in walk order. */
  function BmpFiles(files: seq<FileEntry>): (r: seq<FileEntry>)
    ensures forall f :: f in r <==> f in files && IsBmp(f.name)
    ensures |r| <= |files|
  {
    if |files| == 0 then []
    else BmpFiles(files[..|files| - 1]) + (if IsBmp(files[|files| - 1].name) then [files[|files| - 1]] else [])
  }

  /** Selecting the `.bmp` files distributes over concatenation, so walk order and repeats are kept. */
  lemma {:induction false} BmpFilesAppend(a: seq<FileEntry>, b: seq<FileEntry>)
    ensures BmpFiles(a + b) == BmpFiles(a) + BmpFiles(b)
    decreases |b|
  {
    if |b| == 0 {
      assert a + b == a;
    } else {
      var init, last := b[..|b| - 1], b[|b| - 1];
      var tail := if IsBmp(last.name) then [last] else [];
      assert (a + b)[..|a + b| - 1] == a + init;
      assert (a + b)[|a + b| - 1] == last;
      assert BmpFiles(a + b) == BmpFiles(a + init) + tail;
      assert BmpFiles(b) == BmpFiles(init) + tail;
      BmpFilesAppend(a, init);
      assert BmpFiles(a) + BmpFiles(init) + tail == BmpFiles(a) + (BmpFiles(init) + tail);
    }
  }

  /** A decodable image must be a rectangular grid. */
  predicate WellFormed(d: Decoded)
  {
    d.Image? ==> IsRect(d.pixels)
  }

  /** The result `process_single_image` yields for one decode outcome. */
  function ResultOf(d: Decoded): (r: ImageResult)
    requires WellFormed(d)
    ensures r.Skipped? <==> d.DecodeError?
    ensures r.Processed? ==> IsRect(r.eventMap) && SameShape(r.eventMap, d.pixels)
  {
    match d
    case Image(g) => Processed(EventMap(g, FixedParams))
    case DecodeError(m) => Skipped(m)
  }

  lemma FixedParamsOk()
    ensures ParamsOk(FixedParams) && Half(FixedParams) == 2 && HalfEvent(FixedParams) == 0
  {
  }

  /**
   * With the fixed parameters a processed map holds 5 exactly at the
   * detections (weight independent of intensity, single-pixel footprint)
   * and 0 elsewhere.
   */
  lemma FixedParamsMap(g: Grid, r: int, c: int)
    requires IsRect(g)
    ensures ParamsOk(FixedParams)
    ensures MapAt(g, FixedParams, r, c) ==
      if Interior(g, FixedParams, r, c) && IsPeak(g, FixedParams, r, c) then 5 else 0
  {
    FixedParamsOk();
    SinglePixelFixedWeight(g, FixedParams, r, c);
  }

  /** `process_single_image`: a decode error is passed on, otherwise the kernel runs. */
  method ProcessSingleImage(d: Decoded) returns (r: ImageResult)
    requires WellFormed(d)
    ensures d.DecodeError? ==> r == Skipped(d.message)
    ensures d.Image? ==> r == Processed(EventMap(d.pixels, FixedParams))
  {
    match d
    case DecodeError(m) =>
      r := Skipped(m);
    case Image(g) =>
      FixedParamsOk();
      var eventMap, numEvents := EventCounting(g, FixedParams);
      r := Processed(Contents(eventMap));
  }

  /** The event maps of the processed results, in order. */
  function Successes(rs: seq<ImageResult>): (ms: seq<Grid>)
    ensures |ms| <= |rs|
  {
    if |rs| == 0 then []
    else Successes(rs[..|rs| - 1]) + (if rs[|rs| - 1].Processed? then [rs[|rs| - 1].eventMap] else [])
  }

  /** The successes are exactly the maps of the processed results. */
  lemma {:induction false} SuccessesMembers(rs: seq<ImageResult>, m: Grid)
    ensures m in Successes(rs) <==> Processed(m) in rs
  {
    if |rs| > 0 {
      var init := rs[..|rs| - 1];
      SuccessesMembers(init, m);
      assert rs == init + [rs[|rs| - 1]];
    }
  }

  /** The number of skipped results. */
  function SkippedCount(rs: seq<ImageResult>): nat
  {
    if |rs| == 0 then 0 else SkippedCount(rs[..|rs| - 1]) + (if rs[|rs| - 1].Skipped? then 1 else 0)
  }

  lemma {:induction false} SuccessesAndSkippedCoverAll(rs: seq<ImageResult>)
    ensures |Successes(rs)| + SkippedCount(rs) == |rs|
  {
    if |rs| > 0 {
      SuccessesAndSkippedCoverAll(rs[..|rs| - 1]);
    }
  }

  /**
   * The fold of `process_images_in_folder`, in the order the results arrive:
   * an error bumps `skipped_files` and leaves the sum alone; a map becomes
   * the sum if there is none yet and is added to it otherwise.
   */
  method FoldResults(results: seq<ImageResult>) returns (sumArray: Option<Grid>, numImages: nat, skippedFiles: nat)
    requires Uniform(Successes(results))
    ensures numImages == |Successes(results)|
    ensures skippedFiles == SkippedCount(results)
    ensures skippedFiles + numImages == |results|
    ensures sumArray.None? <==> numImages == 0
    ensures sumArray.Some? ==> sumArray.value == SumOf(Successes(results))
  {
    sumArray, numImages, skippedFiles := None, 0, 0;
    for i := 0 to |results|
      invariant Uniform(Successes(results[..i]))
      invariant numImages == |Successes(results[..i])|
      invariant skippedFiles == SkippedCount(results[..i])
      invariant sumArray.None? <==> numImages == 0
      invariant sumArray.Some? ==> sumArray.value == SumOf(Successes(results[..i]))
    {
      ghost var done := Successes(results[..i]);
      FoldStep(results, i);
      SuccessesPrefix(results, i + 1);
      UniformOfPrefix(Successes(results), Successes(results[..i + 1]));
      if results[i].Skipped? {
        assert Successes(results[..i + 1]) == done;
        skippedFiles := skippedFiles + 1;
      } else {
        var currentArray := results[i].eventMap;
        AddToUniform(done, currentArray);
        assert Successes(results[..i + 1]) == done + [currentArray];
        if sumArray.None? {
          assert SumOf(done + [currentArray]) == currentArray;
          sumArray := Some(currentArray);
        } else {
          SumOfSnoc(done, currentArray);
          sumArray := Some(Add(sumArray.value, currentArray));
        }
        numImages := numImages + 1;
      }
    }
    assert results[..|results|] == results;
    SuccessesAndSkippedCoverAll(results);
  }

  /** How one more result extends the successes and the skipped count. */
  lemma FoldStep(rs: seq<ImageResult>, i: nat)
    requires i < |rs|
    ensures Successes(rs[..i + 1]) == Successes(rs[..i]) + (if rs[i].Processed? then [rs[i].eventMap] else [])
    ensures SkippedCount(rs[..i + 1]) == SkippedCount(rs[..i]) + (if rs[i].Skipped? then 1 else 0)
  {
    var pre := rs[..i + 1];
    assert pre[..|pre| - 1] == rs[..i];
    assert pre[|pre| - 1] == rs[i];
  }

  lemma UniformOfPrefix(all: seq<Grid>, ms: seq<Grid>)
    requires Uniform(all) && ms <= all
    ensures Uniform(ms)
  {
    assert forall k :: 0 <= k < |ms| ==> ms[k] == all[k];
  }

  /** A map that extends a uniform list keeping it uniform has the list's shape. */
  lemma AddToUniform(done: seq<Grid>, m: Grid)
    requires Uniform(done + [m])
    ensures IsRect(m) && (|done| > 0 ==> SameShape(m, done[0]))
    ensures |done| == 0 ==> done + [m] == [m]
  {
    assert (done + [m])[|done|] == m;
    if |done| > 0 {
      assert (done + [m])[0] == done[0];
    }
  }

  lemma {:induction false} SuccessesPrefix(rs: seq<ImageResult>, k: nat)
    requires k <= |rs|
    ensures Successes(rs[..k]) <= Successes(rs)
    decreases |rs| - k
  {
    if k < |rs| {
      SuccessesPrefix(rs, k + 1);
      assert rs[..k + 1][..k] == rs[..k];
    } else {
      assert rs[..k] == rs;
    }
  }

  /** The results of the `.bmp` files, in order. */
  function Results(files: seq<FileEntry>): (rs: seq<ImageResult>)
    requires forall f :: f in files && IsBmp(f.name) ==> WellFormed(f.decoded)
    ensures |rs| == |BmpFiles(files)|
  {
    var bmps := BmpFiles(files);
    seq(|bmps|, k requires 0 <= k < |bmps| => ResultOf(bmps[k].decoded))
  }

  /**
   * Every `.bmp` file that decodes gives a frame of one common shape (numpy
   * cannot add maps of different shapes).
   */
  predicate OneShape(files: seq<FileEntry>)
  {
    forall f, f' :: f in files && f' in files && IsBmp(f.name) && IsBmp(f'.name) && f.decoded.Image? && f'.decoded.Image? ==>
      IsRect(f.decoded.pixels) && SameShape(f.decoded.pixels, f'.decoded.pixels)
  }

  /** Each processed map has the shape of every decodable `.bmp` frame. */
  lemma ShapeOfSuccess(files: seq<FileEntry>, m: Grid)
    requires OneShape(files)
    requires forall f :: f in files && IsBmp(f.name) ==> WellFormed(f.decoded)
    requires m in Successes(Results(files))
    ensures IsRect(m)
    ensures forall f :: f in files && IsBmp(f.name) && f.decoded.Image? ==> SameShape(m, f.decoded.pixels)
  {
    var rs := Results(files);
    var bmps := BmpFiles(files);
    SuccessesMembers(rs, m);
    var k :| 0 <= k < |rs| && rs[k] == Processed(m);
    assert bmps[k] in bmps;
  }

  lemma ResultsUniform(files: seq<FileEntry>)
    requires OneShape(files)
    ensures forall f :: f in files && IsBmp(f.name) ==> WellFormed(f.decoded)
    ensures Uniform(Successes(Results(files)))
  {
    var ms := Successes(Results(files));
    forall k | 0 <= k < |ms|
      ensures IsRect(ms[k]) && SameShape(ms[k], ms[0])
    {
      ShapeOfSuccess(files, ms[k]);
      ShapeOfSuccess(files, ms[0]);
      var rs := Results(files);
      SuccessesMembers(rs, ms[0]);
      var j :| 0 <= j < |rs| && rs[j] == Processed(ms[0]);
      var f := BmpFiles(files)[j];
      assert f in BmpFiles(files);
    }
  }

  /**
   * `process_images_in_folder`: keep the `.bmp` files, process each, and
   * fold the results; returns the sum (None when nothing was processed),
   * the number of processed images and the number of skipped files.
   */
  method ProcessImagesInFolder(files: seq<FileEntry>) returns (sumArray: Option<Grid>, numImages: nat, skippedFiles: nat)
    requires OneShape(files)
    ensures forall f :: f in files && IsBmp(f.name) ==> WellFormed(f.decoded)
    ensures Uniform(Successes(Results(files)))
    ensures numImages == |Successes(Results(files))|
    ensures skippedFiles + numImages == |BmpFiles(files)|
    ensures sumArray.None? <==> numImages == 0
    ensures sumArray.Some? ==> sumArray.value == SumOf(Successes(Results(files)))
  {
    ResultsUniform(files);
    var allFiles := BmpFiles(files);
    var results: seq<ImageResult> := [];
    for i := 0 to |allFiles|
      invariant results == Results(files)[..i]
    {
      var r := ProcessSingleImage(allFiles[i].decoded);
      results := results + [r];
    }
    assert results == Results(files);
    sumArray, numImages, skippedFiles := FoldResults(results);
  }

  /** `subtract_arrays`: elementwise `a - b`, the map that added to `b` gives back `a`. */
  function SubtractArrays(a: Grid, b: Grid): (d: Grid)
    requires IsRect(a) && IsRect(b) && SameShape(a, b)
    ensures IsRect(d) && SameShape(d, a)
    ensures Add(d, b) == a
  {
    var d := seq(|a|, i requires 0 <= i < |a| => seq(Width(a), j requires 0 <= j < Width(a) => a[i][j] - b[i][j]));
    GridExt(Add(d, b), a);
    d
  }
}
