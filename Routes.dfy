/**
 * The endpoints of `preprocessing_routes.py`: each looks the image up under
 * `/images`, answers 404 if there is nothing there, and otherwise runs one
 * stage (or, for `/preprocess-for-ocr`, five stages in a row), turning any
 * exception into a 500.
 */
module Routes {
  import opened Wrappers
  import opened Paths
  import opened Preprocess

  /** `IMAGE_DIR`. */
  const ImageDir := "/images"

  /** The endpoints that run a single stage, with their query parameter. */
  datatype Endpoint =
    | GrayscaleEndpoint
    | ThresholdingEndpoint(kind: string)
    | RemoveNoiseEndpoint(kind: string)
    | MorphologyEndpoint(order: string)
    | DeskewEndpoint
    | InvertColorsEndpoint
    | EqualizeHistEndpoint

  /** The defaults of the query parameters. */
  const DefaultThresholdingQuery := "global"
  const DefaultNoiseRemovalQuery := "Median"
  const DefaultMorphologyQuery := "1"

  /** The stage an endpoint calls; the mode is passed on unchanged. */
  function EndpointOp(e: Endpoint): Op {
    match e
    case GrayscaleEndpoint => Grayscale
    case ThresholdingEndpoint(kind) => Thresholding(kind)
    case RemoveNoiseEndpoint(kind) => RemoveNoise(kind)
    case MorphologyEndpoint(order) => Morphology(order)
    case DeskewEndpoint => Deskew
    case InvertColorsEndpoint => Invert
    case EqualizeHistEndpoint => Equalize
  }

  function SuccessMessage(e: Endpoint): string {
    match e
    case GrayscaleEndpoint => "Grayscale conversion successful"
    case ThresholdingEndpoint(_) => "Thresholding successful"
    case RemoveNoiseEndpoint(_) => "Noise removal successful"
    case MorphologyEndpoint(_) => "Morphology successful"
    case DeskewEndpoint => "Deskewing successful"
    case InvertColorsEndpoint => "Color inversion successful"
    case EqualizeHistEndpoint => "Histogram equalization successful"
  }

  /** The `detail` of an `HTTPException`: a fixed text, or a prefix followed
      by `str()` of the exception caught. */
  datatype Detail = Text(text: string) | Raised(prefix: string, cause: Error)

  /** The JSON body of a success, or the status code and detail of the
      `HTTPException` raised. */
  datatype Response =
    | Success(message: string, processedImagePath: string)
    | HttpError(statusCode: int, detail: Detail)

  const NotFound := HttpError(404, Text("Image not found"))
  const StageFailure := "Failed to process the image: "
  const OcrFailure := "Failed to preprocess the image: "
  const OcrSuccess := "Preprocessing for OCR successful"

  // ---------------------------------------------------------------------
  // The single-stage endpoints

  /** A single-stage endpoint called with `image_name`. */
  function Handle(e: Endpoint, imageName: string, d: Disk, rejected: bool): (Response, Disk) {
    var imagePath := Join(ImageDir, imageName);
    if !d.Exists(imagePath) then (NotFound, d)
    else
      var (r, d1) := Stage(EndpointOp(e), imagePath, d, rejected);
      match r
      case Ok(p) => (Success(SuccessMessage(e), p), d1)
      case Err(err) => (HttpError(500, Raised(StageFailure, err)), d1)
  }

  method Serve(fs: FileSystem, e: Endpoint, imageName: string, rejected: bool) returns (resp: Response)
    modifies fs
    ensures (resp, fs.State()) == Handle(e, imageName, old(fs.State()), rejected)
  {
    var imagePath := Join(ImageDir, imageName);
    var found := fs.Exists(imagePath);
    if !found {
      return NotFound;
    }
    var r := RunStage(fs, EndpointOp(e), imagePath, rejected);
    match r
    case Ok(p) => resp := Success(SuccessMessage(e), p);
    case Err(err) => resp := HttpError(500, Raised(StageFailure, err));
  }

  // ---------------------------------------------------------------------
  // The OCR pipeline

  /** The stages of `preprocess_for_ocr`, in order. */
  const OcrStages := [Grayscale, Thresholding("adaptive"), RemoveNoise("Median"), Deskew, Invert]

  /** Whether OpenCV refuses the image handed to stage `i`. */
  function Refused(rejected: seq<bool>, i: nat): bool {
    i < |rejected| && rejected[i]
  }

  /** The stages of `ops` from position `i` on, run one after the other,
      each on the path the previous one returned, stopping at the first that
      raises. */
  function RunFrom(ops: seq<Op>, i: nat, input: string, d: Disk, rejected: seq<bool>): (Result<string, Error>, Disk)
    decreases |ops| - i
  {
    if i >= |ops| then (Ok(input), d)
    else
      var (r, d1) := Stage(ops[i], input, d, Refused(rejected, i));
      if r.Err? then (r, d1)
      else RunFrom(ops, i + 1, r.value, d1, rejected)
  }

  function RunStages(ops: seq<Op>, input: string, d: Disk, rejected: seq<bool>): (Result<string, Error>, Disk) {
    RunFrom(ops, 0, input, d, rejected)
  }

  /** `preprocess_for_ocr` called with `image_name`. */
  function Ocr(imageName: string, d: Disk, rejected: seq<bool>): (Response, Disk) {
    var imagePath := Join(ImageDir, imageName);
    if !d.Exists(imagePath) then (NotFound, d)
    else
      var (r, d1) := RunStages(OcrStages, imagePath, d, rejected);
      match r
      case Ok(p) => (Success(OcrSuccess, p), d1)
      case Err(err) => (HttpError(500, Raised(OcrFailure, err)), d1)
  }

  /** Stage `i` returned `r` and left `d1`: the run from `i` on is decided
      by it, or by the rest of the run from `i + 1`. */
  lemma PipelineStep(ops: seq<Op>, i: nat, input: string, d: Disk, rejected: seq<bool>, r: Result<string, Error>, d1: Disk)
    requires i < |ops|
    requires (r, d1) == Stage(ops[i], input, d, Refused(rejected, i))
    ensures RunFrom(ops, i, input, d, rejected)
            == if r.Err? then (r, d1) else RunFrom(ops, i + 1, r.value, d1, rejected)
  {
  }

  /** The body of the `try` block of `preprocess_for_ocr`: the five stage
      calls, each on the path the previous one returned; the first exception
      ends the block. */
  method OcrSteps(fs: FileSystem, imagePath: string, rejected: seq<bool>) returns (r: Result<string, Error>)
    modifies fs
    ensures (r, fs.State()) == RunStages(OcrStages, imagePath, old(fs.State()), rejected)
  {
    assert OcrStages[0] == Grayscale && OcrStages[1] == Thresholding("adaptive")
        && OcrStages[2] == RemoveNoise("Median") && OcrStages[3] == Deskew && OcrStages[4] == Invert
        && |OcrStages| == 5;
    ghost var d: Disk;
    d := fs.State();
    var grayscaleImagePath := ConvertToGrayscale(fs, imagePath, Refused(rejected, 0));
    PipelineStep(OcrStages, 0, imagePath, d, rejected, grayscaleImagePath, fs.State());
    if grayscaleImagePath.Err? {
      return grayscaleImagePath;
    }
    d := fs.State();
    var thresholdedImagePath := AddThresholding(fs, grayscaleImagePath.value, "adaptive", Refused(rejected, 1));
    PipelineStep(OcrStages, 1, grayscaleImagePath.value, d, rejected, thresholdedImagePath, fs.State());
    if thresholdedImagePath.Err? {
      return thresholdedImagePath;
    }
    d := fs.State();
    var denoisedImagePath := RemoveNoiseStage(fs, thresholdedImagePath.value, "Median", Refused(rejected, 2));
    PipelineStep(OcrStages, 2, thresholdedImagePath.value, d, rejected, denoisedImagePath, fs.State());
    if denoisedImagePath.Err? {
      return denoisedImagePath;
    }
    d := fs.State();
    var deskewedImagePath := DeskewImage(fs, denoisedImagePath.value, Refused(rejected, 3));
    PipelineStep(OcrStages, 3, denoisedImagePath.value, d, rejected, deskewedImagePath, fs.State());
    if deskewedImagePath.Err? {
      return deskewedImagePath;
    }
    d := fs.State();
    var finalImagePath := InvertColors(fs, deskewedImagePath.value, Refused(rejected, 4));
    PipelineStep(OcrStages, 4, deskewedImagePath.value, d, rejected, finalImagePath, fs.State());
    return finalImagePath;
  }

  /** `preprocess_for_ocr`. */
  method PreprocessForOcr(fs: FileSystem, imageName: string, rejected: seq<bool>) returns (resp: Response)
    modifies fs
    ensures (resp, fs.State()) == Ocr(imageName, old(fs.State()), rejected)
  {
    var imagePath := Join(ImageDir, imageName);
    var found := fs.Exists(imagePath);
    if !found {
      return NotFound;
    }
    var r := OcrSteps(fs, imagePath, rejected);
    match r
    case Ok(finalImagePath) => resp := Success(OcrSuccess, finalImagePath);
    case Err(e) => resp := HttpError(500, Raised(OcrFailure, e));
  }

  // ---------------------------------------------------------------------
  // What the client sees

  /** The `detail` text, where the exception's text is known. */
  function DetailText(detail: Detail): (t: Option<string>)
    ensures detail.Text? ==> t == Some(detail.text)
    ensures detail.Raised? ==> (t.Some? <==> !detail.cause.CvError?)
  {
    match detail
    case Text(text) => Some(text)
    case Raised(prefix, ValueError(message)) => Some(prefix + message)
    case Raised(prefix, NameError(name)) => Some(prefix + ("name '" + name + "' is not defined"))
    case Raised(_, CvError) => None
  }

  /** The query defaults are the stage defaults, which the stages accept. */
  lemma QueryDefaults()
    ensures EndpointOp(ThresholdingEndpoint(DefaultThresholdingQuery)) == Thresholding(DefaultThresholding)
    ensures EndpointOp(RemoveNoiseEndpoint(DefaultNoiseRemovalQuery)) == RemoveNoise(DefaultNoiseRemoval)
    ensures EndpointOp(MorphologyEndpoint(DefaultMorphologyQuery)) == Morphology(DefaultMorphology)
  {
  }

  /** A single-stage endpoint answers 404 exactly when nothing exists at
      `/images/<image_name>`, and then runs no stage. */
  lemma HandleNotFound(e: Endpoint, imageName: string, d: Disk, rejected: bool)
    ensures Handle(e, imageName, d, rejected).0 == NotFound <==> !d.Exists(Join(ImageDir, imageName))
    ensures !d.Exists(Join(ImageDir, imageName)) ==> Handle(e, imageName, d, rejected).1 == d
  {
  }

  /** Past the existence check, the endpoint succeeds exactly when its stage
      does, and reports the stage's output path; otherwise it answers 500
      with the stage's exception. */
  lemma HandleOutcome(e: Endpoint, imageName: string, d: Disk, rejected: bool)
    requires d.Exists(Join(ImageDir, imageName))
    ensures var imagePath := Join(ImageDir, imageName);
            var (r, d1) := Stage(EndpointOp(e), imagePath, d, rejected);
            Handle(e, imageName, d, rejected)
            == if r.Ok? then (Success(SuccessMessage(e), r.value), d1)
               else (HttpError(500, Raised(StageFailure, r.error)), d1)
    ensures var op := EndpointOp(e);
            Handle(e, imageName, d, rejected).0.Success?
            <==> ModeAccepted(op) && Join(ImageDir, imageName) in d.files && !rejected
    ensures Handle(e, imageName, d, rejected).0.Success? ==>
              Handle(e, imageName, d, rejected).0.processedImagePath
              == StageDir(EndpointOp(e)) + "/" + Prefix(EndpointOp(e)) + Basename(imageName)
  {
    var imagePath := Join(ImageDir, imageName);
    StageSuccess(EndpointOp(e), imagePath, d, rejected);
    OutputPathShape(EndpointOp(e), imagePath);
    BasenameJoin(ImageDir, imageName);
  }

  /** A mode the stage does not accept comes back as a 500 carrying the
      stage's `ValueError`, not as a 400. */
  lemma HandleInvalidMode(e: Endpoint, imageName: string, d: Disk, rejected: bool)
    requires d.Exists(Join(ImageDir, imageName)) && !ModeAccepted(EndpointOp(e))
    ensures Handle(e, imageName, d, rejected).0
         == HttpError(500, Raised(StageFailure, ValueError(ModeMessage(EndpointOp(e)))))
    ensures Handle(e, imageName, d, rejected).1.files == d.files
  {
    StageModeError(EndpointOp(e), Join(ImageDir, imageName), d, rejected);
  }

  /** A directory under `/images` passes the existence check, but OpenCV
      reads no image from it, so `/grayscale` fails on the missing import. */
  lemma GrayscaleOnDirectory(imageName: string, d: Disk, rejected: bool)
    requires Join(ImageDir, imageName) in d.dirs - d.files
    ensures Handle(GrayscaleEndpoint, imageName, d, rejected).0
         == HttpError(500, Raised(StageFailure, NameError("HTTPException")))
    ensures DetailText(Handle(GrayscaleEndpoint, imageName, d, rejected).0.detail)
         == Some(StageFailure + "name 'HTTPException' is not defined")
  {
    GrayscaleMissing(Join(ImageDir, imageName), d, rejected);
    NameErrorText();
  }

  lemma NameErrorText()
    ensures "name '" + "HTTPException" + "' is not defined" == "name 'HTTPException' is not defined"
  {
    assert "name '" + "HTTPException" == "name 'HTTPException";
  }

  // ---------------------------------------------------------------------
  // The pipeline

  /** The path a run of stages, from stage `i` on, returns when none raises. */
  function PathAfter(ops: seq<Op>, i: nat, input: string): string
    decreases |ops| - i
  {
    if i < |ops| then PathAfter(ops, i + 1, OutputPath(ops[i], input)) else input
  }

  lemma {:induction false} RunFromPath(ops: seq<Op>, i: nat, input: string, d: Disk, rejected: seq<bool>)
    ensures RunFrom(ops, i, input, d, rejected).0.Ok? ==>
              RunFrom(ops, i, input, d, rejected).0.value == PathAfter(ops, i, input)
    decreases |ops| - i
  {
    if i < |ops| {
      var (r, d1) := Stage(ops[i], input, d, Refused(rejected, i));
      StageSuccess(ops[i], input, d, Refused(rejected, i));
      PipelineStep(ops, i, input, d, rejected, r, d1);
      if r.Ok? {
        RunFromPath(ops, i + 1, r.value, d1, rejected);
      }
    }
  }

  /** A successful run returns the path every stage's naming rule predicts. */
  lemma RunStagesPath(ops: seq<Op>, input: string, d: Disk, rejected: seq<bool>)
    ensures RunStages(ops, input, d, rejected).0.Ok? ==>
              RunStages(ops, input, d, rejected).0.value == PathAfter(ops, 0, input)
  {
    RunFromPath(ops, 0, input, d, rejected);
  }

  lemma {:induction false} RunFromStops(ops: seq<Op>, k: nat, i: nat, input: string, d: Disk, rejected: seq<bool>)
    requires i <= k <= |ops|
    requires RunFrom(ops[..k], i, input, d, rejected).0.Err?
    ensures RunFrom(ops, i, input, d, rejected) == RunFrom(ops[..k], i, input, d, rejected)
    decreases k - i
  {
    var prefix := ops[..k];
    assert |prefix| == k && prefix[i] == ops[i];
    var step := Stage(ops[i], input, d, Refused(rejected, i));
    PipelineStep(ops, i, input, d, rejected, step.0, step.1);
    PipelineStep(prefix, i, input, d, rejected, step.0, step.1);
    if step.0.Ok? {
      assert RunFrom(prefix, i + 1, step.0.value, step.1, rejected) == RunFrom(prefix, i, input, d, rejected);
      RunFromStops(ops, k, i + 1, step.0.value, step.1, rejected);
    }
  }

  /** Once a stage raises, no later stage runs: the run of all the stages
      ends exactly as the run of the stages up to the one that raised. */
  lemma RunStagesStops(ops: seq<Op>, k: nat, input: string, d: Disk, rejected: seq<bool>)
    requires k <= |ops|
    requires RunStages(ops[..k], input, d, rejected).0.Err?
    ensures RunStages(ops, input, d, rejected) == RunStages(ops[..k], input, d, rejected)
  {
    RunFromStops(ops, k, 0, input, d, rejected);
  }

  lemma {:induction false} RunFromGrows(ops: seq<Op>, i: nat, input: string, d: Disk, rejected: seq<bool>)
    ensures d.files <= RunFrom(ops, i, input, d, rejected).1.files
    ensures d.dirs <= RunFrom(ops, i, input, d, rejected).1.dirs
    decreases |ops| - i
  {
    if i < |ops| {
      var (r, d1) := Stage(ops[i], input, d, Refused(rejected, i));
      StageFiles(ops[i], input, d, Refused(rejected, i));
      StageDirs(ops[i], input, d, Refused(rejected, i));
      if r.Ok? {
        RunFromGrows(ops, i + 1, r.value, d1, rejected);
      }
    }
  }

  /** No single-stage endpoint removes a file or a directory. */
  lemma HandleNothingRemoved(e: Endpoint, imageName: string, d: Disk, rejected: bool)
    ensures d.files <= Handle(e, imageName, d, rejected).1.files
    ensures d.dirs <= Handle(e, imageName, d, rejected).1.dirs
  {
    var imagePath := Join(ImageDir, imageName);
    StageFiles(EndpointOp(e), imagePath, d, rejected);
    StageDirs(EndpointOp(e), imagePath, d, rejected);
  }

  /** Nor does the OCR endpoint. */
  lemma OcrNothingRemoved(imageName: string, d: Disk, rejected: seq<bool>)
    ensures d.files <= Ocr(imageName, d, rejected).1.files
    ensures d.dirs <= Ocr(imageName, d, rejected).1.dirs
  {
    RunFromGrows(OcrStages, 0, Join(ImageDir, imageName), d, rejected);
  }

  /** The file name the OCR pipeline gives its result. */
  const OcrPrefix := "inverted_deskewed_no_noise_thresh_gray_"

  /** The five output paths of the OCR pipeline, one inside the next. */
  lemma OcrPathUnfold(input: string)
    ensures PathAfter(OcrStages, 0, input)
         == OutputPath(Invert, OutputPath(Deskew, OutputPath(RemoveNoise("Median"),
              OutputPath(Thresholding("adaptive"), OutputPath(Grayscale, input)))))
  {
    assert OcrStages[0] == Grayscale && OcrStages[1] == Thresholding("adaptive")
        && OcrStages[2] == RemoveNoise("Median") && OcrStages[3] == Deskew && OcrStages[4] == Invert
        && |OcrStages| == 5;
  }

  /** Each stage puts its prefix before the last; the result lands in the
      directory of the last stage. */
  lemma OcrPath(input: string)
    ensures PathAfter(OcrStages, 0, input) == "/images/inverted/" + OcrPrefix + Basename(input)
  {
    var b := Basename(input);
    var p1 := OutputPath(Grayscale, input);
    var p2 := OutputPath(Thresholding("adaptive"), p1);
    var p3 := OutputPath(RemoveNoise("Median"), p2);
    var p4 := OutputPath(Deskew, p3);
    OcrPathUnfold(input);
    OutputPathShape(Grayscale, input);
    OutputPathShape(Thresholding("adaptive"), p1);
    OutputPathShape(RemoveNoise("Median"), p2);
    OutputPathShape(Deskew, p3);
    OutputPathShape(Invert, p4);
    PrefixChain(b);
  }

  lemma PrefixChain(b: string)
    ensures StageDir(Invert) + "/" + Prefix(Invert)
            + (Prefix(Deskew) + (Prefix(RemoveNoise("Median")) + (Prefix(Thresholding("adaptive")) + (Prefix(Grayscale) + b))))
         == "/images/inverted/" + OcrPrefix + b
  {
    StageDirShape(Invert);
    assert StageDir(Invert) + "/" == "/images/inverted/";
    OcrPrefixParts();
    Regroup("/images/inverted/", Prefix(Invert), Prefix(Deskew), Prefix(RemoveNoise("Median")),
            Prefix(Thresholding("adaptive")), Prefix(Grayscale), b);
  }

  lemma OcrPrefixParts()
    ensures "inverted_" + "deskewed_" + "no_noise_" + "thresh_" + "gray_" == OcrPrefix
  {
    assert "inverted_" + "deskewed_" == "inverted_deskewed_";
    assert "inverted_deskewed_" + "no_noise_" == "inverted_deskewed_no_noise_";
    assert "inverted_deskewed_no_noise_" + "thresh_" == "inverted_deskewed_no_noise_thresh_";
  }

  lemma Regroup(dir: string, p1: string, p2: string, p3: string, p4: string, p5: string, b: string)
    ensures dir + p1 + (p2 + (p3 + (p4 + (p5 + b)))) == dir + (p1 + p2 + p3 + p4 + p5) + b
  {
  }

  /** A successful OCR run reports `/images/inverted/inverted_deskewed_no_noise_thresh_gray_`
      followed by the image's file name. */
  lemma OcrSuccessPath(imageName: string, d: Disk, rejected: seq<bool>)
    ensures Ocr(imageName, d, rejected).0.Success? ==>
              Ocr(imageName, d, rejected).0
              == Success(OcrSuccess, "/images/inverted/" + OcrPrefix + Basename(imageName))
  {
    var imagePath := Join(ImageDir, imageName);
    RunStagesPath(OcrStages, imagePath, d, rejected);
    OcrPath(imagePath);
    BasenameJoin(ImageDir, imageName);
  }

  /** The OCR endpoint answers 404 exactly when nothing exists at
      `/images/<image_name>`, and then runs no stage. */
  lemma OcrNotFound(imageName: string, d: Disk, rejected: seq<bool>)
    ensures Ocr(imageName, d, rejected).0 == NotFound <==> !d.Exists(Join(ImageDir, imageName))
    ensures !d.Exists(Join(ImageDir, imageName)) ==> Ocr(imageName, d, rejected).1 == d
  {
  }

  /** When stage `k` of the OCR pipeline raises, the client gets a 500
      carrying that exception, and the disk is as that stage left it. */
  lemma OcrStops(imageName: string, d: Disk, rejected: seq<bool>, k: nat)
    requires k <= |OcrStages| && d.Exists(Join(ImageDir, imageName))
    requires RunStages(OcrStages[..k], Join(ImageDir, imageName), d, rejected).0.Err?
    ensures var (r, d1) := RunStages(OcrStages[..k], Join(ImageDir, imageName), d, rejected);
            Ocr(imageName, d, rejected) == (HttpError(500, Raised(OcrFailure, r.error)), d1)
  {
    RunStagesStops(OcrStages, k, Join(ImageDir, imageName), d, rejected);
  }

  // ---------------------------------------------------------------------
  // The OCR pipeline on a disk without the stage directories

  lemma GrayscaleThresholdingApart()
    ensures StageDir(Grayscale) != StageDir(Thresholding("adaptive"))
  {
    DirectoryNamesUnderImages();
    assert |StageDir(Grayscale)| != |StageDir(Thresholding("adaptive"))|;
  }

  lemma GrayscaleKeepsThresholdingAbsent(input: string, d: Disk, rejected: bool)
    requires StageDir(Thresholding("adaptive")) !in d.dirs
    ensures StageDir(Thresholding("adaptive")) !in Stage(Grayscale, input, d, rejected).1.dirs
  {
    StageDirs(Grayscale, input, d, rejected);
    StageDirShape(Thresholding("adaptive"));
    GrayscaleThresholdingApart();
  }

  lemma ThresholdingWritesNothing(input: string, d: Disk, rejected: bool)
    requires StageDir(Thresholding("adaptive")) !in d.dirs
    requires OutputPath(Thresholding("adaptive"), input) !in d.files
    ensures OutputPath(Thresholding("adaptive"), input) !in Stage(Thresholding("adaptive"), input, d, rejected).1.files
  {
    StageFiles(Thresholding("adaptive"), input, d, rejected);
  }

  /** What grayscale leaves behind when it succeeds: its output, but still
      no thresholding directory and no thresholded image. */
  lemma AfterGrayscale(input: string, d: Disk, rejected: bool)
    requires StageDir(Thresholding("adaptive")) !in d.dirs
    requires OutputPath(Thresholding("adaptive"), OutputPath(Grayscale, input)) !in d.files
    requires Stage(Grayscale, input, d, rejected).0.Ok?
    ensures var d1 := Stage(Grayscale, input, d, rejected).1;
            && Stage(Grayscale, input, d, rejected).0.value == OutputPath(Grayscale, input)
            && OutputPath(Grayscale, input) in d1.files
            && StageDir(Thresholding("adaptive")) !in d1.dirs
            && OutputPath(Thresholding("adaptive"), OutputPath(Grayscale, input)) !in d1.files
  {
    var p1 := OutputPath(Grayscale, input);
    StageSuccess(Grayscale, input, d, rejected);
    StageFiles(Grayscale, input, d, rejected);
    GrayscaleKeepsThresholdingAbsent(input, d, rejected);
    GrayscaleThresholdingApart();
    OutputPathShape(Grayscale, input);
    OutputPathShape(Thresholding("adaptive"), p1);
  }

  lemma DenoiseReadsNothing(input: string, d: Disk, rejected: bool)
    requires input !in d.files
    ensures Stage(RemoveNoise("Median"), input, d, rejected).0 == Err(CvError)
  {
  }

  /** Only the grayscale stage creates its own directory. Without
      `/images/thresholding`, the thresholded image is never written, so
      the denoising stage reads nothing and OpenCV raises: the OCR endpoint
      never succeeds on such a disk. */
  lemma OcrFreshDisk(imageName: string, d: Disk, rejected: seq<bool>)
    requires StageDir(Thresholding("adaptive")) !in d.dirs
    requires OutputPath(Thresholding("adaptive"), OutputPath(Grayscale, Join(ImageDir, imageName))) !in d.files
    ensures !Ocr(imageName, d, rejected).0.Success?
    ensures Join(ImageDir, imageName) in d.files && !Refused(rejected, 0) && !Refused(rejected, 1) ==>
              Ocr(imageName, d, rejected).0 == HttpError(500, Raised(OcrFailure, CvError))
  {
    assert OcrStages[0] == Grayscale && OcrStages[1] == Thresholding("adaptive")
        && OcrStages[2] == RemoveNoise("Median") && |OcrStages| == 5;
    var imagePath := Join(ImageDir, imageName);
    var s0 := Stage(Grayscale, imagePath, d, Refused(rejected, 0));
    PipelineStep(OcrStages, 0, imagePath, d, rejected, s0.0, s0.1);
    StageSuccess(Grayscale, imagePath, d, Refused(rejected, 0));
    if s0.0.Ok? {
      var p1 := s0.0.value;
      AfterGrayscale(imagePath, d, Refused(rejected, 0));
      var s1 := Stage(Thresholding("adaptive"), p1, s0.1, Refused(rejected, 1));
      PipelineStep(OcrStages, 1, p1, s0.1, rejected, s1.0, s1.1);
      StageSuccess(Thresholding("adaptive"), p1, s0.1, Refused(rejected, 1));
      if s1.0.Ok? {
        ThresholdingWritesNothing(p1, s0.1, Refused(rejected, 1));
        var s2 := Stage(RemoveNoise("Median"), s1.0.value, s1.1, Refused(rejected, 2));
        DenoiseReadsNothing(s1.0.value, s1.1, Refused(rejected, 2));
        PipelineStep(OcrStages, 2, s1.0.value, s1.1, rejected, s2.0, s2.1);
      }
    }
  }
}
