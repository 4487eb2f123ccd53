/**
 * The image stages of `classes/preprocess.py`, with the pixels left out.
 * Each stage reads an image from a path, creates a directory, checks its
 * mode argument where it has one, runs an OpenCV operation and writes the
 * result under a derived name, returning that name. What the model keeps is
 * the effect of each stage on the file system and the path it hands back.
 */
module Preprocess {
  import opened Wrappers
  import opened Paths

  // ---------------------------------------------------------------------
  // The file system

  /** The paths that hold a readable image, and the directories. */
  datatype Disk = Disk(files: set<string>, dirs: set<string>) {
    /** `os.path.exists`. */
    predicate Exists(p: string) {
      p in files || p in dirs
    }

    /** `os.makedirs(p, exist_ok=True)`. */
    function MakeDirs(p: string): (d: Disk)
      ensures d.files == files
      ensures d.dirs == dirs + Lineage(p)
    {
      Disk(files, dirs + Lineage(p))
    }

    /** `cv2.imwrite(p, image)`: the file appears when its directory exists;
        otherwise OpenCV reports failure by its return value, which no stage
        looks at, and nothing changes. */
    function Write(p: string): (d: Disk)
      ensures d.dirs == dirs
      ensures d.files == if Dirname(p) in dirs then files + {p} else files
    {
      if Dirname(p) in dirs then Disk(files + {p}, dirs) else this
    }
  }

  /** The file system as the stages see it, changed in place. */
  class FileSystem {
    var files: set<string>
    var dirs: set<string>

    function State(): Disk
      reads this
    {
      Disk(files, dirs)
    }

    constructor(d: Disk)
      ensures State() == d
    {
      files := d.files;
      dirs := d.dirs;
    }

    method Exists(p: string) returns (b: bool)
      ensures b == State().Exists(p)
    {
      b := p in files || p in dirs;
    }

    /** `cv2.imread(p) is not None`. */
    method ImRead(p: string) returns (loaded: bool)
      ensures loaded == (p in files)
    {
      loaded := p in files;
    }

    method MakeDirs(p: string)
      modifies this
      ensures State() == old(State()).MakeDirs(p)
    {
      dirs := dirs + Lineage(p);
    }

    method ImWrite(p: string) returns (ok: bool)
      modifies this
      ensures ok == (Dirname(p) in old(dirs))
      ensures State() == old(State()).Write(p)
    {
      ok := Dirname(p) in dirs;
      if ok {
        files := files + {p};
      }
    }
  }

  // ---------------------------------------------------------------------
  // The directory table

  const ImagesDir := "/images"

  /** `directory_names`. */
  const DirectoryNames: map<string, string> := map[
    "images" := "/images",
    "preprocessed" := "/images/preprocessed",
    "bounding" := "/images/bounding",
    "processing" := "/images/processing",
    "grayscale" := "/images/grayscale",
    "thresholding" := "/images/thresholding",
    "no_noise" := "/images/no_noise",
    "morphology" := "/images/morphology",
    "deskew" := "/images/deskew",
    "edge_detection" := "/images/edge_detection",
    "contours" := "/images/contours",
    "inverted" := "/images/inverted",
    "equalized" := "/images/equalized"
  ]

  lemma WorkDirectories()
    ensures forall k :: k in {"preprocessed", "bounding", "processing"} ==> DirectoryNames[k] == ImagesDir + "/" + k
  {
    assert DirectoryNames["preprocessed"] == ImagesDir + "/" + "preprocessed";
    assert DirectoryNames["bounding"] == ImagesDir + "/" + "bounding";
    assert DirectoryNames["processing"] == ImagesDir + "/" + "processing";
  }

  lemma FirstStageDirectories()
    ensures forall k :: k in {"grayscale", "thresholding", "no_noise"} ==> DirectoryNames[k] == ImagesDir + "/" + k
  {
    assert DirectoryNames["grayscale"] == ImagesDir + "/" + "grayscale";
    assert DirectoryNames["thresholding"] == ImagesDir + "/" + "thresholding";
    assert DirectoryNames["no_noise"] == ImagesDir + "/" + "no_noise";
  }

  lemma MiddleStageDirectories()
    ensures forall k :: k in {"morphology", "deskew", "edge_detection"} ==> DirectoryNames[k] == ImagesDir + "/" + k
  {
    assert DirectoryNames["morphology"] == ImagesDir + "/" + "morphology";
    assert DirectoryNames["deskew"] == ImagesDir + "/" + "deskew";
    assert DirectoryNames["edge_detection"] == ImagesDir + "/" + "edge_detection";
  }

  lemma LastStageDirectories()
    ensures forall k :: k in {"contours", "inverted", "equalized"} ==> DirectoryNames[k] == ImagesDir + "/" + k
  {
    assert DirectoryNames["contours"] == ImagesDir + "/" + "contours";
    assert DirectoryNames["inverted"] == ImagesDir + "/" + "inverted";
    assert DirectoryNames["equalized"] == ImagesDir + "/" + "equalized";
  }

  /** Every directory of the table is the subdirectory of `/images` named
      after its key, except the entry for `/images` itself. */
  lemma DirectoryNamesUnderImages()
    ensures DirectoryNames["images"] == ImagesDir
    ensures forall k :: k in DirectoryNames && k != "images" ==> DirectoryNames[k] == ImagesDir + "/" + k
  {
    WorkDirectories();
    FirstStageDirectories();
    MiddleStageDirectories();
    LastStageDirectories();
  }

  // ---------------------------------------------------------------------
  // The stages

  /** A stage with its mode argument, where it takes one. */
  datatype Op =
    | Grayscale
    | Thresholding(kind: string)
    | RemoveNoise(kind: string)
    | Morphology(order: string)
    | Deskew
    | EdgeDetection
    | Contours
    | Invert
    | Equalize

  /** The parameter defaults of the three stages with a mode. */
  const DefaultThresholding := "global"
  const DefaultNoiseRemoval := "Median"
  const DefaultMorphology := "1"

  /** The key of the stage's directory in the table. */
  function StageKey(op: Op): (k: string)
    ensures k in DirectoryNames && k != "images"
  {
    match op
    case Grayscale => "grayscale"
    case Thresholding(_) => "thresholding"
    case RemoveNoise(_) => "no_noise"
    case Morphology(_) => "morphology"
    case Deskew => "deskew"
    case EdgeDetection => "edge_detection"
    case Contours => "contours"
    case Invert => "inverted"
    case Equalize => "equalized"
  }

  function StageDir(op: Op): string {
    DirectoryNames[StageKey(op)]
  }

  /** The prefix the stage puts before the input's file name. */
  function Prefix(op: Op): string {
    match op
    case Grayscale => "gray_"
    case Thresholding(_) => "thresh_"
    case RemoveNoise(_) => "no_noise_"
    case Morphology(_) => "morph_"
    case Deskew => "deskewed_"
    case EdgeDetection => "edges_"
    case Contours => "contours_"
    case Invert => "inverted_"
    case Equalize => "equalized_"
  }

  /** `os.path.join(stage_dir, prefix + os.path.basename(image_path))`. */
  function OutputPath(op: Op, input: string): string {
    Join(StageDir(op), Prefix(op) + Basename(input))
  }

  /** Whether the stage accepts its mode argument; the comparisons are
      exact, so case matters. */
  predicate ModeAccepted(op: Op) {
    match op
    case Thresholding(kind) => kind == "global" || kind == "adaptive"
    case RemoveNoise(kind) => kind == "Median" || kind == "Gaussian"
    case Morphology(order) => order == "1" || order == "2"
    case _ => true
  }

  /** The text of the `ValueError` a stage raises for a mode it does not
      accept. */
  function ModeMessage(op: Op): string {
    match op
    case Thresholding(_) => "Invalid thresholding type. Use 'global' or 'adaptive'."
    case RemoveNoise(_) => "Invalid noise removal type. Use 'Median' or 'Gaussian'."
    case Morphology(_) => "Invalid morphology order. Use '1' or '2'."
    case _ => ""
  }

  /** What a stage raises. `convert_to_grayscale` names `HTTPException`
      without importing it, so a missing image ends in a `NameError`;
      `CvError` is any exception raised inside OpenCV, whose text is not
      modelled. */
  datatype Error = ValueError(message: string) | NameError(name: string) | CvError

  /** One stage on input path `input` against disk `d`. `rejected` says
      whether OpenCV raises on the image it was given even though the image
      was read (the pixels are not modelled, so this is the caller's to
      say); an image that could not be read is given to OpenCV as `None`,
      which it always refuses. */
  function Stage(op: Op, input: string, d: Disk, rejected: bool): (Result<string, Error>, Disk) {
    var loaded := input in d.files;
    if op.Grayscale? then
      if !loaded then (Err(NameError("HTTPException")), d)
      else
        var d1 := d.MakeDirs(StageDir(op)).MakeDirs(Dirname(StageDir(op)));
        if rejected then (Err(CvError), d1)
        else (Ok(OutputPath(op, input)), d1.Write(OutputPath(op, input)))
    else
      var d1 := d.MakeDirs(Dirname(StageDir(op)));
      if !ModeAccepted(op) then (Err(ValueError(ModeMessage(op))), d1)
      else if !loaded || rejected then (Err(CvError), d1)
      else (Ok(OutputPath(op, input)), d1.Write(OutputPath(op, input)))
  }

  // ---------------------------------------------------------------------
  // The stage functions

  /** `convert_to_grayscale`. */
  method ConvertToGrayscale(fs: FileSystem, imagePath: string, rejected: bool) returns (r: Result<string, Error>)
    modifies fs
    ensures (r, fs.State()) == Stage(Grayscale, imagePath, old(fs.State()), rejected)
  {
    var loaded := fs.ImRead(imagePath);
    if !loaded {
      return Err(NameError("HTTPException"));
    }
    var grayscaleDir := DirectoryNames["grayscale"];
    fs.MakeDirs(grayscaleDir);
    fs.MakeDirs(Dirname(grayscaleDir));
    if rejected {
      return Err(CvError);
    }
    var grayImagePath := Join(grayscaleDir, "gray_" + Basename(imagePath));
    var _ := fs.ImWrite(grayImagePath);
    return Ok(grayImagePath);
  }

  /** The body shared by the stages other than grayscale: make the parent of
      the stage directory, check the mode, run OpenCV, write the result. */
  method ApplyStage(fs: FileSystem, op: Op, imagePath: string, rejected: bool) returns (r: Result<string, Error>)
    requires !op.Grayscale?
    modifies fs
    ensures (r, fs.State()) == Stage(op, imagePath, old(fs.State()), rejected)
  {
    var loaded := fs.ImRead(imagePath);
    var stageDir := StageDir(op);
    fs.MakeDirs(Dirname(stageDir));
    if !ModeAccepted(op) {
      return Err(ValueError(ModeMessage(op)));
    }
    if !loaded || rejected {
      return Err(CvError);
    }
    var outputPath := Join(stageDir, Prefix(op) + Basename(imagePath));
    var _ := fs.ImWrite(outputPath);
    return Ok(outputPath);
  }

  /** `add_thresholding`. */
  method AddThresholding(fs: FileSystem, imagePath: string, kind: string, rejected: bool) returns (r: Result<string, Error>)
    modifies fs
    ensures (r, fs.State()) == Stage(Thresholding(kind), imagePath, old(fs.State()), rejected)
  {
    r := ApplyStage(fs, Thresholding(kind), imagePath, rejected);
  }

  /** `remove_noise`. */
  method RemoveNoiseStage(fs: FileSystem, imagePath: string, kind: string, rejected: bool) returns (r: Result<string, Error>)
    modifies fs
    ensures (r, fs.State()) == Stage(RemoveNoise(kind), imagePath, old(fs.State()), rejected)
  {
    r := ApplyStage(fs, RemoveNoise(kind), imagePath, rejected);
  }

  /** `morphology`. */
  method MorphologyStage(fs: FileSystem, imagePath: string, order: string, rejected: bool) returns (r: Result<string, Error>)
    modifies fs
    ensures (r, fs.State()) == Stage(Morphology(order), imagePath, old(fs.State()), rejected)
  {
    r := ApplyStage(fs, Morphology(order), imagePath, rejected);
  }

  /** `deskew_image`. */
  method DeskewImage(fs: FileSystem, imagePath: string, rejected: bool) returns (r: Result<string, Error>)
    modifies fs
    ensures (r, fs.State()) == Stage(Deskew, imagePath, old(fs.State()), rejected)
  {
    r := ApplyStage(fs, Deskew, imagePath, rejected);
  }

  /** `edge_detection`. */
  method EdgeDetectionStage(fs: FileSystem, imagePath: string, rejected: bool) returns (r: Result<string, Error>)
    modifies fs
    ensures (r, fs.State()) == Stage(EdgeDetection, imagePath, old(fs.State()), rejected)
  {
    r := ApplyStage(fs, EdgeDetection, imagePath, rejected);
  }

  /** `find_contours`. */
  method FindContours(fs: FileSystem, imagePath: string, rejected: bool) returns (r: Result<string, Error>)
    modifies fs
    ensures (r, fs.State()) == Stage(Contours, imagePath, old(fs.State()), rejected)
  {
    r := ApplyStage(fs, Contours, imagePath, rejected);
  }

  /** `invert_colors`. */
  method InvertColors(fs: FileSystem, imagePath: string, rejected: bool) returns (r: Result<string, Error>)
    modifies fs
    ensures (r, fs.State()) == Stage(Invert, imagePath, old(fs.State()), rejected)
  {
    r := ApplyStage(fs, Invert, imagePath, rejected);
  }

  /** `equalize_hist`. */
  method EqualizeHist(fs: FileSystem, imagePath: string, rejected: bool) returns (r: Result<string, Error>)
    modifies fs
    ensures (r, fs.State()) == Stage(Equalize, imagePath, old(fs.State()), rejected)
  {
    r := ApplyStage(fs, Equalize, imagePath, rejected);
  }

  /** The stage function for `op`. */
  method RunStage(fs: FileSystem, op: Op, imagePath: string, rejected: bool) returns (r: Result<string, Error>)
    modifies fs
    ensures (r, fs.State()) == Stage(op, imagePath, old(fs.State()), rejected)
  {
    match op
    case Grayscale => r := ConvertToGrayscale(fs, imagePath, rejected);
    case Thresholding(kind) => r := AddThresholding(fs, imagePath, kind, rejected);
    case RemoveNoise(kind) => r := RemoveNoiseStage(fs, imagePath, kind, rejected);
    case Morphology(order) => r := MorphologyStage(fs, imagePath, order, rejected);
    case Deskew => r := DeskewImage(fs, imagePath, rejected);
    case EdgeDetection => r := EdgeDetectionStage(fs, imagePath, rejected);
    case Contours => r := FindContours(fs, imagePath, rejected);
    case Invert => r := InvertColors(fs, imagePath, rejected);
    case Equalize => r := EqualizeHist(fs, imagePath, rejected);
  }

  // ---------------------------------------------------------------------
  // Paths and directories

  lemma ImagesLineage()
    ensures IsPlainDirectory(ImagesDir)
    ensures Lineage(ImagesDir) == {ImagesDir, "/"}
  {
    assert ImagesDir[0] == Sep;
    assert forall j :: 1 <= j < |ImagesDir| ==> ImagesDir[j] != Sep;
    assert TailStart(ImagesDir) == 1;
    assert ImagesDir[..1] == "/";
    assert Dirname("/") == "/";
  }

  /** `os.makedirs` on a subdirectory of a plain directory creates it and
      whatever the parent needs. */
  lemma LineageChild(parent: string, name: string)
    requires IsPlainDirectory(parent) && Sep !in name
    ensures Lineage(parent + "/" + name) == {parent + "/" + name} + Lineage(parent)
  {
    JoinSplit(parent, name);
  }

  /** No key and no prefix contains a separator. */
  lemma NamesPlain(op: Op)
    ensures Sep !in StageKey(op)
    ensures Sep !in Prefix(op)
  {
  }

  /** Every stage directory sits directly under `/images`. */
  lemma StageDirShape(op: Op)
    ensures StageDir(op) == ImagesDir + "/" + StageKey(op)
    ensures IsPlainDirectory(StageDir(op))
    ensures Dirname(StageDir(op)) == ImagesDir
    ensures Lineage(StageDir(op)) == {StageDir(op), ImagesDir, "/"}
    ensures StageDir(op) != ImagesDir && StageDir(op) != "/"
  {
    DirectoryNamesUnderImages();
    ImagesLineage();
    NamesPlain(op);
    JoinSplit(ImagesDir, StageKey(op));
    LineageChild(ImagesDir, StageKey(op));
  }

  /** Joining a plain directory with a prefixed file name. */
  lemma JoinName(dir: string, prefix: string, base: string)
    requires IsPlainDirectory(dir) && Sep !in prefix && Sep !in base
    ensures Join(dir, prefix + base) == dir + "/" + prefix + base
    ensures Dirname(Join(dir, prefix + base)) == dir
    ensures Basename(Join(dir, prefix + base)) == prefix + base
  {
    var name := prefix + base;
    forall i | 0 <= i < |name| ensures name[i] != Sep {
      if i >= |prefix| {
        assert name[i] == base[i - |prefix|];
      }
    }
    JoinSplit(dir, name);
  }

  /** The output path is the stage directory, a separator, the prefix and
      the input's file name; `dirname` and `basename` recover the parts. */
  lemma OutputPathShape(op: Op, input: string)
    ensures OutputPath(op, input) == StageDir(op) + "/" + Prefix(op) + Basename(input)
    ensures Dirname(OutputPath(op, input)) == StageDir(op)
    ensures Basename(OutputPath(op, input)) == Prefix(op) + Basename(input)
  {
    StageDirShape(op);
    NamesPlain(op);
    JoinName(StageDir(op), Prefix(op), Basename(input));
  }

  /** The output path depends on the input only through its file name:
      inputs in different directories with the same name collide. */
  lemma OutputPathByName(op: Op, input: string)
    ensures OutputPath(op, input) == OutputPath(op, Basename(input))
  {
  }

  // ---------------------------------------------------------------------
  // What a stage does

  /** The modes are compared exactly: a different capitalisation is refused. */
  lemma ModeCaseSensitive()
    ensures !ModeAccepted(Thresholding("Global")) && !ModeAccepted(Thresholding("ADAPTIVE"))
    ensures !ModeAccepted(RemoveNoise("median")) && !ModeAccepted(RemoveNoise("gaussian"))
  {
  }

  /** The defaults are among the accepted modes. */
  lemma DefaultsAccepted()
    ensures ModeAccepted(Thresholding(DefaultThresholding))
    ensures ModeAccepted(RemoveNoise(DefaultNoiseRemoval))
    ensures ModeAccepted(Morphology(DefaultMorphology))
  {
  }

  /** A stage raises `ValueError` exactly when its mode is not accepted, and
      then with its own message and without writing any file. */
  lemma StageModeError(op: Op, input: string, d: Disk, rejected: bool)
    ensures Stage(op, input, d, rejected).0.Err? && Stage(op, input, d, rejected).0.error.ValueError?
            <==> !ModeAccepted(op)
    ensures !ModeAccepted(op) ==> Stage(op, input, d, rejected).0 == Err(ValueError(ModeMessage(op)))
    ensures !ModeAccepted(op) ==> Stage(op, input, d, rejected).1.files == d.files
  {
  }

  /** A stage succeeds exactly when its mode is accepted, its input holds an
      image and OpenCV does not refuse it; it then returns its output path. */
  lemma StageSuccess(op: Op, input: string, d: Disk, rejected: bool)
    ensures Stage(op, input, d, rejected).0.Ok? <==> ModeAccepted(op) && input in d.files && !rejected
    ensures Stage(op, input, d, rejected).0.Ok? ==> Stage(op, input, d, rejected).0.value == OutputPath(op, input)
  {
  }

  /** `convert_to_grayscale` on a path without an image fails before it
      touches the disk. */
  lemma GrayscaleMissing(input: string, d: Disk, rejected: bool)
    requires input !in d.files
    ensures Stage(Grayscale, input, d, rejected) == (Err(NameError("HTTPException")), d)
  {
  }

  /** The directories a stage leaves behind: grayscale (once it has read its
      image) creates its own directory and `/images`; every other stage
      creates only `/images`, the parent of its directory, and never its
      own. */
  lemma StageDirs(op: Op, input: string, d: Disk, rejected: bool)
    ensures Stage(op, input, d, rejected).1.dirs
         == if op.Grayscale? && input !in d.files then d.dirs
            else if op.Grayscale? then d.dirs + {StageDir(op), ImagesDir, "/"}
            else d.dirs + {ImagesDir, "/"}
    ensures !op.Grayscale? ==> (StageDir(op) in Stage(op, input, d, rejected).1.dirs <==> StageDir(op) in d.dirs)
  {
    if op.Grayscale? {
      if input in d.files {
        GrayscaleDirs(input, d, rejected);
      }
    } else {
      OtherStageDirs(op, input, d, rejected);
    }
  }

  lemma GrayscaleDirs(input: string, d: Disk, rejected: bool)
    requires input in d.files
    ensures Stage(Grayscale, input, d, rejected).1.dirs == d.dirs + {StageDir(Grayscale), ImagesDir, "/"}
  {
    StageDirShape(Grayscale);
    ImagesLineage();
    DirsAfter(d, StageDir(Grayscale));
  }

  lemma OtherStageDirs(op: Op, input: string, d: Disk, rejected: bool)
    requires !op.Grayscale?
    ensures Stage(op, input, d, rejected).1.dirs == d.dirs + {ImagesDir, "/"}
    ensures StageDir(op) in Stage(op, input, d, rejected).1.dirs <==> StageDir(op) in d.dirs
  {
    var sd := StageDir(op);
    StageDirShape(op);
    ImagesLineage();
    assert Stage(op, input, d, rejected).1.dirs == d.MakeDirs(Dirname(sd)).dirs;
    DirsAfter(d, sd);
    OutsideImages(d.dirs, sd);
  }

  lemma OutsideImages(dirs: set<string>, sd: string)
    requires sd != ImagesDir && sd != "/"
    ensures sd in dirs + {ImagesDir, "/"} <==> sd in dirs
  {
  }

  lemma DirsAfter(d: Disk, sd: string)
    requires Dirname(sd) == ImagesDir && Lineage(sd) == {sd, ImagesDir, "/"}
    requires Lineage(ImagesDir) == {ImagesDir, "/"}
    ensures d.MakeDirs(sd).MakeDirs(Dirname(sd)).dirs == d.dirs + {sd, ImagesDir, "/"}
    ensures d.MakeDirs(Dirname(sd)).dirs == d.dirs + {ImagesDir, "/"}
  {
  }

  /** Only the output path can be added, and it is added exactly when the
      stage succeeds and its directory exists by then: always for grayscale,
      for the other stages only if the directory was there already. */
  lemma StageFiles(op: Op, input: string, d: Disk, rejected: bool)
    ensures d.files <= Stage(op, input, d, rejected).1.files <= d.files + {OutputPath(op, input)}
    ensures Stage(op, input, d, rejected).0.Ok? ==>
              (OutputPath(op, input) in Stage(op, input, d, rejected).1.files
               <==> op.Grayscale? || StageDir(op) in d.dirs || OutputPath(op, input) in d.files)
    ensures Stage(op, input, d, rejected).0.Err? ==> Stage(op, input, d, rejected).1.files == d.files
  {
    StageDirs(op, input, d, rejected);
    StageDirShape(op);
    OutputPathShape(op, input);
  }
}
