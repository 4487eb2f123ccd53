# local-image-server: text, path and pipeline rules in Dafny

A model of the parts of `local-image-server` that are not calls into OpenCV,
PIL, Tesseract or FastAPI, with proofs of what they guarantee:

- `clean_text` (`TextClean`): a whitelist filter, whitespace collapsing and a
  strip. The model proves that the result is the words of the filtered text
  joined by single spaces, and from that the output alphabet, idempotence,
  and that the visible characters survive in order.
- The image stages of `classes/preprocess.py` (`Preprocess`), modelled without
  pixels. Each stage reads an image path; makes directories; checks its mode;
  hands the image to OpenCV; writes the result under
  `<stage dir>/<prefix><input file name>`; and returns that path.
  - The file system is a class with a `files` set (paths holding a readable
    image) and a `dirs` set.
  - Each stage method is proved against one specification function, `Stage`.
- The HTTP endpoints of `preprocessing_routes.py` (`Routes`): the existence
  check under `/images`, the 404, the dispatch to one stage, and the mapping
  of any exception to a 500.
  - `preprocess_for_ocr` threads the output path through five stages. The
    model proves that the first failure ends the run, and what path a
    successful run returns.
- `categorize_text` (`Categorize`): the nested loop over the keyword table,
  stopping at the first keyword found. The model proves which categories
  appear, in which order, and with which value.
- `copy_state_dict` (`StateDict`), over a Python dictionary that keeps
  insertion order (`OrderedMaps`). The loop drops seven characters from
  every key once the first key starts with `module`.

Two stage behaviours are inputs to the model:
- whether OpenCV raises on an image it was given (the `rejected`
  arguments). This covers its checks on pixel formats, and `cv2.imwrite`
  refusing a file name that has no image extension it can write;
- the text of OpenCV's exceptions (`CvError`).
Paths are compared as they are spelled (see "Left out"). Apart from that,
the modelled code's constants, error messages and the order of its checks
are those of the source.

Three consequences of the code as written are proved:
- A stage directory is created only by `convert_to_grayscale`. The other
  stages create only `/images`. Their `cv2.imwrite` then has no directory to
  write into, fails silently, and the stage still returns the path. So on a
  disk without `/images/thresholding`, `/preprocess-for-ocr` never succeeds
  (`Routes.OcrFreshDisk`).
- `convert_to_grayscale` raises `HTTPException` without importing it. A path
  that exists but holds no image therefore ends in a `NameError`, reported
  as a 500 (`Routes.GrayscaleOnDirectory`).
- An invalid mode reaches the client as a 500, not as a 400
  (`Routes.HandleInvalidMode`).

Two further facts about the code:
- `/` is not whitelisted, so `clean_text("R@ting: 8.5/10!!")` is
  `"Rting 8.510"` (`TextClean.CleanTextExample`).
- The 500 detail does not name the failing stage (`Routes.OcrStops`).

## Model

| member | source | states |
|---|---|---|
| `Paths.Basename` | classes/preprocess.py:54 | The file name contains no `/`, and a path without `/` is its own file name. |
| `Paths.BasenameJoin` | preprocessing_routes.py:25 | The file name of `join(a, b)` is the file name of `b`, so outputs are named after the requested `image_name`. |
| `Paths.JoinSplit` | classes/preprocess.py:54 | Joining an absolute directory and a name without `/` gives `dir + "/" + name`, and `dirname` and `basename` give back the two parts. |
| `Paths.Lineage` | classes/preprocess.py:50-51 | The directories `os.makedirs` creates include the directory itself. |
| `TextClean.Filter` | classes/preprocess.py:37 | The first substitution keeps only letters, digits, whitespace, `.` and `,`, and never lengthens the text. |
| `TextClean.SkipSpaces` | classes/preprocess.py:39 | The leading-strip result is a suffix of the input, does not start with whitespace, and only whitespace was removed. |
| `TextClean.TrimEnd` | classes/preprocess.py:39 | The trailing-strip result is a prefix of the input, does not end with whitespace, and only whitespace was removed. |
| `TextClean.FilterAppend` | classes/preprocess.py:37 | The filter works one character at a time: the filter of `a + b` is the filter of `a` followed by the filter of `b`. |
| `TextClean.CollapseSpaced` | classes/preprocess.py:39 | After collapsing filtered text, every character is clean and no two spaces are adjacent. |
| `TextClean.CollapseKeepsSpaced` | classes/preprocess.py:39 | Text with single spaces and no other whitespace is unchanged by collapsing. |
| `TextClean.StripNormalizes` | classes/preprocess.py:39 | Stripping single-spaced clean text leaves no space at either end. |
| `TextClean.VisibleFilter` | classes/preprocess.py:37 | The non-whitespace characters left by the filter are exactly the input's whitelisted characters, in order. |
| `TextClean.VisibleCollapse` | classes/preprocess.py:39 | Collapsing whitespace keeps the non-whitespace characters and their order. |
| `TextClean.VisibleStrip` | classes/preprocess.py:39 | Stripping keeps the non-whitespace characters and their order. |
| `TextClean.CleanTextNormalized` | classes/preprocess.py:35-40 | The output contains only ASCII letters, digits, `.`, `,` and spaces, never two spaces in a row, and no space at either end. |
| `TextClean.CleanTextVisible` | classes/preprocess.py:35-40 | The output's non-whitespace characters are exactly the input's whitelisted characters, in order. |
| `TextClean.WordsShape` | classes/preprocess.py:39 | Every word is non-empty and free of whitespace. |
| `TextClean.CollapseWords` | classes/preprocess.py:39 | On a text that does not start with whitespace, the `\s+` substitution gives the words joined by single spaces, plus one space if the text ends in whitespace. |
| `TextClean.StripCollapse` | classes/preprocess.py:39 | The substitution followed by `strip()` gives exactly the words joined by single spaces. |
| `TextClean.CleanTextWords` | classes/preprocess.py:35-40 | `clean_text(t)` is `" ".join` of the words of the filtered `t`. So every whitespace run between two kept characters becomes exactly one space, and the runs at either end disappear. |
| `TextClean.CleanTextTab` | classes/preprocess.py:39 | `clean_text("a\tb") == "a b"`: a tab between two words becomes one space. |
| `TextClean.NormalizedIsFixpoint` | classes/preprocess.py:35-40 | Text already in that shape is its own cleaning. |
| `TextClean.CleanTextIdempotent` | classes/preprocess.py:35-40 | Cleaning twice is cleaning once. |
| `TextClean.CleanTextEmpty` | classes/preprocess.py:35-40 | The empty text cleans to the empty text. |
| `TextClean.FilterExample` | classes/preprocess.py:37 | The filter turns `"R@ting: 8.5/10!!"` into `"Rting 8.510"`: `@`, `:`, `/` and `!` are dropped. |
| `TextClean.CleanTextExample` | classes/preprocess.py:35-40 | `clean_text("R@ting: 8.5/10!!") == "Rting 8.510"`. |
| `Preprocess.Disk.MakeDirs` | classes/preprocess.py:50-51 | `os.makedirs(p, exist_ok=True)` leaves the files alone, and its directories are the old ones plus `p` and all its ancestors. |
| `Preprocess.Disk.Write` | classes/preprocess.py:56 | `cv2.imwrite` adds the file exactly when its directory exists, and never changes the directories. |
| `Preprocess.FileSystem.Exists` | preprocessing_routes.py:26 | `os.path.exists` is true of the files and the directories. |
| `Preprocess.FileSystem.ImRead` | classes/preprocess.py:44-45 | `cv2.imread` gives an image exactly when the path holds one. |
| `Preprocess.FileSystem.MakeDirs` | classes/preprocess.py:50 | The new state is the old one with the directory and its ancestors added. |
| `Preprocess.FileSystem.ImWrite` | classes/preprocess.py:56 | The write succeeds exactly when the target's directory existed, and the new state is `Disk.Write` of the old. |
| `Preprocess.DirectoryNamesUnderImages` | classes/preprocess.py:7-21 | `directory_names["images"]` is `/images`, and every other key `k` maps to `/images/` + `k`. |
| `Preprocess.StageKey` | classes/preprocess.py:7-21 | The key each stage looks up is in the table and is not `images`. |
| `Preprocess.StageDirShape` | classes/preprocess.py:7-21 | Each stage directory is `/images/<key>`, its parent is `/images`, and `makedirs` on it creates exactly it, `/images` and `/`. |
| `Preprocess.OutputPathShape` | classes/preprocess.py:54 | The output path is stage directory + `/` + prefix + input file name, the same rule as at lines 79, 101, 124, 153, 168, 190, 206 and 221. Its `dirname` is the stage directory and its `basename` is prefix + input file name. |
| `Preprocess.OutputPathByName` | classes/preprocess.py:79 | The output path depends on the input only through its file name. Re-running a stage, or running it on a same-named file elsewhere, gives the same path. |
| `Preprocess.ModeCaseSensitive` | classes/preprocess.py:92 | The modes are compared exactly: `"Global"`, `"ADAPTIVE"`, `"median"` and `"gaussian"` are refused. |
| `Preprocess.DefaultsAccepted` | classes/preprocess.py:62 | The default modes `"global"`, `"Median"` and `"1"` (lines 62, 86, 108) are accepted. |
| `Preprocess.StageModeError` | classes/preprocess.py:68-77 | A stage raises `ValueError` exactly when its mode is not accepted (lines 68-77, 92-99, 115-122). The error carries the stage's exact message, and no file is written. |
| `Preprocess.StageSuccess` | classes/preprocess.py:63-83 | A stage succeeds exactly when its mode is accepted, its input holds an image and OpenCV does not raise. It then returns its output path. |
| `Preprocess.GrayscaleMissing` | classes/preprocess.py:44-47 | Grayscale on a path without an image fails with a `NameError` for `HTTPException`, before touching the disk. |
| `Preprocess.StageDirs` | classes/preprocess.py:49-51 | Once grayscale has read its image, it creates its own directory and `/images`. Every other stage creates `/images` (line 66 and its counterparts) and never its own directory. |
| `Preprocess.StageFiles` | classes/preprocess.py:54-56 | A stage adds at most its output path, and only on success. The path is then present exactly when the stage is grayscale, or its directory already existed, or the file was already there. |
| `Preprocess.ConvertToGrayscale` | classes/preprocess.py:43-59 | The result and new file-system state are those of the `Stage` specification for grayscale. |
| `Preprocess.ApplyStage` | classes/preprocess.py:63-83 | The common body of the non-grayscale stages is proved against `Stage`. |
| `Preprocess.AddThresholding` | classes/preprocess.py:62-83 | Result and new state as `Stage(Thresholding(type), ...)`. |
| `Preprocess.RemoveNoiseStage` | classes/preprocess.py:86-105 | Result and new state as `Stage(RemoveNoise(type), ...)`. |
| `Preprocess.MorphologyStage` | classes/preprocess.py:108-128 | Result and new state as `Stage(Morphology(order), ...)`. |
| `Preprocess.DeskewImage` | classes/preprocess.py:131-157 | Result and new state as `Stage(Deskew, ...)`. |
| `Preprocess.EdgeDetectionStage` | classes/preprocess.py:160-172 | Result and new state as `Stage(EdgeDetection, ...)`. |
| `Preprocess.FindContours` | classes/preprocess.py:175-194 | Result and new state as `Stage(Contours, ...)`. |
| `Preprocess.InvertColors` | classes/preprocess.py:198-210 | Result and new state as `Stage(Invert, ...)`. |
| `Preprocess.EqualizeHist` | classes/preprocess.py:213-225 | Result and new state as `Stage(Equalize, ...)`. |
| `Preprocess.RunStage` | preprocessing_routes.py:144-148 | Calling the stage function of an operation, as the routes do here and at lines 29, 47, 65, 83, 98, 113 and 128, behaves as that operation's `Stage`. |
| `Routes.Serve` | preprocessing_routes.py:25-32 | The response and the new state of a single-stage endpoint are those of its specification `Handle`. Lines 43-50, 61-68, 79-86, 94-101, 109-116 and 124-131 follow the same pattern. |
| `Routes.HandleNotFound` | preprocessing_routes.py:25-27 | The answer is 404 "Image not found" exactly when nothing exists at `/images/<image_name>`. No stage runs then, and the disk is unchanged. |
| `Routes.HandleOutcome` | preprocessing_routes.py:28-32 | Past the check, the response is a success exactly when the stage succeeds, with the stage's message and `processed_image_path` equal to the path the stage returned. Otherwise it is a 500 carrying the stage's exception. |
| `Routes.HandleInvalidMode` | preprocessing_routes.py:46-50 | An invalid mode gives a 500 with the stage's `ValueError`, not a 400, and no file is written. |
| `Routes.QueryDefaults` | preprocessing_routes.py:38 | The query defaults `"global"`, `"Median"` and `"1"` (lines 38, 56, 74) reach the stages unchanged and equal the stages' own defaults. |
| `Routes.DetailText` | preprocessing_routes.py:32 | The detail text is the fixed text, or the prefix followed by `str(e)`. It is known except for OpenCV's own errors. |
| `Routes.GrayscaleOnDirectory` | classes/preprocess.py:44-47 | `/grayscale` on an existing directory answers 500 with "Failed to process the image: name 'HTTPException' is not defined". |
| `Routes.HandleNothingRemoved` | classes/preprocess.py:48-56 | No single-stage endpoint removes a file or a directory. |
| `Routes.OcrSteps` | preprocessing_routes.py:143-148 | The five calls, each on the previous result, stopping at the first exception, behave as `RunStages` over grayscale, adaptive threshold, Median denoise, deskew and invert. |
| `Routes.PreprocessForOcr` | preprocessing_routes.py:134-152 | The response and the new state are those of its specification `Ocr`. |
| `Routes.OcrNotFound` | preprocessing_routes.py:139-141 | The OCR endpoint answers 404 exactly when nothing exists at the path, and then runs no stage. |
| `Routes.RunStagesPath` | preprocessing_routes.py:144-148 | A run without exception returns the path that composing the stages' naming rules predicts. |
| `Routes.RunStagesStops` | preprocessing_routes.py:143-148 | Once a stage raises, no later stage runs: the whole run ends as the run up to that stage. |
| `Routes.OcrStops` | preprocessing_routes.py:142-152 | When stage `k` raises, the OCR endpoint answers 500 "Failed to preprocess the image: " with that exception, leaving the disk as stage `k` left it. |
| `Routes.OcrPath` | preprocessing_routes.py:144-148 | The five naming rules compose to `/images/inverted/inverted_deskewed_no_noise_thresh_gray_` + the input's file name. |
| `Routes.OcrSuccessPath` | preprocessing_routes.py:150 | A successful OCR response reports that path for the requested image name, so two runs on the same name give the same path. |
| `Routes.OcrNothingRemoved` | preprocessing_routes.py:142-148 | The OCR endpoint removes no file and no directory. |
| `Routes.OcrFreshDisk` | classes/preprocess.py:65-66 | Without `/images/thresholding`, and without a stale thresholded image, the OCR endpoint never succeeds. Given an image that OpenCV accepts in the first two stages, it fails with an OpenCV error in the denoising stage. |
| `Categorize.Lower` | classes/categorize.py:15 | Lowering keeps the length and lowers each ASCII capital. |
| `Categorize.Occurs` | classes/categorize.py:15 | `keyword in text` holds exactly when the keyword occurs at some position. |
| `Categorize.FirstMatch` | classes/categorize.py:14-17 | There is no result exactly when no keyword matches; otherwise the result is the first matching keyword in list order. |
| `Categorize.CategorizeWith` | classes/categorize.py:12-18 | The nested loops with `break` build the dictionary `Categorized` specifies, for any table. |
| `Categorize.CategorizeText` | classes/categorize.py:1-18 | `categorize_text` over its own table. |
| `Categorize.CategorizedKeys` | classes/categorize.py:13-16 | The result's keys are the names of the matching categories, in table order. |
| `Categorize.CategorizedGet` | classes/categorize.py:13-17 | Each category's value is its first keyword found in the text, case-insensitively, or absent if none is found. |
| `Categorize.CategorizedGetOther` | classes/categorize.py:13-16 | A name that is not a category is never a key. |
| `Categorize.FirstMatchCase` | classes/categorize.py:15 | Texts that lower alike match the same keyword. |
| `Categorize.CategorizedCase` | classes/categorize.py:15 | Texts that lower alike categorize alike. |
| `Categorize.CategoriesWellFormed` | classes/categorize.py:2-11 | The eight category names are distinct, and no keyword is empty. |
| `Categorize.KeywordsLowercase` | classes/categorize.py:2-11 | Every keyword of the table is already lower case. |
| `Categorize.CategorizeKeys` | classes/categorize.py:2-16 | The keys of `categorize_text` are the matching category names, in table order. |
| `Categorize.CategorizeGet` | classes/categorize.py:13-17 | Each category's value in `categorize_text` is its first matching keyword. |
| `Categorize.CategorizeEmpty` | classes/categorize.py:13-17 | `categorize_text("") == {}`. |
| `Categorize.CategorizeLower` | classes/categorize.py:15 | `categorize_text(t.lower()) == categorize_text(t)`. |
| `Categorize.OccursPrefix` | classes/categorize.py:15 | A keyword found means every prefix of it is found. |
| `Categorize.ShadowedKeyword` | classes/categorize.py:14-17 | A keyword that comes after one of its own prefixes in the list is never the one recorded. |
| `Categorize.ReleasedNeverRecorded` | classes/categorize.py:7 | `"released"` is never recorded for `release_year`, because `"release"` comes first. |
| `Categorize.CategorizeFirstKeyword` | classes/categorize.py:14-17 | A category whose first keyword occurs in the lowered text records that keyword. |
| `Categorize.CategorizeSecondKeyword` | classes/categorize.py:14-17 | A category whose first keyword is absent and whose second occurs records the second. |
| `Categorize.CategorizeNoKeyword` | classes/categorize.py:13-17 | A category none of whose keywords occurs is absent. |
| `Categorize.CategorizeExample` | classes/categorize.py:3-4 | `"Directed by J. Smith, Genre: Action"` records `genre` as `"action"` and `director` as `"directed by"`. |
| `Categorize.CategorizeExampleOthers` | classes/categorize.py:5-10 | The same text records none of the other six categories. |
| `OrderedMaps.Put` | chatgpt_solution.py:50 | `d[k] = v` keeps the keys of an existing `k` and appends a new `k`. It keeps the keys distinct. |
| `OrderedMaps.GetPut` | chatgpt_solution.py:50 | After `d[k] = v`, `k` gives `v` and every other key keeps its value. |
| `StateDict.Rename` | chatgpt_solution.py:49 | `k[7:]` is the key without its first seven characters, or empty for a shorter key. |
| `StateDict.CopyStateDict` | chatgpt_solution.py:45-53 | An empty dictionary raises `IndexError`. A first key not starting with `module` returns the input unchanged. Otherwise the result is the loop's renamed dictionary. |
| `StateDict.RenamedKeys` | chatgpt_solution.py:48-50 | The keys are the renamed keys in order of first occurrence. |
| `StateDict.RenamedGet` | chatgpt_solution.py:48-50 | Each renamed key holds the value of the last entry renamed to it, so collisions keep the later value. |
| `StateDict.RenamedDistinct` | chatgpt_solution.py:48-50 | No key appears twice in the result. |
| `StateDict.RenamedSize` | chatgpt_solution.py:48-50 | The result has at most as many entries as the input, and exactly as many when the renamed keys are distinct. |
| `StateDict.RenamedSnoc` | chatgpt_solution.py:48-50 | One more entry is one more assignment. |
| `StateDict.CopyExample` | chatgpt_solution.py:47-50 | `module.w`, `module.b` and `backbone.x` become `w`, `b` and `e.x`: seven characters go whether or not the key starts with `module`. |
| `StateDict.CollisionExample` | chatgpt_solution.py:49-50 | `module.fc` then `layer1.fc` collapse into one `fc` holding the later value. |

## Left out

- Image contents and every OpenCV and PIL operation on pixels, including the deskew angle computation (classes/preprocess.py:136-151) and `preprocess_image` (classes/preprocess.py:23-33). Images are opaque; a stage's image is only "read" or "not read".
- `Preprocess.Stage`: whether OpenCV raises on an image it was given is an input (`rejected`). For example, `cv2.imread` always loads three channels, and `adaptiveThreshold` and `equalizeHist` refuse anything but one, so these stages can raise on every real image. The same input covers `cv2.imwrite` raising on an output name without an image extension it can write. For example, an `image_name` of `scan` holding a PNG is read by its content, but `gray_scan` cannot be written. The model does not decide either case: the first depends on OpenCV's checks on pixel formats, the second on its list of encoders. The model therefore also allows a success that writes such a file.
- `Routes.DetailText`: the text of OpenCV's exceptions is not modelled (`CvError`), so for those errors the detail is known only up to its prefix.
- `Preprocess.Disk.MakeDirs`: does not model the `FileExistsError` that `os.makedirs` raises when a path on the way is an existing file, nor permission errors.
- `Preprocess.FileSystem.ImRead`: `files` holds only readable images. A file that exists but is not an image can be represented only in `dirs`. `Exists` then sees it and `ImRead` does not, as in the source, but `Write` treats it as a directory.
- `Paths.Join`: paths are not normalised. `..` and repeated `/` in `image_name` are kept as written, as `posixpath.join` does.
- `Preprocess.FileSystem.Exists`: looks paths up as they are spelled. `os.path.exists` and `cv2.imread` resolve `.`, `..`, `//` and a trailing `/`, so on such spellings the model can disagree with the source. For example, an `image_name` of `""` gives `"/images/"`, which the source finds as the directory `/images`. It then answers 500 with the `NameError`, where a model disk listing `"/images"` answers 404.
- `Categorize.Lower`: lowers ASCII capitals only. Python's `str.lower` also lowers other letters, but for this table that changes no match. No keyword contains `k` (the only ASCII result of lowering the Kelvin sign). No keyword ends in `i`, which is what lowering U+0130 begins with before its combining dot. Every other lowered non-ASCII character stays non-ASCII and so matches no keyword character.
- The `print` calls of the stage functions (classes/preprocess.py:46).
- FastAPI plumbing: routing, async handlers, query parsing and the `Query` descriptions; the endpoints take their parameters as Dafny arguments.
- opencv_routes.py, main.py, ui/image-annotator/src/App.js, and the model loading, detection and OCR functions of chatgpt_solution.py are not part of this model.
