# nsfw-server in Dafny

A verified model of the logic in nsfw-server that the service itself implements. The
service is a small Flask front end around a Keras NSFW image classifier. Two pieces are
modelled:

- **The HTTP handler (`app.py`, module `App` in `app.dfy`).** It covers:
  - the upload filter `allowed_file`;
  - the `/` route: the GET liveness text, the three 400 answers, and the loop that saves,
    classifies and removes each eligible part and collects one `{filename, result}` record
    per part;
  - the `/health` route.
- **The result shaping of the detector (`nsfw_detector_inference.py`, module `NsfwDetector`
  in `detector.dfy`).** It covers:
  - `load_images`, which decodes the inputs in order, skips the ones whose decode raises,
    and returns the images together with the inputs they came from;
  - `classify_nd`, which maps each row of model scores to a dictionary keyed by the category
    list `drawings, hentai, neutral, porn, sexy`;
  - `classify`, which builds `dict(zip(surviving inputs, dictionaries))`;
  - the `load_model` guard.

`wrappers.dfy` defines `Option` and `Result`: a Python exception is a `Failure`. `paths.dfy`
models `os.path.join` for two POSIX path components.

Everything the code hands to a library is a parameter of the model:

- the file system checks and the directory listing (`NsfwDetector.FileSystem`);
- the two image decoders (`NsfwDetector.Decoders`, where `None` means the decode raised);
- `model.predict` and the saved-model loader;
- `secure_filename`;
- `predict.classify` as seen from `app.py`. It is a function of the staged path and of the
  bytes saved there, and it may raise.

Images, scores, buffers, upload contents and the model are type parameters. The code only
copies them, so every property holds whatever they are. The upload folder is a class whose
`files` map `Save` and `Remove` update in place. `Inference` is proved against the pure
function `Respond` (the response) and `FolderAfter` (the folder afterwards). The lemmas
below are stated about those two functions.

Three facts about `app.py` that the model keeps as written:

- `app.py` accepts uploaded files only. It has no URL input, and each record carries one
  result, the value `predict.classify` returns.
- An exception from `predict.classify` (`app.py:51`) leaves `inference()` before
  `os.remove` (`app.py:58`). The staged file stays in the folder and Flask answers 500
  (`StagedFileLeftOnFailure`).
- Each eligible upload is written to `/tmp/uploads/` (`app.py:20`, `app.py:49`) and
  classified from there.

## Model

| member | source | states |
|---|---|---|
| `Paths.Join` | app.py:48 | An absolute second component replaces the first; otherwise the result starts with the folder and ends with the file name |
| `App.LowerChar` | app.py:27 | Only an upper-case ASCII letter changes, and it becomes a lower-case letter. No upper-case letter comes out, and a character is `.` after lower-casing exactly when it was `.` before |
| `App.Lower` | app.py:27 | Lower-casing keeps the length, so a position in the name is the same position in its lower-cased form |
| `App.LowerMeaning` | app.py:27 | No upper-case letter is left, every other character is kept, and lower-casing twice is the same as once |
| `App.LastDot` | app.py:27 | Gives the position of the last `.`. It is `None` exactly when the name has no `.` |
| `App.AllowedFile` | app.py:26-27 | An accepted name contains a `.` and has at least four characters: a `.` and a three- or four-letter extension |
| `App.AllowedFileMeaning` | app.py:21-27 | `allowed_file` holds exactly when there is a `.` with no `.` after it and the text after it lower-cases to one of `png`, `jpg`, `jpeg`, `gif` |
| `App.LastSegmentDecides` | app.py:27 | For `stem.ext` with no `.` in `ext`, only `ext` decides, whatever `stem` contains |
| `App.NoDotRejected` | app.py:27 | A name without a `.` is rejected |
| `App.CaseInsensitive` | app.py:27 | Two names that are equal after lower-casing get the same answer |
| `App.DoubleExtensionAccepted` | app.py:27 | `x.tar.png` is accepted |
| `App.InnerExtensionIgnored` | app.py:27 | `x.png.exe` is rejected |
| `App.UpperCaseAccepted` | app.py:27 | `PHOTO.JPG` is accepted |
| `App.TrailingDotRejected` | app.py:27 | `photo.` (empty extension) is rejected |
| `App.EligibleParts` | app.py:44-46 | The parts the loop classifies are a subsequence of the upload that is no longer than it, and every one of them is truthy and allowed |
| `App.EligiblePartsMeaning` | app.py:44-46 | A part is classified exactly when it is in the upload and is truthy and allowed |
| `App.EligiblePartsAppend` | app.py:44-46 | The filter keeps upload order: the eligible parts of two uploads in a row are those of the first followed by those of the second |
| `App.AllowedIsTruthy` | app.py:46 | The truthiness test is implied by `allowed_file`: an allowed name is never empty |
| `App.Process` | app.py:43-55 | The loop either stops at a classifier exception or returns no more records than there are parts |
| `App.FolderAfter` | app.py:47-58 | After the loop the folder holds only paths it held before and staging paths |
| `App.FolderAfterKeepsOthers` | app.py:47-58 | Every path that is not a staging path keeps its old content, whatever the classifier does |
| `App.LoopStep` | app.py:44-58 | One turn of the loop: a part that is not eligible, or comes after an exception, changes nothing. Otherwise its file is saved, and it is removed again with a new record when the classifier returns, or left in place when the classifier raises |
| `App.Respond` | app.py:29-63 | The answer is 200, 400 or 500. GET answers 200. The answer is 500 exactly when it is Flask's server error page. A list of records is answered only to a POST, with 200, and is never empty |
| `App.Health` | app.py:65-67 | `/health` always answers 200 with `{"status": "healthy"}` |
| `App.UploadFolder.Save` | app.py:49 | `file.save` stores the content under the path and changes nothing else |
| `App.UploadFolder.Remove` | app.py:58 | `os.remove` deletes exactly that path |
| `App.Inference` | app.py:29-63 | The handler's response equals `Respond` and the folder afterwards equals `FolderAfter`. The folder is untouched on GET and on the two early 400s |
| `App.FailureStops` | app.py:44-58 | After a classifier exception, later parts change neither the outcome nor the folder |
| `App.RecordsMatchEligibleParts` | app.py:43-55 | On success there is one record per eligible part, in upload order: its secured name and the classifier's value, whatever it is. There are at most as many records as parts |
| `App.ProcessFailsIffClassifierRaises` | app.py:44-55 | The loop fails exactly when the classifier raises for some eligible part |
| `App.StagedPathsMeaning` | app.py:46-48 | A path is staged exactly when it is the folder joined with the secured name of some eligible part |
| `App.CleanupAfterSuccess` | app.py:47-58 | After a successful loop, the folder is the old folder minus the staged paths. Nothing else is added or changed |
| `App.StagedFileLeftOnFailure` | app.py:49-58 | When the classifier raises, the file being classified stays in the folder with the uploaded content |
| `App.EarlyAnswersCallNothing` | app.py:31-41 | GET answers with the liveness text. A missing `files[]` answers 400 "No files part" and an empty list answers 400 "No files uploaded". None of these answers depends on the classifier or on `secure_filename` |
| `App.PostOutcome` | app.py:43-63 | With parts, the answer is 200 exactly when some part is eligible and no classification raises. It carries one record per eligible part. With no eligible part the answer is 400 "None of the uploaded files are valid" |
| `NsfwDetector.FilesIn` | nsfw_detector_inference.py:25-27 | A directory expands to paths that are files, each the directory joined with a listed name, and to no more paths than names |
| `NsfwDetector.FilesInComplete` | nsfw_detector_inference.py:27 | Every listed name that joins to a file is among the paths |
| `NsfwDetector.FilesInAppend` | nsfw_detector_inference.py:27 | Listing order is kept: the paths of two listings in a row are those of the first followed by those of the second |
| `NsfwDetector.Expand` | nsfw_detector_inference.py:24-29 | A list is used as given. A string that is not a directory becomes a one-element list. A directory becomes exactly the `FilesIn` paths of its absolute path, in listing order, each a file |
| `NsfwDetector.Decode` | nsfw_detector_inference.py:33-41 | A path is decoded by the file loader alone and a buffer by the stream decoder alone, both at the requested size |
| `NsfwDetector.Kept` | nsfw_detector_inference.py:31-46 | No more inputs survive than were given |
| `NsfwDetector.Loaded` | nsfw_detector_inference.py:31-46 | No more images are loaded than inputs were given |
| `NsfwDetector.LoadedPairsWithKept` | nsfw_detector_inference.py:31-48 | The images and the surviving inputs have equal length, and the k-th image is what the k-th surviving input decodes to |
| `NsfwDetector.KeptExactlyDecodable` | nsfw_detector_inference.py:31-46 | An input survives exactly when it is in the input list and its decode succeeds |
| `NsfwDetector.KeptAppend` | nsfw_detector_inference.py:31-46 | Loading distributes over concatenation, so input order is kept |
| `NsfwDetector.FailureSkipsOnlyThatItem` | nsfw_detector_inference.py:45-46 | A failing decode drops that item only; the items after it are still loaded |
| `NsfwDetector.LoadImages` | nsfw_detector_inference.py:16-48 | The loop returns the images and the surviving inputs of the expanded input list, of equal length and pairwise related by decoding |
| `NsfwDetector.LoadModel` | nsfw_detector_inference.py:50-55 | Raises `ValueError` exactly when the path is missing or does not exist. Otherwise it returns what the loader returns; the loader's own exceptions are not modelled |
| `NsfwDetector.LoadModelGuardPrecedesLoad` | nsfw_detector_inference.py:51-52 | On a bad path the outcome is the same whatever the loader does: it is never called |
| `NsfwDetector.CategoriesDistinct` | nsfw_detector_inference.py:78 | The five category names are pairwise different |
| `NsfwDetector.RowMapMeaning` | nsfw_detector_inference.py:82-85 | `RowMap`, one row's dictionary: it has exactly the first `len(row)` categories as keys, and column `j` is stored unchanged under category `j` |
| `NsfwDetector.RowMaps` | nsfw_detector_inference.py:78-86 | Succeeds exactly when no row is longer than 5. It then gives one dictionary per row, in row order. Otherwise the error names the first row that is too long |
| `NsfwDetector.RowMapsFailureStays` | nsfw_detector_inference.py:83-84 | The first IndexError decides the outcome, whatever rows follow |
| `NsfwDetector.ClassifyNd` | nsfw_detector_inference.py:69-86 | The nested loops compute `RowMaps` of the model's output |
| `NsfwDetector.ZipDict` | nsfw_detector_inference.py:66 | `dict(zip(ks, vs))` has as keys the first `min(len(ks), len(vs))` keys |
| `NsfwDetector.ZipDictLastWins` | nsfw_detector_inference.py:66 | A key maps to the value paired with its last occurrence |
| `NsfwDetector.Classify` | nsfw_detector_inference.py:58-66 | `classify` fails with the IndexError of `classify_nd`. Otherwise it returns the zip of the surviving inputs with the row dictionaries |
| `NsfwDetector.ClassifyPairsInputsWithRows` | nsfw_detector_inference.py:64-66 | With one row per surviving input, all rows fitting the categories, the keys are exactly the surviving inputs. An input whose last occurrence is at position k gets row k's dictionary, each score under its category |

## Left out

- `private_detector_inference.py` is not part of this model. It is TensorFlow file reading, JPEG decoding, saved-model loading and float scaling.
- Image decoding, resizing, `img_to_array` and the division by 255 are the `Decoders` parameters. Their failure is `None`.
- `np.asarray` packing: the batch is a sequence of images.
- `model.predict` is a total function parameter, so an exception from it is not modelled. `predict_args` is not modelled.
- NsfwDetector.LoadModel: `tf.keras.models.load_model` is the total `load` parameter. The real loader raises on an existing path that holds no saved model; that exception is not modelled.
- `IMAGE_DIM`, the default 224 of `image_dim`, is not modelled. `Classify` takes the side as its `imageDim` parameter, and `app.py` reaches `classify` only through its `classify` parameter.
- `float(pred)` is not modelled: scores are copied as values of a type parameter.
- The file system calls (`exists`, `isdir`, `isfile`, `listdir`, `abspath`) are the `FileSystem` parameter. The listing order is whatever `listDir` returns.
- A single non-string, non-list input to `load_images` is not modelled. Python would iterate it (for example, the lines of a `BytesIO`).
- The `verbose` printing and the "Image Load Failure" message are output only.
- The command line `main()` is left out.
- The module-level model load in `app.py`, and logging, are left out. If that load fails, `model` is unbound and every `predict.classify` call raises. The model covers this only as a classifier that returns `Failure`.
- Flask routing, `jsonify` and the rendering of the 500 page are left out. Responses are values.
- `secure_filename` and `predict.classify` are parameters. `predict.classify` is not tied to `NsfwDetector.Classify`.
- A `FileStorage` whose `filename` is `None` is represented by the empty name. Both are falsy.
- App.UploadFolder.Save: assumes `file.save` succeeds. `app.py` never creates `/tmp/uploads/`, so a save into a missing folder raises, as does a full disk; that exception is not modelled.
- App.UploadFolder.Remove: requires the path to be present. The handler only removes a path it has just saved, so the `FileNotFoundError` of `os.remove` cannot occur.
- App.LowerChar: lower-cases only the ASCII letters, not all of Unicode as Python's `str.lower` does. Python's lower-casing of any other character never produces a text equal to `png`, `jpg`, `jpeg` or `gif`, so `allowed_file` gets the same answer.
- Concurrent requests sharing `/tmp/uploads/` are not modelled. Each request is handled sequentially.
