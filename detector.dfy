/** The result-shaping part of the NSFW detector module (nsfw_detector_inference.py):
    turning the inputs into a batch of decoded images, mapping the model's rows of scores to
    category dictionaries, and pairing the surviving inputs with those dictionaries.

    Everything the module hands to a library is a parameter here: the file system checks,
    the two image decoders, the model's `predict` and the saved-model loader. Images, scores,
    in-memory buffers and the model itself are type parameters, because this code only
    moves them around. */
module NsfwDetector {
  import opened Wrappers
  import Paths

  /** The model's output columns, in column order. */
  const Categories: seq<string> := ["drawings", "hentai", "neutral", "porn", "sexy"]

  /** Target size `(width, height)` handed to the decoders. */
  type Size = (nat, nat)

  /** One item of the input list: a file path or an in-memory buffer (`io.BytesIO`). */
  datatype ImageInput<B> = FilePath(path: string) | Stream(buffer: B)

  /** What `load_images` and `classify` accept: one path string (a file or a directory),
      or a list of items. */
  datatype Inputs<B> = Single(path: string) | Items(items: seq<ImageInput<B>>)

  /** The file system as this module sees it; `os.path.join` is `Paths.Join`. */
  datatype FileSystem = FileSystem(
    pathExists: string -> bool,
    isDir: string -> bool,
    isFile: string -> bool,
    listDir: string -> seq<string>,
    absPath: string -> string)

  /** The two decoders: Keras' `load_img` for a path and PIL's `open(...).resize` for a
      buffer, each followed by `img_to_array` and the scaling by 255. `None` stands for
      an exception raised while decoding. */
  datatype Decoders<!B, Img> = Decoders(
    loadImg: (string, Size) -> Option<Img>,
    openResized: (B, Size) -> Option<Img>)

  /** The exceptions this module raises itself. */
  datatype Error =
    | InvalidModelPath                      // the ValueError of load_model
    | CategoryIndexOutOfRange(row: nat)     // the IndexError of classify_nd, on this row

  // ---------------------------------------------------------------------------
  // load_images
  // ---------------------------------------------------------------------------

  /** The files of a directory listing, joined to the directory's absolute path; only
      names that are files are kept, in listing order. */
  function FilesIn(parent: string, names: seq<string>, fs: FileSystem): (paths: seq<string>)
    ensures |paths| <= |names|
    ensures forall k :: 0 <= k < |paths| ==> fs.isFile(paths[k])
    ensures forall k :: 0 <= k < |paths| ==> exists n :: n in names && paths[k] == Paths.Join(parent, n)
  {
    if names == [] then []
    else
      var rest := FilesIn(parent, names[1..], fs);
      var p := Paths.Join(parent, names[0]);
      if fs.isFile(p) then [p] + rest else rest
  }

  /** Every listed name that is a file is found: nothing the listing offers is lost. */
  lemma {:induction false} FilesInComplete(parent: string, names: seq<string>, fs: FileSystem, n: string)
    requires n in names && fs.isFile(Paths.Join(parent, n))
    ensures Paths.Join(parent, n) in FilesIn(parent, names, fs)
    decreases |names|
  {
    if names[0] != n {
      FilesInComplete(parent, names[1..], fs, n);
    }
  }

  /** The listing order is kept: the files of two listings in a row are the files of the
      first followed by the files of the second. */
  lemma {:induction false} FilesInAppend(parent: string, a: seq<string>, b: seq<string>, fs: FileSystem)
    ensures FilesIn(parent, a + b, fs) == FilesIn(parent, a, fs) + FilesIn(parent, b, fs)
    decreases |a|
  {
    if a == [] {
      assert a + b == b;
    } else {
      var ab := a + b;
      assert ab != [] && ab[0] == a[0] && ab[1..] == a[1..] + b;
      FilesInAppend(parent, a[1..], b, fs);
    }
  }

  /** The list `load_images` iterates over: a list as given, a directory as the files it
      lists, any other string as a list of that one path. */
  function Expand<B>(inputs: Inputs<B>, fs: FileSystem): (items: seq<ImageInput<B>>)
    ensures inputs.Items? ==> items == inputs.items
    ensures inputs.Single? && !fs.isDir(inputs.path) ==> items == [FilePath(inputs.path)]
    ensures inputs.Single? && fs.isDir(inputs.path) ==>
              var files := FilesIn(fs.absPath(inputs.path), fs.listDir(inputs.path), fs);
              items == seq(|files|, k requires 0 <= k < |files| => FilePath(files[k]))
    ensures inputs.Single? && fs.isDir(inputs.path) ==>
              |items| <= |fs.listDir(inputs.path)| &&
              forall k :: 0 <= k < |items| ==> items[k].FilePath? && fs.isFile(items[k].path)
  {
    match inputs
    case Items(xs) => xs
    case Single(path) =>
      if fs.isDir(path) then
        var files := FilesIn(fs.absPath(path), fs.listDir(path), fs);
        seq(|files|, k requires 0 <= k < |files| => FilePath(files[k]))
      else
        [FilePath(path)]
  }

  /** Decoding one item, by the branch on its kind. */
  function Decode<B, Img>(item: ImageInput<B>, size: Size, dec: Decoders<B, Img>): (r: Option<Img>)
    ensures item.FilePath? ==> r == dec.loadImg(item.path, size)
    ensures item.Stream? ==> r == dec.openResized(item.buffer, size)
  {
    match item
    case FilePath(p) => dec.loadImg(p, size)
    case Stream(b) => dec.openResized(b, size)
  }

  /** The inputs that decode, in input order (the second list of `load_images`). */
  function Kept<B, Img>(items: seq<ImageInput<B>>, size: Size, dec: Decoders<B, Img>): (kept: seq<ImageInput<B>>)
    ensures |kept| <= |items|
    decreases |items|
  {
    if items == [] then []
    else
      var last := items[|items| - 1];
      Kept(items[..|items| - 1], size, dec) + if Decode(last, size, dec).Some? then [last] else []
  }

  /** The decoded images, in input order (the first list of `load_images`). */
  function Loaded<B, Img>(items: seq<ImageInput<B>>, size: Size, dec: Decoders<B, Img>): (images: seq<Img>)
    ensures |images| <= |items|
    decreases |items|
  {
    if items == [] then []
    else
      var last := items[|items| - 1];
      Loaded(items[..|items| - 1], size, dec) +
        match Decode(last, size, dec) case Some(img) => [img] case None => []
  }

  /** The two lists always pair up: same length, and the k-th image is what the k-th
      surviving input decodes to. */
  lemma {:induction false} LoadedPairsWithKept<B, Img>(items: seq<ImageInput<B>>, size: Size, dec: Decoders<B, Img>)
    ensures |Loaded(items, size, dec)| == |Kept(items, size, dec)|
    ensures forall k :: 0 <= k < |Kept(items, size, dec)| ==>
              Decode(Kept(items, size, dec)[k], size, dec) == Some(Loaded(items, size, dec)[k])
    decreases |items|
  {
    if items != [] {
      LoadedPairsWithKept(items[..|items| - 1], size, dec);
    }
  }

  /** The surviving inputs are exactly the inputs that decode. */
  lemma {:induction false} KeptExactlyDecodable<B, Img>(items: seq<ImageInput<B>>, size: Size, dec: Decoders<B, Img>, x: ImageInput<B>)
    ensures x in Kept(items, size, dec) <==> x in items && Decode(x, size, dec).Some?
    decreases |items|
  {
    if items != [] {
      var init := items[..|items| - 1];
      KeptExactlyDecodable(init, size, dec, x);
      assert items == init + [items[|items| - 1]];
    }
  }

  /** Filtering distributes over concatenation, so input order is kept. */
  lemma {:induction false} KeptAppend<B, Img>(a: seq<ImageInput<B>>, b: seq<ImageInput<B>>, size: Size, dec: Decoders<B, Img>)
    ensures Kept(a + b, size, dec) == Kept(a, size, dec) + Kept(b, size, dec)
    ensures Loaded(a + b, size, dec) == Loaded(a, size, dec) + Loaded(b, size, dec)
    decreases |b|
  {
    if b == [] {
      assert a + b == a;
    } else {
      var init := b[..|b| - 1];
      KeptAppend(a, init, size, dec);
      assert (a + b)[..|a + b| - 1] == a + init;
    }
  }

  /** A decode failure drops that one item and does not stop the items after it. */
  lemma FailureSkipsOnlyThatItem<B, Img>(before: seq<ImageInput<B>>, bad: ImageInput<B>, after: seq<ImageInput<B>>, size: Size, dec: Decoders<B, Img>)
    requires Decode(bad, size, dec).None?
    ensures Kept(before + [bad] + after, size, dec) == Kept(before, size, dec) + Kept(after, size, dec)
    ensures Loaded(before + [bad] + after, size, dec) == Loaded(before, size, dec) + Loaded(after, size, dec)
  {
    KeptAppend(before + [bad], after, size, dec);
    KeptAppend(before, [bad], size, dec);
    assert Kept([bad], size, dec) == [] by { assert [bad][..0] == []; }
    assert Loaded([bad], size, dec) == [] by { assert [bad][..0] == []; }
  }

  /** `load_images(inputs, image_size)`: decodes every item in order, skipping the ones
      whose decode raises, and returns the images with the inputs they came from. */
  method LoadImages<B, Img>(inputs: Inputs<B>, imageSize: Size, fs: FileSystem, dec: Decoders<B, Img>)
    returns (images: seq<Img>, kept: seq<ImageInput<B>>)
    ensures |images| == |kept|
    ensures kept == Kept(Expand(inputs, fs), imageSize, dec)
    ensures images == Loaded(Expand(inputs, fs), imageSize, dec)
    ensures forall k :: 0 <= k < |kept| ==> Decode(kept[k], imageSize, dec) == Some(images[k])
  {
    var items := Expand(inputs, fs);
    images, kept := [], [];
    for i := 0 to |items|
      invariant kept == Kept(items[..i], imageSize, dec)
      invariant images == Loaded(items[..i], imageSize, dec)
    {
      assert items[..i + 1][..i] == items[..i];
      var item := items[i];
      match Decode(item, imageSize, dec)
      case Some(image) =>
        images := images + [image];
        kept := kept + [item];
      case None =>
        // "Image Load Failure": the item is left out and the loop goes on
    }
    assert items[..|items|] == items;
    LoadedPairsWithKept(items, imageSize, dec);
  }

  // ---------------------------------------------------------------------------
  // load_model
  // ---------------------------------------------------------------------------

  /** `load_model(model_path)`: a missing or non-existent path raises before the loader
      is called; otherwise the loader's model is returned. */
  function LoadModel<M>(modelPath: Option<string>, fs: FileSystem, load: string -> M): (r: Result<M, Error>)
    ensures r.Failure? <==> modelPath.None? || !fs.pathExists(modelPath.value)
    ensures r.Failure? ==> r.error == InvalidModelPath
    ensures r.Success? ==> r.value == load(modelPath.value)
  {
    if modelPath.None? || !fs.pathExists(modelPath.value) then Failure(InvalidModelPath)
    else Success(load(modelPath.value))
  }

  /** On a bad path the outcome does not depend on the loader: it is never consulted. */
  lemma LoadModelGuardPrecedesLoad<M>(modelPath: Option<string>, fs: FileSystem, load1: string -> M, load2: string -> M)
    requires modelPath.None? || !fs.pathExists(modelPath.value)
    ensures LoadModel(modelPath, fs, load1) == LoadModel(modelPath, fs, load2) == Failure(InvalidModelPath)
  {
  }

  // ---------------------------------------------------------------------------
  // classify_nd
  // ---------------------------------------------------------------------------

  lemma CategoriesDistinct()
    ensures forall i, j :: 0 <= i < j < |Categories| ==> Categories[i] != Categories[j]
  {
  }

  /** One row of scores as a dictionary, filled column by column. */
  function RowMap<S>(row: seq<S>): (m: map<string, S>)
    requires |row| <= |Categories|
    decreases |row|
  {
    if row == [] then map[]
    else
      var n := |row| - 1;
      RowMap(row[..n])[Categories[n] := row[n]]
  }

  /** A row's dictionary has the first `|row|` categories as keys, and column `j` is stored
      unchanged under the `j`-th category. */
  lemma {:induction false} RowMapMeaning<S>(row: seq<S>)
    requires |row| <= |Categories|
    ensures RowMap(row).Keys == set j | 0 <= j < |row| :: Categories[j]
    ensures forall j :: 0 <= j < |row| ==> RowMap(row)[Categories[j]] == row[j]
    decreases |row|
  {
    if row != [] {
      var n := |row| - 1;
      RowMapMeaning(row[..n]);
      CategoriesDistinct();
      assert forall j :: 0 <= j < n ==> row[..n][j] == row[j];
    }
  }

  /** The dictionaries of all rows, or the IndexError of the first row longer than the
      category list. */
  function RowMaps<S>(preds: seq<seq<S>>): (r: Result<seq<map<string, S>>, Error>)
    ensures r.Success? <==> forall i :: 0 <= i < |preds| ==> |preds[i]| <= |Categories|
    ensures r.Success? ==> |r.value| == |preds|
    ensures r.Success? ==> forall i :: 0 <= i < |preds| ==> r.value[i] == RowMap(preds[i])
    ensures r.Failure? ==> r.error.CategoryIndexOutOfRange? && r.error.row < |preds|
    ensures r.Failure? ==> |preds[r.error.row]| > |Categories|
    ensures r.Failure? ==> forall i :: 0 <= i < r.error.row ==> |preds[i]| <= |Categories|
    decreases |preds|
  {
    if preds == [] then Success([])
    else
      var n := |preds| - 1;
      var prev := RowMaps(preds[..n]);
      assert forall i :: 0 <= i < n ==> preds[..n][i] == preds[i];
      if prev.Failure? then prev
      else if |preds[n]| > |Categories| then Failure(CategoryIndexOutOfRange(n))
      else Success(prev.value + [RowMap(preds[n])])
  }

  /** Once a prefix has failed, the rows after it do not change the outcome. */
  lemma {:induction false} RowMapsFailureStays<S>(preds: seq<seq<S>>, k: nat)
    requires k <= |preds|
    requires RowMaps(preds[..k]).Failure?
    ensures RowMaps(preds) == RowMaps(preds[..k])
    decreases |preds| - k
  {
    if k < |preds| {
      assert preds[..k + 1][..k] == preds[..k];
      RowMapsFailureStays(preds, k + 1);
    } else {
      assert preds[..k] == preds;
    }
  }

  /** `classify_nd(model, nd_images)`: runs the model over the batch and turns each row
      into a category dictionary, scores copied unchanged. */
  method ClassifyNd<M, Img, S>(model: M, images: seq<Img>, predict: (M, seq<Img>) -> seq<seq<S>>)
    returns (r: Result<seq<map<string, S>>, Error>)
    ensures r == RowMaps(predict(model, images))
  {
    var preds := predict(model, images);
    var probs: seq<map<string, S>> := [];
    var i := 0;
    while i < |preds|
      invariant 0 <= i <= |preds|
      invariant RowMaps(preds[..i]) == Success(probs)
    {
      assert preds[..i + 1][..i] == preds[..i];
      var row := preds[i];
      var single: map<string, S> := map[];
      var j := 0;
      while j < |row|
        invariant 0 <= j <= |row| && j <= |Categories|
        invariant single == RowMap(row[..j])
      {
        if j >= |Categories| {
          RowMapsFailureStays(preds, i + 1);
          return Failure(CategoryIndexOutOfRange(i));
        }
        assert row[..j + 1][..j] == row[..j];
        single := single[Categories[j] := row[j]];
        j := j + 1;
      }
      assert row[..j] == row;
      probs := probs + [single];
      i := i + 1;
    }
    assert preds[..i] == preds;
    return Success(probs);
  }

  // ---------------------------------------------------------------------------
  // classify
  // ---------------------------------------------------------------------------

  function Min(a: nat, b: nat): nat { if a <= b then a else b }

  /** `dict(zip(ks, vs))`: pairs up to the shorter length, a later key overwriting an
      earlier equal one. */
  function ZipDict<K, V>(ks: seq<K>, vs: seq<V>): (m: map<K, V>)
    ensures m.Keys == set i | 0 <= i < Min(|ks|, |vs|) :: ks[i]
    decreases |ks|
  {
    var n := Min(|ks|, |vs|);
    if n == 0 then map[]
    else ZipDict(ks[..n - 1], vs[..n - 1])[ks[n - 1] := vs[n - 1]]
  }

  /** Each key holds the value paired with its last occurrence. */
  lemma {:induction false} ZipDictLastWins<K, V>(ks: seq<K>, vs: seq<V>, i: nat)
    requires i < |ks| && i < |vs|
    requires forall j :: i < j < Min(|ks|, |vs|) ==> ks[j] != ks[i]
    ensures ZipDict(ks, vs)[ks[i]] == vs[i]
    decreases |ks|
  {
    var n := Min(|ks|, |vs|);
    if i < n - 1 {
      ZipDictLastWins(ks[..n - 1], vs[..n - 1], i);
    }
  }

  /** `classify(model, input_paths, image_dim)`: loads the inputs, classifies the batch
      and maps each surviving input to the dictionary of its row. */
  method Classify<M, B(==), Img, S>(
    model: M, inputs: Inputs<B>, imageDim: nat,
    fs: FileSystem, dec: Decoders<B, Img>, predict: (M, seq<Img>) -> seq<seq<S>>)
    returns (r: Result<map<ImageInput<B>, map<string, S>>, Error>)
    ensures
      var kept := Kept(Expand(inputs, fs), (imageDim, imageDim), dec);
      var rows := RowMaps(predict(model, Loaded(Expand(inputs, fs), (imageDim, imageDim), dec)));
      && (rows.Failure? ==> r == Failure(rows.error))
      && (rows.Success? ==> r == Success(ZipDict(kept, rows.value)))
  {
    var images, imagePaths := LoadImages(inputs, (imageDim, imageDim), fs, dec);
    var probs := ClassifyNd(model, images, predict);
    match probs
    case Failure(e) => r := Failure(e);
    case Success(ps) => r := Success(ZipDict(imagePaths, ps));
  }

  /** When the model returns one row per surviving input (the batch `LoadImages` builds has
      one image per surviving input) and every row fits the category list, `classify` keys
      exactly the surviving inputs, and an input whose last occurrence is at position `k`
      gets the dictionary of row `k`. */
  lemma ClassifyPairsInputsWithRows<K, S>(kept: seq<K>, preds: seq<seq<S>>, k: nat)
    requires |preds| == |kept|
    requires forall i :: 0 <= i < |preds| ==> |preds[i]| <= |Categories|
    requires k < |kept|
    requires forall j :: k < j < |kept| ==> kept[j] != kept[k]
    ensures RowMaps(preds).Success?
    ensures ZipDict(kept, RowMaps(preds).value).Keys == set x | x in kept
    ensures ZipDict(kept, RowMaps(preds).value)[kept[k]] == RowMap(preds[k])
    ensures forall j :: 0 <= j < |preds[k]| ==>
              Categories[j] in ZipDict(kept, RowMaps(preds).value)[kept[k]] &&
              ZipDict(kept, RowMaps(preds).value)[kept[k]][Categories[j]] == preds[k][j]
  {
    var ps := RowMaps(preds).value;
    assert Min(|kept|, |ps|) == |kept|;
    var keys := ZipDict(kept, ps).Keys;
    forall x | x in kept ensures x in keys {
      var i :| 0 <= i < |kept| && kept[i] == x;
    }
    ZipDictLastWins(kept, ps, k);
    RowMapMeaning(preds[k]);
  }
}
