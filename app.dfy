/** The HTTP front end (app.py): the upload extension filter and the request logic of the
    `/` and `/health` routes.

    Flask, werkzeug and the classifier are outside the model: a request is a value, the
    upload folder is an object whose files the handler saves and removes, and
    `secure_filename` and `predict.classify` are function parameters. A classifier call that
    raises is a `Failure`, which Flask answers with a 500. */
module App {
  import opened Wrappers
  import Paths

  /** The extensions an upload may have, in lower case. */
  const AllowedExtensions: set<string> := {"png", "jpg", "jpeg", "gif"}

  /** Where uploads are staged while they are classified. */
  const UploadFolderPath: string := "/tmp/uploads/"

  /** The multipart field that carries the uploads. */
  const FilesField: string := "files[]"

  const LivenessMessage: string := "The model is up and running. Send a POST request with a list of images."

  // ---------------------------------------------------------------------------
  // allowed_file
  // ---------------------------------------------------------------------------

  /** `str.lower` on one character, for the ASCII letters. */
  function LowerChar(c: char): (d: char)
    ensures d == '.' <==> c == '.'
    ensures !('A' <= d <= 'Z')
    ensures 'A' <= c <= 'Z' ==> 'a' <= d <= 'z'
    ensures !('A' <= c <= 'Z') ==> d == c
  {
    if 'A' <= c <= 'Z' then (c as int - 'A' as int + 'a' as int) as char else c
  }

  /** `str.lower`, character by character. */
  function Lower(s: string): (t: string)
    ensures |t| == |s|
  {
    seq(|s|, i requires 0 <= i < |s| => LowerChar(s[i]))
  }

  /** Lower-casing leaves no upper-case letter, keeps every other character, and doing it
      twice is doing it once. */
  lemma LowerMeaning(s: string)
    ensures forall i :: 0 <= i < |s| ==> !('A' <= Lower(s)[i] <= 'Z')
    ensures forall i :: 0 <= i < |s| && !('A' <= s[i] <= 'Z') ==> Lower(s)[i] == s[i]
    ensures Lower(Lower(s)) == Lower(s)
  {
  }

  /** The position of the last `.` in `s`, if there is one. */
  function LastDot(s: string): (r: Option<nat>)
    ensures r.None? <==> '.' !in s
    ensures r.Some? ==> r.value < |s| && s[r.value] == '.' && '.' !in s[r.value + 1..]
    decreases |s|
  {
    if s == [] then None
    else if s[|s| - 1] == '.' then Some(|s| - 1)
    else
      var r := LastDot(s[..|s| - 1]);
      assert s == s[..|s| - 1] + [s[|s| - 1]];
      assert r.Some? ==> s[r.value + 1..] == s[..|s| - 1][r.value + 1..] + [s[|s| - 1]];
      r
  }

  /** `allowed_file(filename)`: the file name has a `.` and the text after the last one,
      lower-cased, is an allowed extension. */
  function AllowedFile(filename: string): (ok: bool)
    ensures ok ==> '.' in filename && |filename| >= 4
  {
    match LastDot(filename)
    case None => false
    case Some(i) => Lower(filename[i + 1..]) in AllowedExtensions
  }

  /** `allowed_file` accepts exactly the names with a `.` after which no `.` follows and
      whose remaining text lower-cases to an allowed extension. */
  lemma AllowedFileMeaning(filename: string)
    ensures AllowedFile(filename) <==>
            exists i :: 0 <= i < |filename| && filename[i] == '.' && '.' !in filename[i + 1..] &&
                        Lower(filename[i + 1..]) in AllowedExtensions
  {
    var r := LastDot(filename);
    if r.Some? {
      var i := r.value;
      if exists j :: 0 <= j < |filename| && filename[j] == '.' && '.' !in filename[j + 1..] &&
                     Lower(filename[j + 1..]) in AllowedExtensions {
        var j :| 0 <= j < |filename| && filename[j] == '.' && '.' !in filename[j + 1..] &&
                 Lower(filename[j + 1..]) in AllowedExtensions;
        NoDotAfterLast(filename, j, i);
        NoDotAfterLast(filename, i, j);
      }
    } else {
      forall j | 0 <= j < |filename| ensures filename[j] != '.' {
        assert filename[j] in filename;
      }
    }
  }

  /** A `.` at position `k` lies at or before any last `.` at position `i`. */
  lemma NoDotAfterLast(s: string, i: nat, k: nat)
    requires i < |s| && '.' !in s[i + 1..]
    requires k < |s| && s[k] == '.'
    ensures k <= i
  {
  }

  /** Only the segment after the last `.` decides: `x.tar.png` passes, `x.png.exe` does not,
      and a name ending in `.` has the empty extension and is rejected. */
  lemma LastSegmentDecides(stem: string, ext: string)
    requires '.' !in ext
    ensures AllowedFile(stem + "." + ext) <==> Lower(ext) in AllowedExtensions
  {
    var f := stem + "." + ext;
    assert f[|stem|] == '.';
    assert f[|stem| + 1..] == ext;
    assert LastDot(f) == Some(|stem|);
  }

  /** A name without a `.` is never accepted. */
  lemma NoDotRejected(filename: string)
    requires '.' !in filename
    ensures !AllowedFile(filename)
  {
    assert LastDot(filename).None?;
  }

  /** Case does not matter: two names that agree after lower-casing are both accepted or
      both rejected. */
  lemma CaseInsensitive(f: string, g: string)
    requires Lower(f) == Lower(g)
    ensures AllowedFile(f) == AllowedFile(g)
  {
    AllowedFileMeaning(f);
    AllowedFileMeaning(g);
    if AllowedFile(f) {
      var i :| 0 <= i < |f| && f[i] == '.' && '.' !in f[i + 1..] && Lower(f[i + 1..]) in AllowedExtensions;
      SameDotsAfterLowering(f, g, i);
    }
    if AllowedFile(g) {
      var i :| 0 <= i < |g| && g[i] == '.' && '.' !in g[i + 1..] && Lower(g[i + 1..]) in AllowedExtensions;
      SameDotsAfterLowering(g, f, i);
    }
  }

  /** If `i` is the last dot of `f`, and `g` lowers to the same text, then `i` is the last dot
      of `g` and the extensions lower to the same text. */
  lemma SameDotsAfterLowering(f: string, g: string, i: nat)
    requires Lower(f) == Lower(g)
    requires i < |f| && f[i] == '.' && '.' !in f[i + 1..]
    ensures i < |g| && g[i] == '.' && '.' !in g[i + 1..] && Lower(g[i + 1..]) == Lower(f[i + 1..])
  {
    assert |g| == |f|;
    assert LowerChar(g[i]) == Lower(g)[i] == Lower(f)[i] == LowerChar(f[i]);
    forall k | i + 1 <= k < |g| ensures g[k] != '.' {
      assert LowerChar(g[k]) == Lower(g)[k] == Lower(f)[k] == LowerChar(f[k]);
      assert f[k] in f[i + 1..];
    }
    assert Lower(g[i + 1..]) == Lower(g)[i + 1..] == Lower(f)[i + 1..] == Lower(f[i + 1..]);
  }

  /** `x.tar.png` is accepted: only the last segment counts. */
  lemma DoubleExtensionAccepted()
    ensures AllowedFile("x.tar.png")
  {
    LastSegmentDecides("x.tar", "png");
    assert "x.tar" + "." + "png" == "x.tar.png";
    assert Lower("png") == "png";
  }

  /** `x.png.exe` is rejected: an allowed inner segment does not help. */
  lemma InnerExtensionIgnored()
    ensures !AllowedFile("x.png.exe")
  {
    LastSegmentDecides("x.png", "exe");
    assert "x.png" + "." + "exe" == "x.png.exe";
    assert Lower("exe") == "exe";
  }

  /** `PHOTO.JPG` is accepted: the extension is lower-cased first. */
  lemma UpperCaseAccepted()
    ensures AllowedFile("PHOTO.JPG")
  {
    LastSegmentDecides("PHOTO", "JPG");
    assert "PHOTO" + "." + "JPG" == "PHOTO.JPG";
    assert Lower("JPG") == "jpg";
  }

  /** `photo.` is rejected: its extension is empty. */
  lemma TrailingDotRejected()
    ensures !AllowedFile("photo.")
  {
    LastSegmentDecides("photo", "");
    assert "photo" + "." + "" == "photo.";
  }

  // ---------------------------------------------------------------------------
  // Requests and responses
  // ---------------------------------------------------------------------------

  /** One uploaded part (werkzeug's `FileStorage`): the client's file name and its bytes. */
  datatype Upload<C> = Upload(filename: string, content: C)

  /** A `FileStorage` is truthy when its file name is not empty. */
  predicate Truthy<C>(u: Upload<C>) { u.filename != "" }

  /** A request to `/`: a GET, or a POST whose `request.files` maps each multipart field
      name to the list of parts under it. */
  datatype Request<C> = Get | Post(files: map<string, seq<Upload<C>>>)

  /** One element of the success response. */
  datatype Record<R> = Record(filename: string, result: R)

  datatype Body<R> =
    | Text(text: string)                  // a plain string
    | ErrorJson(error: string)            // jsonify(error=...)
    | StatusJson(status: string)          // jsonify(status=...)
    | RecordsJson(records: seq<Record<R>>) // jsonify(results)
    | InternalServerError                 // Flask's page for an uncaught exception

  datatype Response<R> = Response(code: nat, body: Body<R>)

  /** A part the loop classifies: truthy and with an allowed extension. */
  predicate Eligible<C>(u: Upload<C>) { Truthy(u) && AllowedFile(u.filename) }

  /** The staging path of a part: the upload folder joined with its secured name. */
  function StagingPath<C>(u: Upload<C>, secure: string -> string): string
  {
    Paths.Join(UploadFolderPath, secure(u.filename))
  }

  /** The eligible parts, in upload order. */
  function EligibleParts<C>(parts: seq<Upload<C>>): (e: seq<Upload<C>>)
    ensures |e| <= |parts|
    ensures forall k :: 0 <= k < |e| ==> Eligible(e[k])
    decreases |parts|
  {
    if parts == [] then []
    else
      var last := parts[|parts| - 1];
      EligibleParts(parts[..|parts| - 1]) + if Eligible(last) then [last] else []
  }

  /** A part is among the eligible parts exactly when it is in the upload and eligible. */
  lemma {:induction false} EligiblePartsMeaning<C>(parts: seq<Upload<C>>, u: Upload<C>)
    ensures u in EligibleParts(parts) <==> u in parts && Eligible(u)
    decreases |parts|
  {
    if parts != [] {
      var init := parts[..|parts| - 1];
      var last := parts[|parts| - 1];
      EligiblePartsMeaning(init, u);
      assert parts == init + [last];
    }
  }

  /** Filtering keeps upload order: the eligible parts of two uploads in a row are those of
      the first followed by those of the second. */
  lemma {:induction false} EligiblePartsAppend<C>(a: seq<Upload<C>>, b: seq<Upload<C>>)
    ensures EligibleParts(a + b) == EligibleParts(a) + EligibleParts(b)
    decreases |b|
  {
    if b == [] {
      assert a + b == a;
    } else {
      var init := b[..|b| - 1];
      var ab := a + b;
      assert ab != [] && ab[..|ab| - 1] == a + init && ab[|ab| - 1] == b[|b| - 1];
      EligiblePartsAppend(a, init);
    }
  }

  /** The records the loop builds over `parts`, or the first classifier exception. */
  function Process<C, R>(parts: seq<Upload<C>>, secure: string -> string, classify: (string, C) -> Result<R, string>)
    : (r: Result<seq<Record<R>>, string>)
    ensures r.Success? ==> |r.value| <= |parts|
    decreases |parts|
  {
    if parts == [] then Success([])
    else
      var prev := Process(parts[..|parts| - 1], secure, classify);
      var u := parts[|parts| - 1];
      if prev.Failure? || !Eligible(u) then prev
      else
        match classify(StagingPath(u, secure), u.content)
        case Failure(e) => Failure(e)
        case Success(v) => Success(prev.value + [Record(secure(u.filename), v)])
  }

  /** The upload folder after the loop over `parts`: each eligible part is saved and, if
      its classification returns, removed again; the loop stops at the first exception. */
  function FolderAfter<C, R>(files: map<string, C>, parts: seq<Upload<C>>, secure: string -> string,
                            classify: (string, C) -> Result<R, string>): (m: map<string, C>)
    ensures m.Keys <= files.Keys + StagedPaths(parts, secure)
    decreases |parts|
  {
    if parts == [] then files
    else
      var init := parts[..|parts| - 1];
      var before := FolderAfter(files, init, secure, classify);
      var u := parts[|parts| - 1];
      var path := StagingPath(u, secure);
      if Process(init, secure, classify).Failure? || !Eligible(u) then before
      else if classify(path, u.content).Failure? then before[path := u.content]
      else before - {path}
  }

  /** The response of `inference()` for a request. */
  function Respond<C, R>(req: Request<C>, secure: string -> string, classify: (string, C) -> Result<R, string>)
    : (resp: Response<R>)
    ensures resp.code == 200 || resp.code == 400 || resp.code == 500
    ensures req.Get? ==> resp.code == 200
    ensures resp.code == 500 <==> resp.body.InternalServerError?
    ensures resp.body.RecordsJson? ==> resp.code == 200 && req.Post? && resp.body.records != []
  {
    match req
    case Get => Response(200, Text(LivenessMessage))
    case Post(files) =>
      if FilesField !in files then Response(400, ErrorJson("No files part"))
      else if files[FilesField] == [] then Response(400, ErrorJson("No files uploaded"))
      else
        match Process(files[FilesField], secure, classify)
        case Failure(_) => Response(500, InternalServerError)
        case Success(results) =>
          if results == [] then Response(400, ErrorJson("None of the uploaded files are valid"))
          else Response(200, RecordsJson(results))
  }

  /** `health_check()`. */
  function Health<R>(): (resp: Response<R>)
    ensures resp.code == 200 && resp.body == StatusJson("healthy")
  {
    Response(200, StatusJson("healthy"))
  }

  // ---------------------------------------------------------------------------
  // The handler
  // ---------------------------------------------------------------------------

  /** The staging directory: file paths and their contents. */
  class UploadFolder<C> {
    var files: map<string, C>

    constructor (initial: map<string, C>)
      ensures files == initial
    {
      files := initial;
    }

    /** `file.save(path)`. */
    method Save(path: string, content: C)
      modifies this
      ensures files == old(files)[path := content]
    {
      files := files[path := content];
    }

    /** `os.remove(path)`, of a file that is there. */
    method Remove(path: string)
      requires path in files
      modifies this
      ensures files == old(files) - {path}
    {
      files := files - {path};
    }
  }

  /** Once the loop has hit an exception, later parts change neither the outcome nor the
      folder. */
  lemma {:induction false} FailureStops<C, R>(files: map<string, C>, parts: seq<Upload<C>>, k: nat,
                                             secure: string -> string, classify: (string, C) -> Result<R, string>)
    requires k <= |parts|
    requires Process(parts[..k], secure, classify).Failure?
    ensures Process(parts, secure, classify) == Process(parts[..k], secure, classify)
    ensures FolderAfter(files, parts, secure, classify) == FolderAfter(files, parts[..k], secure, classify)
    decreases |parts| - k
  {
    if k < |parts| {
      assert parts[..k + 1][..k] == parts[..k];
      FailureStops(files, parts, k + 1, secure, classify);
    } else {
      assert parts[..k] == parts;
    }
  }

  /** `inference()`: answers a GET with the liveness text; for a POST checks the `files[]`
      field, then saves, classifies and removes each eligible part in order, collecting one
      record per part. */
  /** One turn of the loop: how part `i` extends the outcome and the folder of the parts
      before it. */
  lemma LoopStep<C, R>(files: map<string, C>, parts: seq<Upload<C>>, i: nat, secure: string -> string,
                       classify: (string, C) -> Result<R, string>)
    requires i < |parts|
    ensures var prev := Process(parts[..i], secure, classify);
            var u := parts[i];
            var path := StagingPath(u, secure);
            Process(parts[..i + 1], secure, classify) ==
              if prev.Failure? || !Eligible(u) then prev
              else match classify(path, u.content)
                   case Failure(e) => Failure(e)
                   case Success(v) => Success(prev.value + [Record(secure(u.filename), v)])
    ensures var prev := Process(parts[..i], secure, classify);
            var u := parts[i];
            var path := StagingPath(u, secure);
            var before := FolderAfter(files, parts[..i], secure, classify);
            FolderAfter(files, parts[..i + 1], secure, classify) ==
              if prev.Failure? || !Eligible(u) then before
              else if classify(path, u.content).Failure? then before[path := u.content]
              else before - {path}
  {
    assert parts[..i + 1][..i] == parts[..i];
  }

  /** Saving a file and removing it again leaves the folder without that path. */
  lemma SaveThenRemove<C>(files: map<string, C>, path: string, content: C)
    ensures files[path := content] - {path} == files - {path}
  {
  }

  method Inference<C, R>(req: Request<C>, folder: UploadFolder<C>, secure: string -> string,
                         classify: (string, C) -> Result<R, string>) returns (resp: Response<R>)
    modifies folder
    ensures resp == Respond(req, secure, classify)
    ensures req.Post? && FilesField in req.files && req.files[FilesField] != [] ==>
              folder.files == FolderAfter(old(folder.files), req.files[FilesField], secure, classify)
    ensures !(req.Post? && FilesField in req.files && req.files[FilesField] != []) ==>
              folder.files == old(folder.files)
  {
    if req.Get? {
      return Response(200, Text(LivenessMessage));
    }
    if FilesField !in req.files {
      return Response(400, ErrorJson("No files part"));
    }
    var files := req.files[FilesField];
    if files == [] {
      return Response(400, ErrorJson("No files uploaded"));
    }
    var results: seq<Record<R>> := [];
    var i := 0;
    while i < |files|
      invariant 0 <= i <= |files|
      invariant Process(files[..i], secure, classify) == Success(results)
      invariant folder.files == FolderAfter(old(folder.files), files[..i], secure, classify)
    {
      LoopStep(old(folder.files), files, i, secure, classify);
      ghost var before := folder.files;
      var file := files[i];
      if Truthy(file) && AllowedFile(file.filename) {
        var filename := secure(file.filename);
        var filepath := Paths.Join(UploadFolderPath, filename);
        folder.Save(filepath, file.content);
        var result := classify(filepath, folder.files[filepath]);
        if result.Failure? {
          // the exception leaves inference(): os.remove is skipped and Flask answers 500
          FailureStops(old(folder.files), files, i + 1, secure, classify);
          return Response(500, InternalServerError);
        }
        results := results + [Record(filename, result.value)];
        folder.Remove(filepath);
        SaveThenRemove(before, filepath, file.content);
      }
      i := i + 1;
    }
    assert files[..i] == files;
    if results == [] {
      return Response(400, ErrorJson("None of the uploaded files are valid"));
    }
    return Response(200, RecordsJson(results));
  }

  // ---------------------------------------------------------------------------
  // Properties of the handler
  // ---------------------------------------------------------------------------

  /** The truthiness test adds nothing: an allowed name is never empty. */
  lemma AllowedIsTruthy<C>(u: Upload<C>)
    ensures Eligible(u) <==> AllowedFile(u.filename)
  {
    if AllowedFile(u.filename) {
      assert LastDot(u.filename).Some?;
    }
  }

  /** On success there is exactly one record per eligible part, in upload order, carrying
      its secured name and whatever the classifier returned for it. */
  lemma {:induction false} RecordsMatchEligibleParts<C, R>(parts: seq<Upload<C>>, secure: string -> string,
                                                          classify: (string, C) -> Result<R, string>)
    requires Process(parts, secure, classify).Success?
    ensures var records := Process(parts, secure, classify).value;
            var e := EligibleParts(parts);
            && |records| == |e| <= |parts|
            && forall k :: 0 <= k < |e| ==>
                 && classify(StagingPath(e[k], secure), e[k].content).Success?
                 && records[k] == Record(secure(e[k].filename), classify(StagingPath(e[k], secure), e[k].content).value)
    decreases |parts|
  {
    if parts != [] {
      RecordsMatchEligibleParts(parts[..|parts| - 1], secure, classify);
    }
  }

  /** The loop fails exactly when the classifier raises for some eligible part. */
  lemma {:induction false} ProcessFailsIffClassifierRaises<C, R>(parts: seq<Upload<C>>, secure: string -> string,
                                                                classify: (string, C) -> Result<R, string>)
    ensures Process(parts, secure, classify).Failure? <==>
            exists u :: u in parts && Eligible(u) && classify(StagingPath(u, secure), u.content).Failure?
    decreases |parts|
  {
    if parts != [] {
      var init := parts[..|parts| - 1];
      var last := parts[|parts| - 1];
      ProcessFailsIffClassifierRaises(init, secure, classify);
      assert parts == init + [last];
      assert forall u :: u in parts <==> u in init || u == last;
    }
  }

  /** The staging paths of the eligible parts. */
  function StagedPaths<C>(parts: seq<Upload<C>>, secure: string -> string): set<string>
    decreases |parts|
  {
    if parts == [] then {}
    else
      var last := parts[|parts| - 1];
      StagedPaths(parts[..|parts| - 1], secure) + if Eligible(last) then {StagingPath(last, secure)} else {}
  }

  /** A path is staged exactly when it is the staging path of some eligible part. */
  lemma {:induction false} StagedPathsMeaning<C>(parts: seq<Upload<C>>, secure: string -> string, p: string)
    ensures p in StagedPaths(parts, secure) <==> exists u :: u in parts && Eligible(u) && StagingPath(u, secure) == p
    decreases |parts|
  {
    if parts != [] {
      var init := parts[..|parts| - 1];
      var last := parts[|parts| - 1];
      StagedPathsMeaning(init, secure, p);
      assert parts == init + [last];
      assert forall u :: u in parts <==> u in init || u == last;
    }
  }

  /** The loop touches staging paths only: every other entry of the folder is kept as it was. */
  lemma {:induction false} FolderAfterKeepsOthers<C, R>(files: map<string, C>, parts: seq<Upload<C>>,
                                                       secure: string -> string, classify: (string, C) -> Result<R, string>,
                                                       p: string)
    requires p in files && p !in StagedPaths(parts, secure)
    ensures p in FolderAfter(files, parts, secure, classify)
    ensures FolderAfter(files, parts, secure, classify)[p] == files[p]
    decreases |parts|
  {
    if parts != [] {
      FolderAfterKeepsOthers(files, parts[..|parts| - 1], secure, classify, p);
    }
  }

  /** After a successful loop every staging path that was written has been removed, and
      nothing else in the folder changed. */
  lemma {:induction false} CleanupAfterSuccess<C, R>(files: map<string, C>, parts: seq<Upload<C>>,
                                                    secure: string -> string, classify: (string, C) -> Result<R, string>)
    requires Process(parts, secure, classify).Success?
    ensures FolderAfter(files, parts, secure, classify) == files - StagedPaths(parts, secure)
    decreases |parts|
  {
    if parts != [] {
      var init := parts[..|parts| - 1];
      var last := parts[|parts| - 1];
      var path := StagingPath(last, secure);
      assert Process(init, secure, classify).Success?;
      CleanupAfterSuccess(files, init, secure, classify);
      if Eligible(last) {
        assert classify(path, last.content).Success?;
        assert (files - StagedPaths(init, secure)) - {path} == files - (StagedPaths(init, secure) + {path});
      }
    }
  }

  /** When the classifier raises, the part being classified stays in the folder. */
  lemma {:induction false} StagedFileLeftOnFailure<C, R>(files: map<string, C>, parts: seq<Upload<C>>,
                                                        secure: string -> string, classify: (string, C) -> Result<R, string>)
    requires Process(parts, secure, classify).Failure?
    ensures exists u :: u in parts && Eligible(u) && classify(StagingPath(u, secure), u.content).Failure? &&
                        StagingPath(u, secure) in FolderAfter(files, parts, secure, classify) &&
                        FolderAfter(files, parts, secure, classify)[StagingPath(u, secure)] == u.content
    decreases |parts|
  {
    var init := parts[..|parts| - 1];
    var u := parts[|parts| - 1];
    if Process(init, secure, classify).Failure? {
      StagedFileLeftOnFailure(files, init, secure, classify);
      var w :| w in init && Eligible(w) && classify(StagingPath(w, secure), w.content).Failure? &&
               StagingPath(w, secure) in FolderAfter(files, init, secure, classify) &&
               FolderAfter(files, init, secure, classify)[StagingPath(w, secure)] == w.content;
      assert w in parts;
    } else {
      assert u in parts;
    }
  }

  /** A GET and the two early 400s do not depend on the classifier or on `secure_filename`:
      neither is called. */
  lemma EarlyAnswersCallNothing<C, R>(req: Request<C>, secure1: string -> string, classify1: (string, C) -> Result<R, string>,
                                      secure2: string -> string, classify2: (string, C) -> Result<R, string>)
    requires req.Get? || FilesField !in req.files || req.files[FilesField] == []
    ensures Respond(req, secure1, classify1) == Respond(req, secure2, classify2)
    ensures req.Get? ==> Respond(req, secure1, classify1) == Response(200, Text(LivenessMessage))
    ensures req.Post? && FilesField !in req.files ==> Respond(req, secure1, classify1) == Response(400, ErrorJson("No files part"))
    ensures req.Post? && FilesField in req.files ==> Respond(req, secure1, classify1) == Response(400, ErrorJson("No files uploaded"))
  {
  }

  /** A POST with parts succeeds exactly when some part is eligible and the classifier
      returns for every eligible part; with no eligible part the answer is the third 400. */
  lemma PostOutcome<C, R>(parts: seq<Upload<C>>, secure: string -> string, classify: (string, C) -> Result<R, string>)
    requires parts != []
    ensures var resp := Respond(Post(map[FilesField := parts]), secure, classify);
            && (EligibleParts(parts) == [] ==> resp == Response(400, ErrorJson("None of the uploaded files are valid")))
            && (resp.code == 200 <==> EligibleParts(parts) != [] && Process(parts, secure, classify).Success?)
            && (resp.code == 200 ==> resp.body.RecordsJson? && |resp.body.records| == |EligibleParts(parts)| <= |parts|)
  {
    var p := Process(parts, secure, classify);
    if p.Success? {
      RecordsMatchEligibleParts(parts, secure, classify);
    } else if EligibleParts(parts) == [] {
      ProcessFailsIffClassifierRaises(parts, secure, classify);
    }
  }
}
