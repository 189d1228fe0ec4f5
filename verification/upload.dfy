/**
  The editor's image-upload endpoint: the checks a posted file must pass,
  in their order, and the random, date-based storage path the endpoint
  can derive for an upload.
 */
module Upload {
  import opened Wrappers
  import opened Text
  import opened Decimal

  /** The posted file, as far as the endpoint reads it. */
  datatype UploadedFile = UploadedFile(name: string, mimeType: string, size: int)

  /** A form field's value: a text value or a file. */
  datatype FormValue = TextValue(text: string) | FileValue(file: UploadedFile)

  /** The request as the endpoint reads it: a body that does not parse as a form, or the form's `upload` field. */
  datatype UploadRequest = Malformed | Form(upload: Option<FormValue>)

  datatype UploadBody = Url(url: string) | Error(error: string)

  datatype UploadResponse = UploadResponse(status: int, body: UploadBody)

  const AllowedTypes: seq<string> := ["image/jpeg", "image/png", "image/gif", "image/webp"]

  /** Five mebibytes. */
  const MaxSize: int := 5 * 1024 * 1024

  const MsgNoFile: string := "No file uploaded"
  const MsgBadType: string := "Invalid file type. Only JPEG, PNG, GIF, and WebP are allowed."
  const MsgTooLarge: string := "File too large. Maximum size is 5MB."
  const MsgServerError: string := "Internal server error"

  /** The address returned for every accepted upload until storage exists. */
  const PlaceholderUrl: string := "https://via.placeholder.com/800x600/cccccc/666666?text=Uploaded+Image"

  /** `!file`: the field is absent or an empty text value; a file object is always truthy. */
  predicate Falsy(v: Option<FormValue>)
  {
    v.None? || (v.value.TextValue? && v.value.text == "")
  }

  /** A posted file of one of the four image types, at most 5 MiB. */
  predicate Acceptable(req: UploadRequest)
  {
    req.Form? && req.upload.Some? && req.upload.value.FileValue?
    && req.upload.value.file.mimeType in AllowedTypes && req.upload.value.file.size <= MaxSize
  }

  /**
    `POST`: a body that is not a form is a server error (the `catch`); then
    a missing file, a type outside the four image types (a text value has
    no type) and a size above 5 MiB are refused with 400, in that order;
    any other file is answered with the placeholder address.
   */
  function Post(req: UploadRequest): (r: UploadResponse)
    ensures req.Malformed? <==> r.status == 500
    ensures req.Malformed? ==> r.body == Error(MsgServerError)
    ensures req.Form? && Falsy(req.upload) ==> r == UploadResponse(400, Error(MsgNoFile))
    ensures req.Form? && !Falsy(req.upload) && req.upload.value.TextValue? ==> r == UploadResponse(400, Error(MsgBadType))
    ensures req.Form? && req.upload.Some? && req.upload.value.FileValue? && req.upload.value.file.mimeType !in AllowedTypes ==>
              r == UploadResponse(400, Error(MsgBadType))
    ensures req.Form? && req.upload.Some? && req.upload.value.FileValue? && req.upload.value.file.mimeType in AllowedTypes
            && req.upload.value.file.size > MaxSize ==>
              r == UploadResponse(400, Error(MsgTooLarge))
    ensures r.status == 200 <==> Acceptable(req)
    ensures r.status == 200 ==> r.body == Url(PlaceholderUrl)
    ensures r.status in {200, 400, 500}
  {
    match req
    case Malformed => UploadResponse(500, Error(MsgServerError))
    case Form(upload) =>
      if Falsy(upload) then UploadResponse(400, Error(MsgNoFile))
      else
        match upload.value
        case TextValue(_) => UploadResponse(400, Error(MsgBadType))
        case FileValue(f) =>
          if f.mimeType !in AllowedTypes then UploadResponse(400, Error(MsgBadType))
          else if f.size > MaxSize then UploadResponse(400, Error(MsgTooLarge))
          else UploadResponse(200, Url(PlaceholderUrl))
  }

  /** The size limit is inclusive: exactly 5 MiB passes, one byte more does not. */
  lemma SizeLimitInclusive(name: string)
    ensures Post(Form(Some(FileValue(UploadedFile(name, "image/png", 5242880))))).status == 200
    ensures Post(Form(Some(FileValue(UploadedFile(name, "image/png", 5242881))))) == UploadResponse(400, Error(MsgTooLarge))
  {
  }

  /** A file of the wrong type is refused for its type, whatever its size. */
  lemma TypeCheckedFirst(f: UploadedFile, g: UploadedFile)
    requires f.mimeType == g.mimeType && f.mimeType !in AllowedTypes
    ensures Post(Form(Some(FileValue(f)))) == Post(Form(Some(FileValue(g))))
  {
  }

  // ---------------------------------------------------------------------
  // Storage path
  // ---------------------------------------------------------------------

  /** The extension of each accepted image type. */
  function MimeExt(mimeType: string): (r: Option<string>)
    ensures r.Some? <==> mimeType in AllowedTypes
  {
    if mimeType == "image/jpeg" then Some("jpg")
    else if mimeType == "image/png" then Some("png")
    else if mimeType == "image/gif" then Some("gif")
    else if mimeType == "image/webp" then Some("webp")
    else None
  }

  /** Lower-casing twice is lower-casing once. */
  lemma LowerIdempotent(s: string)
    ensures Lower(Lower(s)) == Lower(s)
  {
    assert forall i :: 0 <= i < |s| ==> LowerChar(LowerChar(s[i])) == LowerChar(s[i]);
  }

  /** The original name's extension: the lower-cased text after its last dot, or `bin` without a dot. */
  function FallbackExt(fileName: string): (r: string)
    ensures '.' !in fileName ==> r == "bin"
    ensures '.' in fileName ==> '.' !in r && |r| < |fileName|
    ensures Lower(r) == r
    ensures '.' in fileName ==>
              exists k :: 0 <= k < |fileName| && fileName[k] == '.' && r == Lower(fileName[k + 1..])
                          && '.' !in fileName[k + 1..]
  {
    match LastIndexOfChar(fileName, '.')
    case None =>
      assert Lower("bin") == "bin";
      "bin"
    case Some(k) =>
      var tail := fileName[k + 1..];
      assert forall c :: c in tail ==> c != '.';
      var r := Lower(tail);
      LowerIdempotent(tail);
      assert forall i :: 0 <= i < |r| ==> r[i] != '.' by {
        forall i | 0 <= i < |r| ensures r[i] != '.' {
          assert r[i] == LowerChar(tail[i]);
        }
      }
      r
  }

  /** `mimeToExt[mimeType] || fallbackExt`: the type's extension, else the name's. */
  function Ext(fileName: string, mimeType: string): (r: string)
    ensures mimeType in AllowedTypes ==> Some(r) == MimeExt(mimeType)
    ensures mimeType !in AllowedTypes ==> r == FallbackExt(fileName)
    ensures '.' !in r && Lower(r) == r
  {
    match MimeExt(mimeType)
    case Some(e) =>
      assert Lower("jpg") == "jpg" && Lower("png") == "png" && Lower("gif") == "gif" && Lower("webp") == "webp";
      e
    case None => FallbackExt(fileName)
  }

  /** A month or a day padded to two digits is exactly two characters long. */
  lemma TwoDigits(n: nat)
    requires 1 <= n <= 31
    ensures |ZeroPad(n, 2)| == 2
  {
    assert Pow10(2) == 100 by {
      assert Pow10(1) == 10;
    }
    ZeroPadWidth(n, 2);
  }

  /** Where the parts of `y/mm/dd` sit when `mm` and `dd` are two characters long. */
  lemma DirParts(y: string, mm: string, dd: string)
    requires |mm| == 2 && |dd| == 2
    ensures var r := y + "/" + mm + "/" + dd;
            |r| == |y| + 6 && r[..|y|] == y && r[|y|] == '/' && r[|y| + 3] == '/'
            && r[|y| + 1..|y| + 3] == mm && r[|y| + 4..] == dd
  {
    var r := y + "/" + mm + "/" + dd;
    assert r == y + ("/" + mm + "/" + dd);
  }

  /** The dated directory `yyyy/mm/dd`, month and day padded to two digits. */
  function DateDir(year: int, month: nat, day: nat): (r: string)
    requires 1 <= month <= 12 && 1 <= day <= 31
    ensures var y := IntToString(year);
            |r| == |y| + 6 && r[..|y|] == y && r[|y|] == '/' && r[|y| + 3] == '/'
            && AllDigits(r[|y| + 1..|y| + 3]) && Value(r[|y| + 1..|y| + 3]) == month
            && AllDigits(r[|y| + 4..]) && Value(r[|y| + 4..]) == day
  {
    var y := IntToString(year);
    var mm := ZeroPad(month, 2);
    var dd := ZeroPad(day, 2);
    TwoDigits(month);
    TwoDigits(day);
    DirParts(y, mm, dd);
    y + "/" + mm + "/" + dd
  }

  datatype FilePath = FilePath(relativeDir: string, fileName: string, ext: string)

  /**
    `generateRandomFilePath`: the directory of the upload's date (a
    0-based month, as the clock gives it) and the name `uuid.ext`. The
    clock and the random identifier are parameters.
   */
  function GenerateRandomFilePath(originalName: string, mimeType: string,
                                  year: int, month0: nat, day: nat, uuid: string): (r: FilePath)
    requires month0 <= 11 && 1 <= day <= 31
    ensures r.ext == Ext(originalName, mimeType)
    ensures r.relativeDir == DateDir(year, month0 + 1, day)
    ensures r.fileName == uuid + "." + r.ext
  {
    var ext := Ext(originalName, mimeType);
    FilePath(DateDir(year, month0 + 1, day), uuid + "." + ext, ext)
  }

  /** The extension read back from `pre.ext` is `ext`, for a lower-case `ext` without dots. */
  lemma FallbackOfDotted(pre: string, ext: string)
    requires '.' !in ext && Lower(ext) == ext
    ensures FallbackExt(pre + "." + ext) == ext
  {
    var name := pre + "." + ext;
    assert name[|pre|] == '.';
    assert name[|pre| + 1..] == ext;
    var r := FallbackExt(name);
    var k :| 0 <= k < |name| && name[k] == '.' && r == Lower(name[k + 1..]) && '.' !in name[k + 1..];
    assert k == |pre|;
  }

  /** Reading the extension back from a generated file name gives the extension chosen. */
  lemma ExtReadBack(originalName: string, mimeType: string, year: int, month0: nat, day: nat, uuid: string)
    requires month0 <= 11 && 1 <= day <= 31
    ensures var p := GenerateRandomFilePath(originalName, mimeType, year, month0, day, uuid);
            FallbackExt(p.fileName) == p.ext
  {
    FallbackOfDotted(uuid, Ext(originalName, mimeType));
  }

  /**
    An accepted upload's stored name always takes its extension from the
    type, never from the original name: every accepted type is mapped.
   */
  lemma AcceptedExt(req: UploadRequest, year: int, month0: nat, day: nat, uuid: string)
    requires month0 <= 11 && 1 <= day <= 31
    requires Post(req).status == 200
    ensures var f := req.upload.value.file;
            MimeExt(f.mimeType).Some?
            && GenerateRandomFilePath(f.name, f.mimeType, year, month0, day, uuid).ext == MimeExt(f.mimeType).value
  {
  }
}
