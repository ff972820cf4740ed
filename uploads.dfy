/**
 * The string side of the two upload handlers (course image, lesson PDF):
 * classifying PHP's upload error code, the image type rule, the file-name
 * sanitiser, and the public path handed back to the browser.  What the file
 * system answers (detected MIME type, whether the directory exists or could
 * be created, whether the move succeeded) and the `uniqid()` prefix arrive
 * as an `UploadEnv`.
 */
module Uploads {
  import opened Wrappers
  import opened PhpStrings
  import opened Query

  const UPLOAD_ERR_OK := 0
  const UPLOAD_ERR_INI_SIZE := 1
  const UPLOAD_ERR_FORM_SIZE := 2
  const UPLOAD_ERR_NO_FILE := 4

  /** The sub-directories of `assets` the two handlers store into. */
  const ImageDir := "img-courses"
  const PdfDir := "pdfs"

  /** An entry of `$_FILES`: the client's file name and PHP's error code. */
  datatype UploadedFile = UploadedFile(name: string, error: int)

  /** Why an upload was refused. */
  datatype UploadError =
    | TooLarge             // UPLOAD_ERR_INI_SIZE or UPLOAD_ERR_FORM_SIZE
    | UploadFailed(code: int)
    | InvalidType
    | DirectoryFailed
    | MoveFailed

  /** `['path' => ..., 'error' => ...]`: nothing sent, a stored file's public path, or an error. */
  datatype UploadResult = NoUpload | Stored(path: string) | Rejected(error: UploadError)

  /** The file system's answers and the unique prefix for one upload. */
  datatype UploadEnv = UploadEnv(mime: string, uniqueId: string, directoryReady: bool, moved: bool, separator: DirSeparator)

  /** The first step of both handlers: is there a file, and did PHP receive it whole? */
  datatype Precheck = NothingSent | Refused(error: UploadError) | Received

  function CheckUploadError(file: Option<UploadedFile>): (r: Precheck)
    ensures r == NothingSent <==> file.None? || file.value.error == UPLOAD_ERR_NO_FILE
    ensures r == Received <==> file.Some? && file.value.error == UPLOAD_ERR_OK
    ensures r == Refused(TooLarge) <==> file.Some? && file.value.error in {UPLOAD_ERR_INI_SIZE, UPLOAD_ERR_FORM_SIZE}
    ensures r.Refused? && r.error != TooLarge ==> file.Some? && r.error == UploadFailed(file.value.error)
  {
    if file.None? || file.value.error == UPLOAD_ERR_NO_FILE then NothingSent
    else if file.value.error != UPLOAD_ERR_OK then
      if file.value.error == UPLOAD_ERR_INI_SIZE || file.value.error == UPLOAD_ERR_FORM_SIZE then Refused(TooLarge)
      else Refused(UploadFailed(file.value.error))
    else Received
  }

  /** The characters the sanitiser keeps: `[a-zA-Z0-9.\-_]`. */
  predicate IsSafe(c: char) {
    'a' <= c <= 'z' || 'A' <= c <= 'Z' || '0' <= c <= '9' || c == '.' || c == '-' || c == '_'
  }

  /** `preg_replace("/[^a-zA-Z0-9.\-_]/", "", $s)`: the safe characters of `s`, in order. */
  function Sanitize(s: string): (r: string)
    ensures |r| <= |s|
    ensures forall i :: 0 <= i < |r| ==> IsSafe(r[i])
  {
    Filter(s, IsSafe)
  }

  /** Every safe character keeps its number of occurrences; every other character is gone. */
  lemma {:induction false} SanitizeCounts(s: string, c: char)
    ensures multiset(Sanitize(s))[c] == if IsSafe(c) then multiset(s)[c] else 0
  {
    if s != [] {
      SanitizeCounts(s[1..], c);
      assert s == [s[0]] + s[1..];
      assert multiset(s) == multiset([s[0]]) + multiset(s[1..]);
      var head := if IsSafe(s[0]) then [s[0]] else [];
      assert Sanitize(s) == head + Sanitize(s[1..]);
      assert multiset(Sanitize(s)) == multiset(head) + multiset(Sanitize(s[1..]));
    }
  }

  /**
   * The sanitised name is the order-preserving subsequence of the safe
   * characters: they sit in `s` at strictly increasing positions, and every
   * safe character of `s` is among them.
   */
  lemma SanitizeIsSubsequence(s: string)
    ensures var f := FilterIndices(s, IsSafe);
            && |f| == |Sanitize(s)|
            && (forall k :: 0 <= k < |f| ==> 0 <= f[k] < |s| && Sanitize(s)[k] == s[f[k]])
            && (forall k, j :: 0 <= k < j < |f| ==> f[k] < f[j])
            && (forall i :: 0 <= i < |s| && IsSafe(s[i]) ==> i in f)
  {
    FilterIsSubsequence(s, IsSafe);
  }

  /** The sanitiser works character by character, keeping the order. */
  lemma SanitizeAppend(a: string, b: string)
    ensures Sanitize(a + b) == Sanitize(a) + Sanitize(b)
  {
    FilterAppend(a, b, IsSafe);
  }

  /** A name made only of safe characters comes out unchanged. */
  lemma SanitizeKeepsSafe(s: string)
    requires forall i :: 0 <= i < |s| ==> IsSafe(s[i])
    ensures Sanitize(s) == s
  {
    FilterAll(s, IsSafe);
  }

  /** Sanitising twice is sanitising once. */
  lemma SanitizeIdempotent(s: string)
    ensures Sanitize(Sanitize(s)) == Sanitize(s)
  {
    SanitizeKeepsSafe(Sanitize(s));
  }

  /** The name a file is stored under: `uniqid() . '-' . sanitised basename`. */
  function StoredName(separator: DirSeparator, uniqueId: string, clientName: string): (r: string)
    ensures |r| == |uniqueId| + 1 + |Sanitize(Basename(clientName, separator))|
    ensures r[..|uniqueId|] == uniqueId && r[|uniqueId|] == '-'
    ensures r[|uniqueId| + 1..] == Sanitize(Basename(clientName, separator))
  {
    var name := Sanitize(Basename(clientName, separator));
    JoinedParts(uniqueId, '-', name);
    uniqueId + ['-'] + name
  }

  /** The parts of `a + [c] + b` are found back by slicing. */
  lemma JoinedParts(a: string, c: char, b: string)
    ensures |a + [c] + b| == |a| + 1 + |b|
    ensures (a + [c] + b)[..|a|] == a && (a + [c] + b)[|a|] == c && (a + [c] + b)[|a| + 1..] == b
  {
    assert (a + [c] + b)[..|a|] == a;
    assert (a + [c] + b)[|a| + 1..] == b;
  }

  /** With a prefix free of slashes, a stored name never leaves its directory. */
  lemma StoredNameHasNoSeparator(separator: DirSeparator, uniqueId: string, clientName: string)
    requires '/' !in uniqueId && '\\' !in uniqueId
    ensures '/' !in StoredName(separator, uniqueId, clientName) && '\\' !in StoredName(separator, uniqueId, clientName)
  {
    var s := Sanitize(Basename(clientName, separator));
    SafeHasNoSlash(s);
    NotInJoined(uniqueId, '-', s, '/');
    NotInJoined(uniqueId, '-', s, '\\');
    assert StoredName(separator, uniqueId, clientName) == uniqueId + ['-'] + s;
  }

  lemma SafeHasNoSlash(s: string)
    requires forall i :: 0 <= i < |s| ==> IsSafe(s[i])
    ensures '/' !in s && '\\' !in s
  {
    assert !IsSafe('/') && !IsSafe('\\');
  }

  lemma NotInJoined(a: string, c: char, b: string, x: char)
    requires x !in a && x != c && x !in b
    ensures x !in a + [c] + b
  {
  }

  /** `'/' . str_replace(DIRECTORY_SEPARATOR, '/', 'assets' . SEP . $subDir . '/' . $name)`. */
  function PublicPath(separator: DirSeparator, subDir: string, name: string): (r: string)
    ensures |r| == 9 + |subDir| + |name| && r[0] == '/'
    ensures separator != '/' ==> separator !in r
  {
    "/" + ReplaceChar("assets" + [separator] + subDir + "/" + name, separator, '/')
  }

  /** On either platform separator the public path is `/assets/<subDir>/<name>`. */
  lemma PublicPathNormalised(separator: DirSeparator, subDir: string, name: string)
    requires '\\' !in subDir && '\\' !in name
    ensures PublicPath(separator, subDir, name) == "/assets/" + subDir + "/" + name
  {
    if separator == '/' {
      ReplaceSame("assets/" + subDir + "/" + name, '/');
    } else {
      var head := "assets" + [separator];
      ReplaceAppend("assets", [separator], separator, '/');
      ReplaceAbsent("assets", separator, '/');
      assert ReplaceChar(head, separator, '/') == "assets/";
      ReplaceAppend(head, subDir, separator, '/');
      ReplaceAbsent(subDir, separator, '/');
      ReplaceAppend(head + subDir, "/", separator, '/');
      ReplaceAbsent("/", separator, '/');
      ReplaceAppend(head + subDir + "/", name, separator, '/');
      ReplaceAbsent(name, separator, '/');
      assert ReplaceChar(head + subDir + "/" + name, separator, '/') == "assets/" + subDir + "/" + name;
      assert "/" + ("assets/" + subDir + "/" + name) == "/assets/" + subDir + "/" + name;
    }
  }

  /** The image rule: a JPEG or PNG MIME type and a `jpg`, `jpeg` or `png` extension in any case. */
  function ImageAccepted(mime: string, clientName: string, separator: DirSeparator): (r: bool)
    ensures r <==> mime in {"image/jpeg", "image/png"}
                   && ToLower(Extension(clientName, separator)) in {"jpg", "jpeg", "png"}
  {
    ImageMime(mime) && ImageExtension(ToLower(Extension(clientName, separator)))
  }

  /** `in_array($mime, ['image/jpeg', 'image/png'])`. */
  function ImageMime(mime: string): (r: bool)
    ensures r <==> mime in {"image/jpeg", "image/png"}
  {
    mime == "image/jpeg" || mime == "image/png"
  }

  /** `in_array($fileExtension, ['jpg', 'jpeg', 'png'])`. */
  function ImageExtension(ext: string): (r: bool)
    ensures r <==> ext in {"jpg", "jpeg", "png"}
  {
    ext == "jpg" || ext == "jpeg" || ext == "png"
  }

  /** `handleImageUpload`. */
  function HandleImageUpload(file: Option<UploadedFile>, env: UploadEnv): (r: UploadResult)
    ensures r == NoUpload <==> file.None? || file.value.error == UPLOAD_ERR_NO_FILE
    ensures r == Rejected(TooLarge) <==> file.Some? && file.value.error in {UPLOAD_ERR_INI_SIZE, UPLOAD_ERR_FORM_SIZE}
    ensures CheckUploadError(file).Refused? ==> r == Rejected(CheckUploadError(file).error)
    ensures r == Rejected(InvalidType) <==>
              file.Some? && file.value.error == UPLOAD_ERR_OK && !ImageAccepted(env.mime, file.value.name, env.separator)
    ensures r == Rejected(DirectoryFailed) <==>
              file.Some? && file.value.error == UPLOAD_ERR_OK && ImageAccepted(env.mime, file.value.name, env.separator)
              && !env.directoryReady
    ensures r == Rejected(MoveFailed) <==>
              file.Some? && file.value.error == UPLOAD_ERR_OK && ImageAccepted(env.mime, file.value.name, env.separator)
              && env.directoryReady && !env.moved
    ensures r.Stored? <==>
              file.Some? && file.value.error == UPLOAD_ERR_OK && ImageAccepted(env.mime, file.value.name, env.separator)
              && env.directoryReady && env.moved
    ensures r.Stored? ==> r.path == PublicPath(env.separator, ImageDir, StoredName(env.separator, env.uniqueId, file.value.name))
  {
    match CheckUploadError(file)
    case NothingSent => NoUpload
    case Refused(e) => Rejected(e)
    case Received =>
      if !ImageAccepted(env.mime, file.value.name, env.separator) then Rejected(InvalidType)
      else if !env.directoryReady then Rejected(DirectoryFailed)
      else if !env.moved then Rejected(MoveFailed)
      else Stored(PublicPath(env.separator, ImageDir, StoredName(env.separator, env.uniqueId, file.value.name)))
  }

  /** `handlePdfUpload`: the same steps, with the single MIME type `application/pdf` and no extension rule. */
  function HandlePdfUpload(file: Option<UploadedFile>, env: UploadEnv): (r: UploadResult)
    ensures r == NoUpload <==> file.None? || file.value.error == UPLOAD_ERR_NO_FILE
    ensures r == Rejected(TooLarge) <==> file.Some? && file.value.error in {UPLOAD_ERR_INI_SIZE, UPLOAD_ERR_FORM_SIZE}
    ensures CheckUploadError(file).Refused? ==> r == Rejected(CheckUploadError(file).error)
    ensures r == Rejected(InvalidType) <==>
              file.Some? && file.value.error == UPLOAD_ERR_OK && env.mime != "application/pdf"
    ensures r == Rejected(DirectoryFailed) <==>
              file.Some? && file.value.error == UPLOAD_ERR_OK && env.mime == "application/pdf" && !env.directoryReady
    ensures r == Rejected(MoveFailed) <==>
              file.Some? && file.value.error == UPLOAD_ERR_OK && env.mime == "application/pdf"
              && env.directoryReady && !env.moved
    ensures r.Stored? <==>
              file.Some? && file.value.error == UPLOAD_ERR_OK && env.mime == "application/pdf"
              && env.directoryReady && env.moved
    ensures r.Stored? ==> r.path == PublicPath(env.separator, PdfDir, StoredName(env.separator, env.uniqueId, file.value.name))
  {
    match CheckUploadError(file)
    case NothingSent => NoUpload
    case Refused(e) => Rejected(e)
    case Received =>
      if env.mime != "application/pdf" then Rejected(InvalidType)
      else if !env.directoryReady then Rejected(DirectoryFailed)
      else if !env.moved then Rejected(MoveFailed)
      else Stored(PublicPath(env.separator, PdfDir, StoredName(env.separator, env.uniqueId, file.value.name)))
  }

  /** With a slash-free prefix, a stored upload lands at `/assets/<dir>/<stored name>` on either platform. */
  lemma StoredPathShape(separator: DirSeparator, dir: string, uniqueId: string, clientName: string)
    requires '/' !in uniqueId && '\\' !in uniqueId && '\\' !in dir
    ensures PublicPath(separator, dir, StoredName(separator, uniqueId, clientName))
            == "/assets/" + dir + "/" + StoredName(separator, uniqueId, clientName)
  {
    StoredNameHasNoSeparator(separator, uniqueId, clientName);
    PublicPathNormalised(separator, dir, StoredName(separator, uniqueId, clientName));
  }

  lemma DirsHaveNoBackslash()
    ensures '\\' !in ImageDir && '\\' !in PdfDir
  {
  }

  /** A stored image lands at `/assets/img-courses/<uniqid>-<sanitised basename>`. */
  lemma ImagePathShape(file: Option<UploadedFile>, env: UploadEnv)
    requires '/' !in env.uniqueId && '\\' !in env.uniqueId
    requires HandleImageUpload(file, env).Stored?
    ensures HandleImageUpload(file, env).path
            == "/assets/" + ImageDir + "/" + StoredName(env.separator, env.uniqueId, file.value.name)
  {
    DirsHaveNoBackslash();
    StoredPathShape(env.separator, ImageDir, env.uniqueId, file.value.name);
  }

  /** A stored PDF lands at `/assets/pdfs/<uniqid>-<sanitised basename>`. */
  lemma PdfPathShape(file: Option<UploadedFile>, env: UploadEnv)
    requires '/' !in env.uniqueId && '\\' !in env.uniqueId
    requires HandlePdfUpload(file, env).Stored?
    ensures HandlePdfUpload(file, env).path
            == "/assets/" + PdfDir + "/" + StoredName(env.separator, env.uniqueId, file.value.name)
  {
    DirsHaveNoBackslash();
    StoredPathShape(env.separator, PdfDir, env.uniqueId, file.value.name);
  }

  /** A name `stem.ext` free of separators, whose `ext` has no dot, has extension `ext`. */
  lemma {:induction false} ExtensionOfName(stem: string, ext: string, separator: DirSeparator)
    requires '/' !in stem && separator !in stem
    requires '/' !in ext && separator !in ext && '.' !in ext
    ensures Extension(stem + "." + ext, separator) == ext
  {
    var name := stem + "." + ext;
    assert '/' !in name && separator !in name && '.' in name;
    assert Basename(name, separator) == name;
    AfterLastOfSuffix(stem, '.', ext);
  }

  lemma {:induction false} AfterLastOfSuffix(s: string, c: char, t: string)
    requires c !in t
    ensures AfterLast(s + [c] + t, c, c) == t
  {
    if t == [] {
      assert s + [c] + t == s + [c];
    } else {
      var u := s + [c] + t;
      assert u[..|u| - 1] == s + [c] + t[..|t| - 1];
      AfterLastOfSuffix(s, c, t[..|t| - 1]);
      assert t == t[..|t| - 1] + [t[|t| - 1]];
    }
  }

  lemma LowerCaseExamples()
    ensures ToLower("PNG") == "png" && ToLower("php") == "php"
    ensures ImageExtension(ToLower("PNG")) && !ImageExtension(ToLower("php"))
  {
    assert ToLower("PNG") == "png";
    assert ToLower("php") == "php";
  }

  /** The extension is compared without regard to case: `NAME.PNG` passes with an image MIME type. */
  lemma UpperCaseExtensionAccepted(mime: string, stem: string, separator: DirSeparator)
    requires ImageMime(mime) && '/' !in stem && separator !in stem
    ensures ImageAccepted(mime, stem + "." + "PNG", separator)
  {
    ExtensionOfName(stem, "PNG", separator);
    LowerCaseExamples();
  }

  /** Only the last extension counts: `photo.png.php` is refused whatever MIME type was detected. */
  lemma TrailingPhpRefused(mime: string, stem: string, separator: DirSeparator)
    requires '/' !in stem && separator !in stem
    ensures !ImageAccepted(mime, stem + "." + "php", separator)
  {
    ExtensionOfName(stem, "php", separator);
    LowerCaseExamples();
  }

  /** The MIME type is compared exactly: a GIF is refused even when named `.png`. */
  lemma GifRefused(clientName: string, separator: DirSeparator)
    ensures !ImageAccepted("image/gif", clientName, separator)
  {
  }
}
