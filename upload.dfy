/**
 * The image upload rule of config/multer.js: a file is taken only when both its extension
 * (lower-cased) and its mimetype match /jpeg|jpg|png/, and only up to 150000 bytes.
 * A regular expression without anchors matches anywhere, so the test is "contains one of
 * the three words".  The extension is the one Node's POSIX `path.extname` returns.
 */
module Upload {
  import opened Wrappers

  newtype byte = x: int | 0 <= x < 256

  /** A stored picture: the uploaded bytes and their declared type. */
  datatype Picture = Picture(data: seq<byte>, contentType: string)

  /** What multer's memory storage hands over: `originalname`, `mimetype` and `buffer`. */
  datatype UploadedFile = UploadedFile(originalname: string, mimetype: string, data: seq<byte>)

  /** `limits: { fileSize: 150000 }` */
  const FileSizeLimit: nat := 150000

  // ---------------------------------------------------------------------------------------
  // Substring search

  predicate StartsWith(s: string, w: string) {
    |w| <= |s| && s[..|w|] == w
  }

  /** w occurs in s at position i. */
  predicate OccursAt(s: string, w: string, i: int) {
    0 <= i <= |s| - |w| && s[i..i + |w|] == w
  }

  /** Whether w occurs in s, searched from the left. */
  function Contains(s: string, w: string): (r: bool)
    ensures r <==> exists i :: OccursAt(s, w, i)
  {
    if StartsWith(s, w) then
      assert OccursAt(s, w, 0) by { assert s[0..|w|] == s[..|w|]; }
      true
    else if s == [] then
      assert forall i :: !OccursAt(s, w, i);
      false
    else
      OccursShift(s, w);
      Contains(s[1..], w)
  }

  /** When w does not start s, it occurs in s exactly when it occurs in s without its first character. */
  lemma OccursShift(s: string, w: string)
    requires s != [] && !StartsWith(s, w)
    ensures (exists i :: OccursAt(s, w, i)) <==> (exists i :: OccursAt(s[1..], w, i))
  {
    if exists i :: OccursAt(s[1..], w, i) {
      var i :| OccursAt(s[1..], w, i);
      assert s[i + 1..i + 1 + |w|] == s[1..][i..i + |w|];
      assert OccursAt(s, w, i + 1);
    }
    if exists i :: OccursAt(s, w, i) {
      var i :| OccursAt(s, w, i);
      assert i != 0 by {
        assert s[..|w|] == s[0..|w|];
      }
      assert s[1..][i - 1..i - 1 + |w|] == s[i..i + |w|];
      assert OccursAt(s[1..], w, i - 1);
    }
  }

  /** `/jpeg|jpg|png/.test(s)` */
  predicate ImagePattern(s: string) {
    Contains(s, "jpeg") || Contains(s, "jpg") || Contains(s, "png")
  }

  // ---------------------------------------------------------------------------------------
  // Lower-casing and path.extname

  function LowerChar(c: char): (d: char)
    ensures 'A' <= c <= 'Z' ==> d as int == c as int + 32
    ensures !('A' <= c <= 'Z') ==> d == c
  {
    if 'A' <= c <= 'Z' then (c as int + 32) as char else c
  }

  /** `toLowerCase()` on the ASCII letters. */
  function Lower(s: string): (r: string)
    ensures |r| == |s|
    ensures forall i | 0 <= i < |s| :: r[i] == LowerChar(s[i])
  {
    seq(|s|, i requires 0 <= i < |s| => LowerChar(s[i]))
  }

  /** The position of the last c in s. */
  function LastIndexOf(s: string, c: char): (k: Option<nat>)
    ensures k.Some? ==> k.value < |s| && s[k.value] == c && forall j | k.value < j < |s| :: s[j] != c
    ensures k.None? ==> forall j | 0 <= j < |s| :: s[j] != c
  {
    if s == [] then None
    else if s[|s| - 1] == c then Some(|s| - 1)
    else LastIndexOf(s[..|s| - 1], c)
  }

  /** The path without the slashes at its end. */
  function TrimTrailingSlashes(p: string): (r: string)
    ensures |r| <= |p| && r == p[..|r|]
    ensures r == [] || r[|r| - 1] != '/'
    ensures forall j | |r| <= j < |p| :: p[j] == '/'
  {
    if p != [] && p[|p| - 1] == '/' then TrimTrailingSlashes(p[..|p| - 1]) else p
  }

  /** b ends t, and is either all of t or preceded in t by a slash. */
  predicate EndsAfterSlash(t: string, b: string) {
    && |b| <= |t| && b == t[|t| - |b|..]
    && (|b| == |t| || t[|t| - |b| - 1] == '/')
  }

  /** What follows the last slash of t, or all of t when it has none. */
  function AfterLastSlash(t: string): (b: string)
    ensures '/' !in b && EndsAfterSlash(t, b)
  {
    match LastIndexOf(t, '/')
    case None => t
    case Some(k) => t[k + 1..]
  }

  /** The last path component: what follows the last slash of the trimmed path. */
  function BaseName(p: string): (b: string)
    ensures '/' !in b && EndsAfterSlash(TrimTrailingSlashes(p), b)
  {
    AfterLastSlash(TrimTrailingSlashes(p))
  }

  /**
   * `path.extname`: from the last dot of the last component to its end; empty when the
   * component has no dot, when its only dots begin it as in ".profile" (the last dot is its
   * first character), or when the component is "..".
   */
  function ExtName(p: string): (e: string)
    ensures e == [] || (e[0] == '.' && '.' !in e[1..] && '/' !in e)
    ensures e != [] ==> |e| < |BaseName(p)| && e == BaseName(p)[|BaseName(p)| - |e|..]
  {
    var b := BaseName(p);
    match LastIndexOf(b, '.')
    case None => ""
    case Some(k) =>
      if k == 0 || b == ".." then ""
      else
        assert forall j | 0 <= j < |b[k..]| :: b[k..][j] == b[k + j];
        b[k..]
  }

  /** A last component without an extension: no dot after its first character, or "..". */
  predicate Extensionless(b: string) {
    (forall j | 0 < j < |b| :: b[j] != '.') || b == ".."
  }

  /** The extension is empty exactly when the last component has none. */
  lemma ExtNameEmpty(p: string)
    ensures ExtName(p) == [] <==> Extensionless(BaseName(p))
  {
    var b := BaseName(p);
    match LastIndexOf(b, '.') {
      case None =>
      case Some(k) =>
        if k != 0 && b != ".." {
          assert b[k] == '.' && 0 < k < |b|;
          assert ExtName(p) == b[k..];
        }
    }
  }

  // ---------------------------------------------------------------------------------------
  // The filter and the limit

  /** What becomes of a request's file field. */
  datatype MulterResult = NoFile | FileAccepted(file: UploadedFile) | MulterError(message: string)

  /** `fileFilter`: both tests must pass. */
  function FileFilter(f: UploadedFile): (r: Result<UploadedFile, string>)
    ensures r.Success? <==> ImagePattern(Lower(ExtName(f.originalname))) && ImagePattern(f.mimetype)
    ensures r.Success? ==> r.value == f
    ensures r.Failure? ==> r.error == "Error: Images Only!"
  {
    if ImagePattern(f.mimetype) && ImagePattern(Lower(ExtName(f.originalname))) then Success(f)
    else Failure("Error: Images Only!")
  }

  /**
   * `upload.single(field)`: no file leaves the request without one; the filter runs first,
   * then a body longer than the limit is refused with multer's LIMIT_FILE_SIZE message.
   */
  function ImageUpload(file: Option<UploadedFile>): (r: MulterResult)
    ensures file.None? <==> r.NoFile?
    ensures r.FileAccepted? <==>
      file.Some? && FileFilter(file.value).Success? && |file.value.data| <= FileSizeLimit
    ensures r.FileAccepted? ==> r.file == file.value && |r.file.data| <= FileSizeLimit
    ensures file.Some? && FileFilter(file.value).Failure? ==> r == MulterError("Error: Images Only!")
    ensures file.Some? && FileFilter(file.value).Success? && |file.value.data| > FileSizeLimit ==>
      r == MulterError("File too large")
  {
    match file
    case None => NoFile
    case Some(f) =>
      match FileFilter(f)
      case Failure(e) => MulterError(e)
      case Success(_) => if |f.data| > FileSizeLimit then MulterError("File too large") else FileAccepted(f)
  }

  /** The contact form's multer: no filter and no limit, so any file is taken. */
  function AnyUpload(file: Option<UploadedFile>): (r: MulterResult)
    ensures file.None? ==> r == NoFile
    ensures file.Some? ==> r == FileAccepted(file.value)
  {
    match file
    case None => NoFile
    case Some(f) => FileAccepted(f)
  }

  // ---------------------------------------------------------------------------------------
  // Case behaviour

  lemma LowerAppend(a: string, b: string)
    ensures Lower(a + b) == Lower(a) + Lower(b)
  {
  }

  lemma LowerSlice(s: string, i: nat, j: nat)
    requires i <= j <= |s|
    ensures Lower(s[i..j]) == Lower(s)[i..j]
  {
  }

  lemma {:induction false} LastIndexOfLower(s: string, c: char)
    requires c == '.' || c == '/'
    ensures LastIndexOf(Lower(s), c) == LastIndexOf(s, c)
  {
    if s != [] {
      var n := |s| - 1;
      assert Lower(s)[..n] == Lower(s[..n]);
      if s[n] != c {
        LastIndexOfLower(s[..n], c);
      }
    }
  }

  lemma {:induction false} TrimLower(p: string)
    ensures TrimTrailingSlashes(Lower(p)) == Lower(TrimTrailingSlashes(p))
  {
    if p != [] && p[|p| - 1] == '/' {
      assert Lower(p)[..|p| - 1] == Lower(p[..|p| - 1]);
      TrimLower(p[..|p| - 1]);
    } else if p != [] {
      assert Lower(p)[|p| - 1] != '/';
    }
  }

  lemma AfterLastSlashLower(t: string)
    ensures AfterLastSlash(Lower(t)) == Lower(AfterLastSlash(t))
  {
    LastIndexOfLower(t, '/');
    match LastIndexOf(t, '/') {
      case None =>
      case Some(k) => LowerSlice(t, k + 1, |t|);
    }
  }

  lemma BaseNameLower(p: string)
    ensures BaseName(Lower(p)) == Lower(BaseName(p))
  {
    TrimLower(p);
    AfterLastSlashLower(TrimTrailingSlashes(p));
  }

  lemma LowerDotDot(b: string)
    ensures Lower(b) == ".." <==> b == ".."
  {
    if Lower(b) == ".." {
      assert LowerChar(b[0]) == '.' && LowerChar(b[1]) == '.';
    }
    if b == ".." {
      assert Lower(b)[0] == '.' && Lower(b)[1] == '.';
    }
  }

  /** Lower-casing commutes with taking the extension. */
  lemma ExtNameLower(p: string)
    ensures ExtName(Lower(p)) == Lower(ExtName(p))
  {
    var b := BaseName(p);
    BaseNameLower(p);
    assert BaseName(Lower(p)) == Lower(b);
    LastIndexOfLower(b, '.');
    LowerDotDot(b);
    match LastIndexOf(b, '.') {
      case None =>
        assert ExtName(p) == [] && ExtName(Lower(p)) == [];
      case Some(k) =>
        if k == 0 || b == ".." {
          assert ExtName(p) == [] && ExtName(Lower(p)) == [];
        } else {
          LowerSlice(b, k, |b|);
          assert ExtName(p) == b[k..];
          assert ExtName(Lower(p)) == Lower(b)[k..];
        }
    }
  }

  /**
   * The extension test ignores case: a name and its lower-cased form are treated alike,
   * so "photo.PNG" passes exactly when "photo.png" does.
   */
  lemma ExtensionCaseInsensitive(f: UploadedFile)
    ensures FileFilter(f).Success? <==> FileFilter(f.(originalname := Lower(f.originalname))).Success?
  {
    ExtNameLower(f.originalname);
    LowerIdempotent(ExtName(f.originalname));
  }

  lemma LowerIdempotent(s: string)
    ensures Lower(Lower(s)) == Lower(s)
  {
  }

  /** The last c of a + [c] + b is at |a| when b holds no c. */
  lemma {:induction false} LastIndexOfAt(a: string, c: char, b: string)
    requires c !in b
    ensures LastIndexOf(a + [c] + b, c) == Some(|a|)
  {
    if b != [] {
      var n := |b| - 1;
      assert (a + [c] + b)[..|a + [c] + b| - 1] == a + [c] + b[..n];
      LastIndexOfAt(a, c, b[..n]);
    }
  }

  /** The extension of a plain file name stem + "." + suffix. */
  lemma ExtNameOfPlainName(stem: string, suffix: string)
    requires stem != [] && suffix != [] && '/' !in stem && '/' !in suffix && '.' !in suffix
    ensures ExtName(stem + "." + suffix) == "." + suffix
  {
    var p := stem + "." + suffix;
    assert p[|p| - 1] == suffix[|suffix| - 1];
    assert TrimTrailingSlashes(p) == p;
    assert LastIndexOf(p, '/') == None;
    assert BaseName(p) == p;
    assert p == stem + ['.'] + suffix;
    LastIndexOfAt(stem, '.', suffix);
    assert p[|stem|..] == "." + suffix;
    assert p != ".." by {
      assert ".."[1] == '.';
    }
  }

  /**
   * The mimetype test does not ignore case: a type such as "image/PNG", which has no
   * lower-case p, is refused although its lower-case form "image/png" passes, for the same
   * file name stem.suffix with a lower-case suffix starting with "png".
   */
  lemma MimetypeCaseSensitive(stem: string, suffix: string, data: seq<byte>, mimetype: string)
    requires stem != [] && '/' !in stem
    requires suffix != [] && '/' !in suffix && '.' !in suffix && Lower(suffix) == suffix
    requires OccursAt(suffix, "png", 0)
    requires 'p' !in mimetype && OccursAt(Lower(mimetype), "png", 6)
    ensures FileFilter(UploadedFile(stem + "." + suffix, Lower(mimetype), data)).Success?
    ensures FileFilter(UploadedFile(stem + "." + suffix, mimetype, data)).Failure?
  {
    PlainExtensionMatches(stem, suffix, 0);
    TypeMatches(Lower(mimetype), 6);
    ImagePatternHasP(mimetype);
  }

  lemma TypeMatches(mimetype: string, i: int)
    requires OccursAt(mimetype, "png", i)
    ensures ImagePattern(mimetype)
  {
  }

  /** A plain name whose suffix holds one of the three words passes the extension test. */
  lemma PlainExtensionMatches(stem: string, suffix: string, i: int)
    requires stem != [] && suffix != [] && '/' !in stem && '/' !in suffix && '.' !in suffix
    requires Lower(suffix) == suffix
    requires OccursAt(suffix, "png", i) || OccursAt(suffix, "jpg", i) || OccursAt(suffix, "jpeg", i)
    ensures ImagePattern(Lower(ExtName(stem + "." + suffix)))
  {
    ExtNameOfPlainName(stem, suffix);
    DottedSuffixMatches(suffix, i);
  }

  lemma DottedSuffixMatches(suffix: string, i: int)
    requires Lower(suffix) == suffix
    requires OccursAt(suffix, "png", i) || OccursAt(suffix, "jpg", i) || OccursAt(suffix, "jpeg", i)
    ensures ImagePattern(Lower("." + suffix))
  {
    var e := "." + suffix;
    assert Lower(e) == e;
    var w := if OccursAt(suffix, "png", i) then "png" else if OccursAt(suffix, "jpg", i) then "jpg" else "jpeg";
    assert e[i + 1..i + 1 + |w|] == suffix[i..i + |w|];
    assert OccursAt(e, w, i + 1);
  }

  /** Each of the three words has a 'p', so a text the pattern matches has one. */
  lemma ImagePatternHasP(s: string)
    ensures ImagePattern(s) ==> 'p' in s
  {
    if Contains(s, "png") {
      var i :| OccursAt(s, "png", i);
      OccurrenceHas(s, "png", i, 0);
    }
    if Contains(s, "jpg") {
      var i :| OccursAt(s, "jpg", i);
      OccurrenceHas(s, "jpg", i, 1);
    }
    if Contains(s, "jpeg") {
      var i :| OccursAt(s, "jpeg", i);
      OccurrenceHas(s, "jpeg", i, 1);
    }
  }

  lemma OccurrenceHas(s: string, w: string, i: int, j: nat)
    requires OccursAt(s, w, i) && j < |w|
    ensures w[j] in s
  {
    assert s[i..i + |w|][j] == s[i + j];
  }

  /**
   * Without anchors the pattern also passes an extension that merely starts with a word,
   * such as stem.jpgx, with a type that merely holds one, such as "text/png-ish".
   */
  lemma PatternIsUnanchored(stem: string, suffix: string, data: seq<byte>, mimetype: string)
    requires stem != [] && '/' !in stem
    requires |suffix| > 3 && '/' !in suffix && '.' !in suffix && Lower(suffix) == suffix
    requires OccursAt(suffix, "jpg", 0)
    requires OccursAt(mimetype, "png", 5) && |mimetype| > 8
    ensures FileFilter(UploadedFile(stem + "." + suffix, mimetype, data)).Success?
  {
    PlainExtensionMatches(stem, suffix, 0);
    TypeMatches(mimetype, 5);
  }
}
