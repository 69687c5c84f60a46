/**
 * The protected-image endpoint: a session gate, reduction of the requested
 * name to its base name, an extension allow-list, an existence check and
 * the choice of content type.
 *
 * The session value, the `file` query parameter, `file_exists` and the file
 * contents are parameters; the response is a value. Paths are POSIX and
 * ASCII.
 */
module ImageGate {
  import opened Wrappers
  import opened Strings

  newtype byte = x: int | 0 <= x < 256

  /** The PHP values a session entry can hold (enough to tell `true` from `1` and `"1"`). */
  datatype PhpValue = Null | Bool(b: bool) | Int(i: int) | Str(s: string)

  /** The three outcomes: 403, 404, or 200 with a content type and the file's bytes. */
  datatype Response = Forbidden | NotFound | Image(contentType: string, body: seq<byte>)

  const ImagesDir: string := "/path/to/protected/images/"
  const AllowedExtensions: seq<string> := ["jpg", "jpeg", "png", "gif"]

  /** HTTP status of a response. */
  function StatusCode(r: Response): (code: int)
    ensures code == 403 <==> r.Forbidden?
    ensures code == 404 <==> r.NotFound?
    ensures code == 200 <==> r.Image?
  {
    match r
    case Forbidden => 403
    case NotFound => 404
    case Image(_, _) => 200
  }

  /**
   * `isset($_SESSION['user_authenticated']) && $_SESSION['user_authenticated'] === true`:
   * `None` is an unset entry.
   */
  predicate IsAuthenticated(session: Option<PhpValue>): (b: bool)
    ensures b <==> session == Some(Bool(true))
  {
    session.Some? && session.value != Null && session.value == Bool(true)
  }

  /** The gate is strict: only the boolean `true` is let through. */
  lemma OnlyStrictTrueAuthenticates()
    ensures !IsAuthenticated(Some(Int(1))) && !IsAuthenticated(Some(Str("1"))) && !IsAuthenticated(None)
  {
  }

  // ----- PHP basename and pathinfo -----

  /** `path` with every trailing `/` removed. */
  function StripTrailingSlashes(path: string): (r: string)
    ensures |r| <= |path| && r == path[..|r|]
    ensures r == [] || r[|r| - 1] != '/'
    ensures forall i :: |r| <= i < |path| ==> path[i] == '/'
  {
    if path != [] && path[|path| - 1] == '/' then StripTrailingSlashes(path[..|path| - 1]) else path
  }

  /**
   * PHP `basename`: trailing slashes are ignored and the text after the last
   * remaining `/` is kept. The result holds no `/`.
   */
  function Basename(path: string): (name: string)
    ensures '/' !in name
    ensures |name| <= |path|
  {
    var trimmed := StripTrailingSlashes(path);
    var slash := LastIndexOf(trimmed, '/');
    if slash == -1 then trimmed else trimmed[slash + 1..]
  }

  /** A name without `/` is its own base name. */
  lemma BasenameOfComponent(name: string)
    requires '/' !in name
    ensures Basename(name) == name
  {
  }

  /** Trailing slashes are ignored. */
  lemma BasenameIgnoresTrailingSlash(path: string)
    ensures Basename(path + "/") == Basename(path)
  {
    assert (path + "/")[..|path|] == path;
    assert StripTrailingSlashes(path + "/") == StripTrailingSlashes(path);
  }

  /** Every directory component is discarded: only the last non-empty component remains. */
  lemma BasenameDropsDirectories(dir: string, name: string)
    requires name != [] && '/' !in name
    ensures Basename(dir + "/" + name) == name
  {
    var s := dir + "/" + name;
    assert s[|dir|] == '/';
    assert s[|dir| + 1..] == name;
    LastIndexOfIs(s, '/', |dir|);
  }

  /**
   * A traversal request `<dirs>/<stem>` is reduced to `<stem>`; when the stem
   * has no `.`, its extension is empty and the request is rejected. With
   * `dirs` = `../../etc` and `stem` = `passwd` this is the request
   * `../../etc/passwd`.
   */
  lemma TraversalReduced(dirs: string, stem: string)
    requires stem != [] && '/' !in stem && '.' !in stem
    ensures Basename(dirs + "/" + stem) == stem
    ensures Extension(dirs + "/" + stem) == []
    ensures !Allowed(RequestedExtension(Basename(dirs + "/" + stem)))
  {
    BasenameDropsDirectories(dirs, stem);
    BasenameOfComponent(stem);
  }

  /**
   * `pathinfo($path, PATHINFO_EXTENSION)`: the text after the last `.` of the
   * base name, or the empty string when the base name has no `.`.
   */
  function Extension(path: string): (ext: string)
    ensures '.' !in ext && '/' !in ext
    ensures '.' !in Basename(path) ==> ext == []
    ensures '.' in Basename(path) ==> var b := Basename(path);
              |ext| < |b| && b[|b| - |ext| - 1] == '.' && b[|b| - |ext|..] == ext
  {
    var b := Basename(path);
    var dot := LastIndexOf(b, '.');
    if dot == -1 then []
    else
      AfterLastDot(b, dot);
      b[dot + 1..]
  }

  /** The text after the `.` at `dot` is a suffix of `b`, right after that `.`. */
  lemma AfterLastDot(b: string, dot: int)
    requires 0 <= dot < |b| && b[dot] == '.' && '/' !in b
    ensures var ext := b[dot + 1..];
            '/' !in ext && |ext| < |b| && b[|b| - |ext| - 1] == '.' && b[|b| - |ext|..] == ext
  {
    var ext := b[dot + 1..];
    assert |b| - |ext| - 1 == dot;
    assert forall i :: 0 <= i < |ext| ==> ext[i] == b[dot + 1 + i];
  }

  /** The lower-cased extension the allow-list sees. */
  function RequestedExtension(name: string): (ext: string)
    ensures |ext| == |Extension(name)|
    ensures forall i :: 0 <= i < |ext| ==> ext[i] == LowerChar(Extension(name)[i])
    ensures '.' !in ext && '/' !in ext
    ensures '.' !in Basename(name) ==> ext == []
  {
    var e := Extension(name);
    var lowered := ToLower(e);
    assert forall i :: 0 <= i < |lowered| ==> lowered[i] != '.' && lowered[i] != '/' by {
      forall i | 0 <= i < |lowered|
        ensures lowered[i] != '.' && lowered[i] != '/'
      {
        assert e[i] != '.' && e[i] != '/';
      }
    }
    lowered
  }

  /** `in_array($extension, $allowedExtensions)` */
  predicate Allowed(ext: string): (b: bool)
    ensures b ==> ext != [] && forall i :: 0 <= i < |ext| ==> 'a' <= ext[i] <= 'z'
  {
    ext in AllowedExtensions
  }

  /** For a plain file name `stem.ext` (no `/`, no `.` in `ext`), the extension is `ext`. */
  lemma ExtensionOfName(stem: string, ext: string)
    requires '/' !in stem && '/' !in ext && '.' !in ext
    ensures Basename(stem + "." + ext) == stem + "." + ext
    ensures Extension(stem + "." + ext) == ext
  {
    var name := stem + "." + ext;
    BasenameOfComponent(name);
    assert name[|stem|] == '.';
    assert name[|stem| + 1..] == ext;
    LastIndexOfIs(name, '.', |stem|);
  }

  /** Upper-case extensions pass: `<stem>.PNG` (such as `A.PNG`) is accepted as `png`. */
  lemma UpperCaseAccepted(stem: string)
    requires '/' !in stem
    ensures RequestedExtension(stem + "." + "PNG") == "png"
    ensures Allowed(RequestedExtension(stem + "." + "PNG"))
  {
    ExtensionOfName(stem, "PNG");
    var lowered := ToLower("PNG");
    assert lowered[0] == 'p' && lowered[1] == 'n' && lowered[2] == 'g';
    assert lowered == "png";
    assert AllowedExtensions[2] == lowered;
  }

  /** A missing `file` parameter becomes `''`, whose extension is empty and rejected. */
  lemma MissingFileRejected()
    ensures !Allowed(RequestedExtension(Option<string>.None.GetOr("")))
  {
  }

  /** A single path component that cannot step outside its directory. */
  predicate SafeComponent(name: string) {
    name != [] && name != "." && name != ".." && '/' !in name
  }

  /** Any name that passes the allow-list is non-empty, has no `/` and is neither `.` nor `..`. */
  lemma AllowedNameIsSafe(file: string)
    requires Allowed(RequestedExtension(Basename(file)))
    ensures SafeComponent(Basename(file))
  {
    var name := Basename(file);
    var ext := Extension(name);
    assert ext != [];
    BasenameOfComponent(name);
  }

  /**
   * The content type chosen from the extension: `image/jpeg` unless the
   * extension is `png` or `gif`. For an allowed extension this is exactly
   * `image/` followed by its media subtype (`jpg` being `jpeg`); it is never
   * anything but the three image types.
   */
  function ContentTypeFor(ext: string): (contentType: string)
    ensures contentType in ["image/jpeg", "image/png", "image/gif"]
    ensures Allowed(ext) ==> contentType == "image/" + (if ext == "jpg" then "jpeg" else ext)
  {
    if ext == "png" then "image/png"
    else if ext == "gif" then "image/gif"
    else "image/jpeg"
  }

  // ----- how the operating system reads `$imagesDir . $filename` -----

  /** The `/`-separated components of a path. */
  function Segments(path: string): (segs: seq<string>)
    ensures |segs| >= 1
  {
    var i := LastIndexOf(path, '/');
    if i == -1 then [path] else Segments(path[..i]) + [path[i + 1..]]
  }

  /** One component of a walk through the directory tree: `` and `.` stay, `..` goes up, a name goes down. */
  function Step(dirs: seq<string>, seg: string): seq<string> {
    if seg == [] || seg == "." then dirs
    else if seg == ".." then (if dirs == [] then [] else dirs[..|dirs| - 1])
    else dirs + [seg]
  }

  /** The directory chain a path resolves to (symbolic links aside). */
  function Resolve(segs: seq<string>): seq<string> {
    if segs == [] then [] else Step(Resolve(segs[..|segs| - 1]), segs[|segs| - 1])
  }

  /** Appending a safe component to a directory path names a direct child of that directory. */
  lemma ChildOfDirectory(dir: string, name: string)
    requires dir != [] && dir[|dir| - 1] == '/' && SafeComponent(name)
    ensures Resolve(Segments(dir + name)) == Resolve(Segments(dir)) + [name]
  {
    var d := dir[..|dir| - 1];
    assert dir == d + "/";
    AppendComponent(d, name);
    AppendComponent(d, []);
    assert dir + [] == dir;
  }

  /**
   * The path the script opens, `$imagesDir . $filename`, resolves to a direct
   * child of the image directory whenever the name passed the allow-list.
   */
  lemma OpenedPathIsChildOfImagesDir(file: string)
    requires Allowed(RequestedExtension(Basename(file)))
    ensures Resolve(Segments(ImagesDir + Basename(file))) == Resolve(Segments(ImagesDir)) + [Basename(file)]
  {
    AllowedNameIsSafe(file);
    ChildOfDirectory(ImagesDir, Basename(file));
  }

  /** Appending a component `c` (no `/`) to a directory path takes one resolution step by `c`. */
  lemma {:induction false} AppendComponent(path: string, c: string)
    requires '/' !in c
    ensures Resolve(Segments(path + "/" + c)) == Step(Resolve(Segments(path)), c)
  {
    var s := path + "/" + c;
    assert s[|path|] == '/';
    assert s[|path| + 1..] == c;
    LastIndexOfIs(s, '/', |path|);
    assert s[..|path|] == path;
    assert (Segments(path) + [c])[..|Segments(path)|] == Segments(path);
  }

  /** A `..` component climbs one level out of a non-empty directory chain. */
  lemma ClimbOne(path: string)
    requires Resolve(Segments(path)) != []
    ensures var r := Resolve(Segments(path));
            Resolve(Segments(path + "/" + "..")) == r[..|r| - 1]
  {
    AppendComponent(path, "..");
  }

  /** A safe component descends one level. */
  lemma DescendOne(path: string, name: string)
    requires SafeComponent(name)
    ensures Resolve(Segments(path + "/" + name)) == Resolve(Segments(path)) + [name]
  {
    AppendComponent(path, name);
  }

  /** Two `..` components climb two levels out of a chain of at least two directories. */
  lemma ClimbTwice(dir: string)
    requires |Resolve(Segments(dir))| >= 2
    ensures var r := Resolve(Segments(dir));
            Resolve(Segments(dir + "/" + ".." + "/" + "..")) == r[..|r| - 2]
  {
    var r := Resolve(Segments(dir));
    var up1 := dir + "/" + "..";
    var r1 := Resolve(Segments(up1));
    ClimbOne(dir);
    assert |r1| == |r| - 1;
    ClimbOne(up1);
    assert Resolve(Segments(up1 + "/" + "..")) == r1[..|r1| - 1];
    assert r1[..|r1| - 1] == r[..|r| - 2];
  }

  /**
   * Without `basename`, `../../<a>/<b>` (such as `../../etc/passwd`) climbs out
   * of the directory: under a directory that resolves to at least two
   * components it names `<a>/<b>` two levels up, not a child of the directory.
   */
  lemma TraversalEscapesWithoutBasename(dir: string, a: string, b: string)
    requires |Resolve(Segments(dir))| >= 2 && SafeComponent(a) && SafeComponent(b)
    ensures var r := Resolve(Segments(dir));
            Resolve(Segments(dir + "/" + ".." + "/" + ".." + "/" + a + "/" + b)) == r[..|r| - 2] + [a] + [b]
  {
    var up2 := dir + "/" + ".." + "/" + "..";
    ClimbTwice(dir);
    var r2 := Resolve(Segments(up2));
    DescendOne(up2, a);
    assert Resolve(Segments(up2 + "/" + a)) == r2 + [a];
    DescendOne(up2 + "/" + a, b);
  }

  // ----- the request pipeline -----

  /**
   * serve-image.php: the session gate, then the extension allow-list, then
   * the existence check, then the content type chosen by extension and the
   * file's bytes. `fileExists` stands for `file_exists` and `contents` for what
   * `readfile` streams.
   */
  method ServeImage(session: Option<PhpValue>, file: Option<string>,
                    fileExists: string -> bool, contents: string -> seq<byte>) returns (resp: Response)
    ensures !IsAuthenticated(session) ==> resp == Forbidden
    ensures IsAuthenticated(session) && !Allowed(RequestedExtension(Basename(file.GetOr("")))) ==> resp == Forbidden
    ensures resp.NotFound? <==> && IsAuthenticated(session)
                                && Allowed(RequestedExtension(Basename(file.GetOr(""))))
                                && !fileExists(ImagesDir + Basename(file.GetOr("")))
    ensures resp.Image? <==> && IsAuthenticated(session)
                             && Allowed(RequestedExtension(Basename(file.GetOr(""))))
                             && fileExists(ImagesDir + Basename(file.GetOr("")))
    ensures resp.Image? ==> var name := Basename(file.GetOr(""));
                            var ext := RequestedExtension(name);
                            && SafeComponent(name)
                            && resp.contentType == ContentTypeFor(ext)
                            && resp.body == contents(ImagesDir + name)
  {
    if !IsAuthenticated(session) {
      return Forbidden;
    }

    var filename := if file.Some? then file.value else "";
    filename := Basename(filename);

    var extension := ToLower(Extension(filename));
    if extension !in AllowedExtensions {
      return Forbidden;
    }

    var filepath := ImagesDir + filename;
    AllowedNameIsSafe(file.GetOr(""));

    if !fileExists(filepath) {
      return NotFound;
    }

    var contentType := ContentTypeFor(extension);
    return Image(contentType, contents(filepath));
  }

  /** `?file=../../etc/passwd` with a valid session is rejected with 403. */
  method TraversalRequestForbidden(fileExists: string -> bool, contents: string -> seq<byte>)
  {
    TraversalReduced("../../etc", "passwd");
    var r := ServeImage(Some(Bool(true)), Some("../../etc" + "/" + "passwd"), fileExists, contents);
    assert r == Forbidden;
  }

  /** Without a session the answer is 403, even for an existing image with a valid extension. */
  method UnauthenticatedForbidden(fileExists: string -> bool, contents: string -> seq<byte>)
    requires fileExists(ImagesDir + "photo.png")
  {
    var r := ServeImage(None, Some("photo.png"), fileExists, contents);
    assert r == Forbidden;
  }

  /** An allowed `<stem>.png` that does not exist: 404. */
  method MissingImageNotFound(stem: string, fileExists: string -> bool, contents: string -> seq<byte>)
    requires '/' !in stem && !fileExists(ImagesDir + (stem + "." + "png"))
  {
    var name := stem + "." + "png";
    ExtensionOfName(stem, "png");
    ToLowerOfLower("png");
    assert RequestedExtension(name) == "png";
    assert Allowed("png");
    var file := Some(name);
    assert Basename(file.GetOr("")) == name;
    var r := ServeImage(Some(Bool(true)), file, fileExists, contents);
    assert r == NotFound;
  }

  /** An existing `<stem>.jpg` with a valid session: 200, `image/jpeg`, the file's bytes. */
  method ExistingImageServed(stem: string, fileExists: string -> bool, contents: string -> seq<byte>)
    requires '/' !in stem && fileExists(ImagesDir + (stem + "." + "jpg"))
  {
    var name := stem + "." + "jpg";
    ExtensionOfName(stem, "jpg");
    ToLowerOfLower("jpg");
    assert RequestedExtension(name) == "jpg";
    assert ContentTypeFor("jpg") == "image/jpeg";
    assert Allowed("jpg");
    var file := Some(name);
    assert Basename(file.GetOr("")) == name;
    var r := ServeImage(Some(Bool(true)), file, fileExists, contents);
    assert r.Image?;
    assert r.contentType == "image/jpeg";
    assert r.body == contents(ImagesDir + name);
  }
}
