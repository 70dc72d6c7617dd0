/**
 * Where a link points: the decision order the show pass follows to tell a
 * remote image from a local one and to turn a local link into an absolute
 * path and a `file:` URI. `urllib.parse` and `os.path` are not part of this
 * model; they enter as the functions of a `PathLib` value, about which
 * nothing is assumed.
 */
module Links {
  import opened Wrappers
  import Text

  /** A `urllib.parse.ParseResult`. */
  datatype Url = Url(scheme: string, netloc: string, path: string, params: string, query: string, fragment: string)

  /** The library functions the resolution calls, left uninterpreted. */
  datatype PathLib = PathLib(
    splitDrive: string -> (string, string),  // os.path.splitdrive
    urlParse: string -> Url,                 // urllib.parse.urlparse
    urlUnparse: Url -> string,               // urllib.parse.urlunparse
    join: (string, string) -> string,        // os.path.join
    isAbs: string -> bool,                   // os.path.isabs
    normPath: string -> string,              // os.path.normpath
    dirName: string -> string)               // os.path.dirname

  /** Python truthiness of an optional string: present and non-empty. */
  predicate Truthy(s: Option<string>)
  {
    s.Some? && s.value != ""
  }

  /**
   * `get_path_for`: the folder of the view's file, else the folder of the
   * window's project file, else `/`.
   */
  function GetPathFor(lib: PathLib, fileName: Option<string>, projectFile: Option<string>): (r: string)
    ensures Truthy(fileName) ==> r == lib.dirName(fileName.value)
    ensures !Truthy(fileName) && Truthy(projectFile) ==> r == lib.dirName(projectFile.value)
    ensures !Truthy(fileName) && !Truthy(projectFile) ==> r == "/"
  {
    if Truthy(fileName) then lib.dirName(fileName.value)
    else if Truthy(projectFile) then lib.dirName(projectFile.value)
    else "/"
  }

  /** A link written as `<...>` comes back with its closing `>`; it is dropped. */
  function StripAngle(rel: string): (r: string)
    requires |rel| > 0
    ensures r <= rel && |rel| - 1 <= |r|
    ensures |r| < |rel| <==> rel[|rel| - 1] == '>'
  {
    if rel[|rel| - 1] == '>' then rel[..|rel| - 1] else rel
  }

  /** What the show pass does with one link. */
  datatype Target =
    | Skip                           // not shown (setting off, or an `.svg` URL)
    | Remote(url: string)            // fetched over the network; `url` is also the cache key
    | Local(path: string, uri: string)  // read from disk; `uri` goes into the `<img>` tag

  /** A scheme other than none and `file` marks a remote image. */
  predicate IsRemote(u: Url)
  {
    u.scheme != "" && u.scheme != "file"
  }

  /** The path a local link is read from: base folder, then the view's folder for a relative path, normalised, drive put back. */
  function LocalPath(lib: PathLib, drive: string, u: Url, basePath: Option<string>, fileName: Option<string>, projectFile: Option<string>): (path: string)
    ensures drive <= path
    ensures exists q :: path == drive + lib.normPath(q)
    ensures var joined := if Truthy(basePath) then lib.join(basePath.value, u.path) else u.path;
      lib.isAbs(joined) ==> path == drive + lib.normPath(joined)
  {
    var p1 := if Truthy(basePath) then lib.join(basePath.value, u.path) else u.path;
    var p2 := if !lib.isAbs(p1) then lib.join(GetPathFor(lib, fileName, projectFile), p1) else p1;
    drive + lib.normPath(p2)
  }

  /** The URI of a local image: the link's URL with scheme `file` and the resolved path, one slash dropped on a drive path. */
  function FileUri(lib: PathLib, u: Url, path: string): (uri: string)
    ensures lib.splitDrive(path).0 == "" ==> uri == lib.urlUnparse(u.(scheme := "file", path := path))
  {
    var img := lib.urlUnparse(u.(scheme := "file", path := path));
    if lib.splitDrive(path).0 != "" then Text.ReplaceFirst(img, "file:///", "file://") else img
  }

  /** A URI without `file:///` in it is used as `urlunparse` wrote it, drive or not. */
  lemma NoTripleSlashUnchanged(lib: PathLib, u: Url, path: string)
    requires forall i :: !Text.OccursAt(lib.urlUnparse(u.(scheme := "file", path := path)), "file:///", i)
    ensures FileUri(lib, u, path) == lib.urlUnparse(u.(scheme := "file", path := path))
  {
    Text.ReplaceFirstAbsent(lib.urlUnparse(u.(scheme := "file", path := path)), "file:///", "file://");
  }

  /** On a path with a drive, the URI loses the third slash after `file:`, as in `file://C:/pics/a.png`. */
  lemma DriveUriLosesOneSlash(lib: PathLib, u: Url, path: string, rest: string)
    requires lib.splitDrive(path).0 != ""
    requires lib.urlUnparse(u.(scheme := "file", path := path)) == "file:///" + rest
    ensures FileUri(lib, u, path) == "file://" + rest
  {
    var img := "file:///" + rest;
    assert Text.OccursAt(img, "file:///", 0);
    Text.ReplaceFirstAt(img, "file:///", "file://", 0);
    assert img[8..] == rest;
  }

  /** The skip rules and the two kinds of image, in the order the show pass tests them. */
  function Resolve(lib: PathLib, rel: string, showLocal: bool, showRemote: bool, basePath: Option<string>,
                   fileName: Option<string>, projectFile: Option<string>): (t: Target)
    requires |rel| > 0
    ensures var (drive, relp) := lib.splitDrive(StripAngle(rel)); var u := lib.urlParse(relp);
      && (t.Remote? <==> IsRemote(u) && showRemote && !Text.EndsWith(u.path, ".svg"))
      && (t.Local? <==> !IsRemote(u) && showLocal)
      && (t.Remote? ==> t.url == relp)
      && (t.Local? ==> drive <= t.path && t.path == LocalPath(lib, drive, u, basePath, fileName, projectFile) && t.uri == FileUri(lib, u, t.path))
  {
    var (drive, relp) := lib.splitDrive(StripAngle(rel));
    var u := lib.urlParse(relp);
    if IsRemote(u) then
      if !showRemote then Skip
      else if Text.EndsWith(u.path, ".svg") then Skip
      else Remote(relp)
    else
      if !showLocal then Skip
      else
        var path := LocalPath(lib, drive, u, basePath, fileName, projectFile);
        Local(path, FileUri(lib, u, path))
  }

  /** A relative local link without a base folder is anchored at the folder `get_path_for` names. */
  lemma RelativeAnchoredAtViewFolder(lib: PathLib, drive: string, u: Url, fileName: Option<string>, projectFile: Option<string>)
    requires !lib.isAbs(u.path)
    ensures LocalPath(lib, drive, u, None, fileName, projectFile)
            == drive + lib.normPath(lib.join(GetPathFor(lib, fileName, projectFile), u.path))
  {
  }

  /** A link joined to the base folder that is still relative is then anchored at the folder `get_path_for` names. */
  lemma RelativeUnderBaseAnchored(lib: PathLib, drive: string, u: Url, basePath: Option<string>,
                                  fileName: Option<string>, projectFile: Option<string>)
    requires Truthy(basePath) && !lib.isAbs(lib.join(basePath.value, u.path))
    ensures LocalPath(lib, drive, u, basePath, fileName, projectFile)
            == drive + lib.normPath(lib.join(GetPathFor(lib, fileName, projectFile), lib.join(basePath.value, u.path)))
  {
  }

  /** An absolute local link, or one made absolute by the base folder, does not depend on the view's file. */
  lemma AbsoluteIgnoresViewFolder(lib: PathLib, drive: string, u: Url, basePath: Option<string>,
                                  f1: Option<string>, p1: Option<string>, f2: Option<string>, p2: Option<string>)
    requires lib.isAbs(if Truthy(basePath) then lib.join(basePath.value, u.path) else u.path)
    ensures LocalPath(lib, drive, u, basePath, f1, p1) == LocalPath(lib, drive, u, basePath, f2, p2)
  {
  }

  /** A link closed by `>` resolves like the same link without it. */
  lemma AngleBracketIgnored(lib: PathLib, rel: string, showLocal: bool, showRemote: bool, basePath: Option<string>,
                            fileName: Option<string>, projectFile: Option<string>)
    requires |rel| > 0 && rel[|rel| - 1] != '>'
    ensures Resolve(lib, rel + ">", showLocal, showRemote, basePath, fileName, projectFile)
            == Resolve(lib, rel, showLocal, showRemote, basePath, fileName, projectFile)
  {
    assert StripAngle(rel + ">") == rel;
  }

  /** With both kinds switched off every link is skipped. */
  lemma NothingShownWhenBothOff(lib: PathLib, rel: string, basePath: Option<string>, fileName: Option<string>, projectFile: Option<string>)
    requires |rel| > 0
    ensures Resolve(lib, rel, false, false, basePath, fileName, projectFile) == Skip
  {
  }

}
