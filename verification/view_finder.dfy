/** The Anvil view finder (anvil/src/Anvil/View/FileViewFinder.php): how a
    view identifier `module::name` is turned into an ordered list of
    candidate directories, and the search of those directories.

    The finder's configuration is an immutable record; every setter returns
    the updated record. The active theme (`Application::getTheme`) and the
    filesystem (`Filesystem::fileExists`) are parameters. */
module ViewFinder {
  import opened Wrappers
  import opened Strings

  /** Separates a module from a view name in a view identifier. */
  const Separator: string := "::"

  /** The extensions the finder probes, in the order it probes them. */
  const Extensions: seq<string> := ["php", "blade.php"]

  /** The finder's configuration: the themes root, the modules root and the
      explicitly registered locations, in registration order. */
  datatype Finder = Finder(themePath: string, modulePath: string, paths: seq<string>)

  /** A view identifier split into its optional module and its view name. */
  datatype ViewName = ViewName(moduleName: Option<string>, view: string)

  /** A directory path that ends in exactly one `/`. */
  predicate IsDirectory(p: string) {
    |p| >= 1 && p[|p| - 1] == '/' && (|p| == 1 || p[|p| - 2] != '/')
  }

  /** `rtrim($path, '/').'/'`: replaces the run of trailing slashes of `path`
      (possibly empty) by exactly one slash. */
  function NormalizeDirectory(path: string): (r: string)
    ensures IsDirectory(r) && |r| - 1 <= |path|
    ensures r[..|r| - 1] == path[..|r| - 1]
    ensures forall i :: |r| - 1 <= i < |path| ==> path[i] == '/'
  {
    RTrim(path, '/') + "/"
  }

  /** Normalising an already normalised directory changes nothing. */
  lemma NormalizeDirectoryIdempotent(path: string)
    ensures NormalizeDirectory(NormalizeDirectory(path)) == NormalizeDirectory(path)
  {
    DirectoryIsNormal(NormalizeDirectory(path));
  }

  /** A path that already ends in exactly one slash is left as it is. */
  lemma DirectoryIsNormal(p: string)
    requires IsDirectory(p)
    ensures NormalizeDirectory(p) == p
  {
    assert RTrim(p, '/') == RTrim(p[..|p| - 1], '/');
    assert RTrim(p[..|p| - 1], '/') == p[..|p| - 1];
  }

  /** `setThemePath`: stores the normalised themes root. */
  function SetThemePath(f: Finder, path: string): (g: Finder)
    ensures IsDirectory(g.themePath)
    ensures RTrim(g.themePath, '/') == RTrim(path, '/')
    ensures g.modulePath == f.modulePath && g.paths == f.paths
  {
    var p := NormalizeDirectory(path);
    assert RTrim(p, '/') == RTrim(p[..|p| - 1], '/');
    f.(themePath := p)
  }

  /** `setModulePath`: stores the normalised modules root. */
  function SetModulePath(f: Finder, path: string): (g: Finder)
    ensures IsDirectory(g.modulePath)
    ensures RTrim(g.modulePath, '/') == RTrim(path, '/')
    ensures g.themePath == f.themePath && g.paths == f.paths
  {
    var p := NormalizeDirectory(path);
    assert RTrim(p, '/') == RTrim(p[..|p| - 1], '/');
    f.(modulePath := p)
  }

  /** Setting a root to the value it already holds is a no-op. */
  lemma SetPathsIdempotent(f: Finder, path: string)
    ensures SetThemePath(SetThemePath(f, path), SetThemePath(f, path).themePath)
            == SetThemePath(f, path)
    ensures SetModulePath(SetModulePath(f, path), SetModulePath(f, path).modulePath)
            == SetModulePath(f, path)
  {
    NormalizeDirectoryIdempotent(path);
  }

  /** `currentThemePath`: the directory of the active theme. */
  function CurrentThemePath(f: Finder, theme: string): string {
    f.themePath + theme + "/"
  }

  /** `addLocation`: registers one more location, with the lowest priority
      among the registered ones. */
  function AddLocation(f: Finder, location: string): (g: Finder)
    ensures |g.paths| == |f.paths| + 1
    ensures g.paths[..|f.paths|] == f.paths && g.paths[|f.paths|] == location
    ensures g.themePath == f.themePath && g.modulePath == f.modulePath
  {
    f.(paths := f.paths + [location])
  }

  /** `id` splits as `m::v…`: `m` runs up to the first `::` of `id`, and `v`
      runs from just after it up to the next `::` or the end of `id`. */
  predicate SplitsAt(id: string, m: string, v: string) {
    var o := |m| + |Separator|;
    && o + |v| <= |id|
    && id[..|m|] == m && OccursAt(id, Separator, |m|)
    && AbsentBetween(id, Separator, 0, |m|)
    && id[o..o + |v|] == v && AbsentBetween(id, Separator, o, o + |v|)
    && (o + |v| == |id| || OccursAt(id, Separator, o + |v|))
  }

  /** `prepare`: splits a view identifier at its first `::`; the view name
      stops at the next `::`, if any. */
  function Prepare(id: string): (r: ViewName)
    ensures r.moduleName.None? <==> !Contains(id, Separator)
    ensures r.moduleName.None? ==> r.view == id
    ensures r.moduleName.Some? ==> SplitsAt(id, r.moduleName.value, r.view)
  {
    match IndexOf(id, Separator)
    case None => ViewName(None, id)
    case Some(i) =>
      var rest := id[i + |Separator|..];
      var view := match IndexOf(rest, Separator)
                  case Some(k) => rest[..k]
                  case None => rest;
      PrepareSplits(id, i, rest, view);
      ViewName(Some(id[..i]), view)
  }

  /** The pieces `Prepare` cuts out satisfy `SplitsAt`. */
  lemma PrepareSplits(id: string, i: nat, rest: string, v: string)
    requires IndexOf(id, Separator) == Some(i)
    requires rest == id[i + |Separator|..]
    requires v == match IndexOf(rest, Separator)
                  case Some(k) => rest[..k]
                  case None => rest
    ensures SplitsAt(id, id[..i], v)
  {
    var o := i + |Separator|;
    match IndexOf(rest, Separator)
    case None =>
      AbsentInSuffix(id, o, |v|);
    case Some(k) =>
      AbsentInSuffix(id, o, k);
      OccursInSuffix(id, Separator, o, k);
  }

  /** `prepare` is PHP's `list($module, $name) = explode('::', $name)`: the
      module is the first piece of `explode` and the view name the second. */
  lemma PrepareIsExplode(id: string)
    requires Contains(id, Separator)
    ensures |Explode(id, Separator)| >= 2
    ensures Prepare(id) == ViewName(Some(Explode(id, Separator)[0]), Explode(id, Separator)[1])
  {
    ExplodeHead(id, Separator);
  }

  /** Separator-free stretches of a suffix are separator-free in the whole. */
  lemma AbsentInSuffix(id: string, o: nat, n: nat)
    requires o <= |id| && AbsentBetween(id[o..], Separator, 0, n)
    ensures AbsentBetween(id, Separator, o, o + n)
  {
    forall j | o <= j < o + n
      ensures !OccursAt(id, Separator, j)
    {
      OccursInSuffix(id, Separator, o, j - o);
    }
  }

  /** `generatePaths`: the candidate directories for a module (or for no
      module), most preferred first. */
  function GeneratePaths(f: Finder, theme: string, moduleName: Option<string>): (r: seq<string>)
    ensures |r| == |f.paths| + (if moduleName.Some? then 2 else 1)
    ensures r[..|f.paths|] == f.paths
    ensures moduleName.Some? ==>
              && r[|f.paths|] == f.themePath + theme + "/views/partials/" + moduleName.value
              && r[|f.paths| + 1] == f.modulePath + moduleName.value + "/views"
    ensures moduleName.None? ==> r[|f.paths|] == f.themePath + theme + "/views/"
  {
    match moduleName
    case Some(m) =>
      f.paths + [CurrentThemePath(f, theme) + "views/partials/" + m, f.modulePath + m + "/views"]
    case None =>
      f.paths + [CurrentThemePath(f, theme) + "views/"]
  }

  /** Registered locations always precede the theme and module directories:
      a location added last is still searched before either of them. */
  lemma AddedLocationPrecedesFallbacks(f: Finder, location: string, theme: string,
                                       moduleName: Option<string>)
    ensures var before := GeneratePaths(f, theme, moduleName);
            var after := GeneratePaths(AddLocation(f, location), theme, moduleName);
            && after == f.paths + [location] + before[|f.paths|..]
            && |after| == |before| + 1
  {
    var before := GeneratePaths(f, theme, moduleName);
    var after := GeneratePaths(AddLocation(f, location), theme, moduleName);
    var g := AddLocation(f, location);
    assert after[..|g.paths|] == g.paths;
    assert after[|g.paths|..] == before[|f.paths|..];
    assert after == after[..|g.paths|] + after[|g.paths|..];
  }

  /** A file the finder may return: a directory, a view name and an extension. */
  datatype ViewFile = ViewFile(directory: string, name: string, extension: string)

  /** The outcome of a search: the first existing file, or the failure the
      finder raises when no candidate fileExists. */
  datatype FindResult = Found(file: ViewFile) | NotFound(name: string)

  /** No extension of `exts` makes `name` exist in `dir`. */
  predicate MissesIn(dir: string, name: string, exts: seq<string>,
                     fileExists: (string, string, string) -> bool) {
    forall j :: 0 <= j < |exts| ==> !fileExists(dir, name, exts[j])
  }

  /** The first extension, from index `from` on, under which `name` fileExists
      in `dir`. */
  function FirstExtension(dir: string, name: string, exts: seq<string>,
                          fileExists: (string, string, string) -> bool, from: nat): (r: Option<nat>)
    ensures r.Some? ==> && from <= r.value < |exts|
                        && fileExists(dir, name, exts[r.value])
                        && forall j :: from <= j < r.value ==> !fileExists(dir, name, exts[j])
    ensures r.None? ==> forall j :: from <= j < |exts| ==> !fileExists(dir, name, exts[j])
    decreases |exts| - from
  {
    if from >= |exts| then None
    else if fileExists(dir, name, exts[from]) then Some(from)
    else FirstExtension(dir, name, exts, fileExists, from + 1)
  }

  /** The first (directory, extension) pair, directories outermost, from
      directory `from` on, under which `name` fileExists. */
  function FirstHit(dirs: seq<string>, name: string, exts: seq<string>,
                    fileExists: (string, string, string) -> bool, from: nat): (r: Option<(nat, nat)>)
    ensures r.Some? ==> && from <= r.value.0 < |dirs| && r.value.1 < |exts|
                        && fileExists(dirs[r.value.0], name, exts[r.value.1])
                        && (forall i :: from <= i < r.value.0 ==> MissesIn(dirs[i], name, exts, fileExists))
                        && forall j :: 0 <= j < r.value.1 ==> !fileExists(dirs[r.value.0], name, exts[j])
    ensures r.None? ==> forall i :: from <= i < |dirs| ==> MissesIn(dirs[i], name, exts, fileExists)
    decreases |dirs| - from
  {
    if from >= |dirs| then None
    else match FirstExtension(dirs[from], name, exts, fileExists, 0)
      case Some(j) => Some((from, j))
      case None => FirstHit(dirs, name, exts, fileExists, from + 1)
  }

  /** `(i, j)` is the first pair, directories outermost, under which `name`
      exists: every earlier directory misses under every extension, and
      directory `i` misses under every extension before `j`. */
  predicate IsFirstHit(dirs: seq<string>, name: string, exts: seq<string>,
                       fileExists: (string, string, string) -> bool, i: nat, j: nat) {
    && i < |dirs| && j < |exts|
    && fileExists(dirs[i], name, exts[j])
    && (forall i' :: 0 <= i' < i ==> MissesIn(dirs[i'], name, exts, fileExists))
    && (forall j' :: 0 <= j' < j ==> !fileExists(dirs[i], name, exts[j']))
  }

  /** The inherited `findInPaths`, abstracted: the first candidate directory
      and recognised extension under which the view fileExists. */
  function FindInPaths(name: string, dirs: seq<string>,
                       fileExists: (string, string, string) -> bool): (r: FindResult)
    ensures r.Found? ==> exists i: nat, j: nat ::
                           && IsFirstHit(dirs, name, Extensions, fileExists, i, j)
                           && r.file == ViewFile(dirs[i], name, Extensions[j])
    ensures r.NotFound? <==> forall i :: 0 <= i < |dirs| ==> MissesIn(dirs[i], name, Extensions, fileExists)
    ensures r.NotFound? ==> r.name == name
  {
    match FirstHit(dirs, name, Extensions, fileExists, 0)
    case Some((i, j)) =>
      assert IsFirstHit(dirs, name, Extensions, fileExists, i, j);
      Found(ViewFile(dirs[i], name, Extensions[j]))
    case None => NotFound(name)
  }

  /** `find`: prepares the identifier and searches the candidate directories
      generated for its module. It fails exactly when none of them holds the
      prepared view name under a recognised extension, and otherwise returns
      the first (directory, extension) pair that does. */
  function Find(f: Finder, theme: string, fileExists: (string, string, string) -> bool,
                id: string): (r: FindResult)
    ensures var vn := Prepare(id);
            var dirs := GeneratePaths(f, theme, vn.moduleName);
            && (r.NotFound? <==>
                  forall i :: 0 <= i < |dirs| ==> MissesIn(dirs[i], vn.view, Extensions, fileExists))
            && (r.Found? ==> exists i: nat, j: nat ::
                               && IsFirstHit(dirs, vn.view, Extensions, fileExists, i, j)
                               && r.file == ViewFile(dirs[i], vn.view, Extensions[j]))
  {
    var vn := Prepare(id);
    FindInPaths(vn.view, GeneratePaths(f, theme, vn.moduleName), fileExists)
  }

  /** A registered location that holds the view wins over every theme and
      module directory, whatever they hold. */
  lemma RegisteredLocationWins(f: Finder, theme: string,
                               fileExists: (string, string, string) -> bool, id: string, k: nat)
    requires k < |f.paths| && !MissesIn(f.paths[k], Prepare(id).view, Extensions, fileExists)
    ensures Find(f, theme, fileExists, id).Found?
    ensures Find(f, theme, fileExists, id).file.directory in f.paths[..k + 1]
  {
    var vn := Prepare(id);
    var dirs := GeneratePaths(f, theme, vn.moduleName);
    assert dirs[k] == f.paths[k];
    var hit := FirstHit(dirs, vn.view, Extensions, fileExists, 0);
    assert hit.Some? && hit.value.0 <= k;
    assert dirs[hit.value.0] == f.paths[hit.value.0];
  }

  /** The theme's partials override for module `m`: when no registered
      location holds `v`, a partial in any recognised extension is returned
      in preference to the module's own views, under the first extension it
      exists with. */
  lemma ThemePartialOverridesModuleView(f: Finder, theme: string,
                                        fileExists: (string, string, string) -> bool,
                                        m: string, v: string)
    requires !Contains(m, Separator) && !Contains(v, Separator)
    requires |m| == 0 || m[|m| - 1] != ':'
    requires forall i :: 0 <= i < |f.paths| ==> MissesIn(f.paths[i], v, Extensions, fileExists)
    requires !MissesIn(f.themePath + theme + "/views/partials/" + m, v, Extensions, fileExists)
    ensures var partial := f.themePath + theme + "/views/partials/" + m;
            var e := FirstExtension(partial, v, Extensions, fileExists, 0);
            && e.Some?
            && Find(f, theme, fileExists, m + "::" + v)
               == Found(ViewFile(partial, v, Extensions[e.value]))
  {
    PrepareOfJoined(m, v);
    var dirs := GeneratePaths(f, theme, Some(m));
    assert dirs[|f.paths|] == f.themePath + theme + "/views/partials/" + m;
    assert forall i :: 0 <= i < |f.paths| ==> dirs[i] == f.paths[i];
    FoundInFirstHoldingFallback(f, theme, fileExists, m, v, |f.paths|);
  }

  /** A module view missing from the theme's partials override, and from
      every registered location, is taken from the module's own views
      directory, under the first extension it exists with. */
  lemma ModuleViewFallsBackToModule(f: Finder, theme: string,
                                    fileExists: (string, string, string) -> bool,
                                    m: string, v: string)
    requires !Contains(m, Separator) && !Contains(v, Separator)
    requires |m| == 0 || m[|m| - 1] != ':'
    requires forall i :: 0 <= i < |f.paths| ==> MissesIn(f.paths[i], v, Extensions, fileExists)
    requires MissesIn(f.themePath + theme + "/views/partials/" + m, v, Extensions, fileExists)
    requires !MissesIn(f.modulePath + m + "/views", v, Extensions, fileExists)
    ensures var own := f.modulePath + m + "/views";
            var e := FirstExtension(own, v, Extensions, fileExists, 0);
            && e.Some?
            && Find(f, theme, fileExists, m + "::" + v)
               == Found(ViewFile(own, v, Extensions[e.value]))
  {
    PrepareOfJoined(m, v);
    var dirs := GeneratePaths(f, theme, Some(m));
    assert dirs[|f.paths|] == f.themePath + theme + "/views/partials/" + m;
    assert dirs[|f.paths| + 1] == f.modulePath + m + "/views";
    assert forall i :: 0 <= i < |f.paths| ==> dirs[i] == f.paths[i];
    FoundInFirstHoldingFallback(f, theme, fileExists, m, v, |f.paths| + 1);
  }

  /** The search for `m::v` ends in candidate `k`, under its first
      extension, when `k` holds `v` and every earlier candidate misses. */
  lemma FoundInFirstHoldingFallback(f: Finder, theme: string,
                                    fileExists: (string, string, string) -> bool,
                                    m: string, v: string, k: nat)
    requires Prepare(m + "::" + v) == ViewName(Some(m), v)
    requires var dirs := GeneratePaths(f, theme, Some(m));
             && k < |dirs| && !MissesIn(dirs[k], v, Extensions, fileExists)
             && forall i :: 0 <= i < k ==> MissesIn(dirs[i], v, Extensions, fileExists)
    ensures var dirs := GeneratePaths(f, theme, Some(m));
            var e := FirstExtension(dirs[k], v, Extensions, fileExists, 0);
            && e.Some?
            && Find(f, theme, fileExists, m + "::" + v) == Found(ViewFile(dirs[k], v, Extensions[e.value]))
  {
    var dirs := GeneratePaths(f, theme, Some(m));
    var hit := FirstHit(dirs, v, Extensions, fileExists, 0);
    var e := FirstExtension(dirs[k], v, Extensions, fileExists, 0);
    assert hit.Some?;
    assert hit.value.0 == k;
    assert e.Some?;
    assert hit.value.1 == e.value;
  }

  /** A view outside any module is searched for in the registered
      locations and then only in the active theme's `views/` directory. */
  lemma PlainViewSearchesThemeViews(f: Finder, theme: string,
                                    fileExists: (string, string, string) -> bool, id: string)
    requires !Contains(id, Separator)
    ensures Find(f, theme, fileExists, id).NotFound? <==>
              && (forall i :: 0 <= i < |f.paths| ==> MissesIn(f.paths[i], id, Extensions, fileExists))
              && MissesIn(f.themePath + theme + "/views/", id, Extensions, fileExists)
  {
    var dirs := GeneratePaths(f, theme, None);
    assert dirs == f.paths + [f.themePath + theme + "/views/"];
    assert forall i :: 0 <= i < |f.paths| ==> dirs[i] == f.paths[i];
  }

  /** Splitting `m::v` gives back `m` and `v` when neither contains `::`
      and `m` does not end in `:`. */
  lemma PrepareOfJoined(m: string, v: string)
    requires !Contains(m, Separator) && !Contains(v, Separator)
    requires |m| == 0 || m[|m| - 1] != ':'
    ensures Prepare(m + "::" + v) == ViewName(Some(m), v)
  {
    var id := m + "::" + v;
    assert id[|m|..|m| + 2] == "::";
    forall j | 0 <= j < |m|
      ensures !OccursAt(id, Separator, j)
    {
      if j + 2 <= |m| {
        assert id[j..j + 2] == m[j..j + 2];
        assert !OccursAt(m, Separator, j);
      } else {
        assert id[j] == m[|m| - 1];
      }
    }
    assert IndexFrom(id, Separator, |m|) == Some(|m|);
    IndexFromSkips(id, Separator, 0, |m|);
    assert IndexOf(id, Separator) == Some(|m|);
    var rest := id[|m| + |Separator|..];
    assert rest == v && id[..|m|] == m;
    assert IndexOf(rest, Separator) == None;
  }

  /** A module name ending in `:` does not survive the round trip: `a:` and
      `v` join to `a:::v`, which splits as `a` and `:v`. */
  lemma TrailingColonModuleShifts()
    ensures Prepare("a:" + "::" + "v") == ViewName(Some("a"), ":v")
  {
    var id := "a:" + "::" + "v";
    assert id[0] == 'a' && id[1] == ':' && id[2] == ':' && id[3] == ':' && id[4] == 'v';
    assert id[0..2][0] == 'a';
    assert !OccursAt(id, Separator, 0);
    assert OccursAt(id, Separator, 1);
    assert IndexOf(id, Separator) == Some(1);
    var rest := id[3..];
    assert rest == ":v";
    assert rest[0..2][1] == 'v';
    assert !OccursAt(rest, Separator, 0) && !OccursAt(rest, Separator, 1);
    assert IndexFrom(rest, Separator, 2) == None;
    assert IndexOf(rest, Separator) == None;
    assert id[..1] == "a";
    assert Prepare(id) == ViewName(Some(id[..1]), rest);
  }
}
