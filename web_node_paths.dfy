/**
 * The pure parts of `acquireWebNodePaths` and `createExternalLoaderConfig`
 * (build/lib/util.js, lines 321-385): which file of each web dependency the
 * AMD loader is pointed at, and the loader configuration built from them.
 * The `package.json` reads and `fs.existsSync` become parameters.
 */
module WebNodePaths {
  import opened Wrappers
  import opened Strings

  /**
   * The two fields of a dependency's `package.json` that are consulted.
   * `browser` is `Some` only when it holds a string; `main` is `None` when absent.
   */
  datatype PackageData = PackageData(browser: Option<string>, main: Option<string>)

  /** The dependency list of the web package, with the distro's dependencies merged in when that file exists. */
  function DependencyNames(web: seq<string>, distro: Option<seq<string>>): (names: seq<string>)
    ensures web <= names
    ensures forall k :: k in names <==> k in web || (distro.Some? && k in distro.value)
  {
    match distro
    case None => web
    case Some(extra) => Merge(web, extra)
  }

  /** `Object.assign(web, extra)` on the key order: keys already present keep their place, new ones go at the end. */
  function Merge(names: seq<string>, extra: seq<string>): (r: seq<string>)
    ensures names <= r
    ensures forall k :: k in r <==> k in names || k in extra
    decreases extra
  {
    if extra == [] then names
    else
      assert extra == [extra[0]] + extra[1..];
      Merge(if extra[0] in names then names else names + [extra[0]], extra[1..])
  }

  predicate Distinct(s: seq<string>) {
    forall i, j :: 0 <= i < j < |s| ==> s[i] != s[j]
  }

  /** An object has no repeated keys: merging never lists a dependency twice. */
  lemma {:induction false} MergeDistinct(names: seq<string>, extra: seq<string>)
    requires Distinct(names)
    ensures Distinct(Merge(names, extra))
    decreases extra
  {
    if extra != [] {
      var next := if extra[0] in names then names else names + [extra[0]];
      MergeDistinct(next, extra[1..]);
    }
  }

  /** The entry point the package declares: a string `browser` wins over `main`. */
  function DeclaredEntry(d: PackageData): Option<string> {
    if d.browser.Some? then d.browser else d.main
  }

  /** A missing or empty entry point falls back to `dist/<key>.min.js`. */
  function RawEntry(key: string, d: PackageData): string {
    match DeclaredEntry(d)
    case Some(e) => if e != "" then e else "dist/" + key + ".min.js"
    case None => "dist/" + key + ".min.js"
  }

  /** Removes one leading `./`, or else one leading `/`. */
  function StripLeading(e: string): (r: string)
    ensures |r| <= |e| && r == e[|e| - |r|..]
    ensures |e| - |r| == (if StartsWith(e, "./") then 2 else if StartsWith(e, "/") then 1 else 0)
  {
    if StartsWith(e, "./") then e[2..]
    else if StartsWith(e, "/") then e[1..]
    else e
  }

  /** `/(?<!\.min)\.js$/i`: ends in `.js` not preceded by `.min`, ignoring ASCII case. */
  predicate IsPlainJs(e: string) {
    EndsWithIgnoringCase(e, ".js") && !EndsWithIgnoringCase(e[..|e| - 3], ".min")
  }

  /** `e.replace(/\.js$/i, '.min.js')` for a name that ends in `.js`. */
  function MinVariant(e: string): (m: string)
    requires EndsWithIgnoringCase(e, ".js")
    ensures |m| == |e| + 4
    ensures m[..|e| - 3] == e[..|e| - 3] && m[|e| - 3..] == ".min.js"
  {
    e[..|e| - 3] + ".min.js"
  }

  /** Prefers the minified sibling of a plain `.js` file when that file exists in the package. */
  function PreferMinified(key: string, e: string, fileExists: (string, string) -> bool): (r: string)
    ensures r == e || (IsPlainJs(e) && r == MinVariant(e) && fileExists(key, r))
    ensures IsPlainJs(e) && fileExists(key, MinVariant(e)) ==> r == MinVariant(e)
  {
    if IsPlainJs(e) && fileExists(key, MinVariant(e)) then MinVariant(e) else e
  }

  /** The entry point recorded for dependency `key` (lines 337-357). */
  function EntryPoint(key: string, d: PackageData, fileExists: (string, string) -> bool): string {
    PreferMinified(key, StripLeading(RawEntry(key, d)), fileExists)
  }

  /** The minified sibling is not itself a plain `.js` name, so no `.min.min.js` is ever sought. */
  lemma MinVariantIsMinified(e: string)
    requires EndsWithIgnoringCase(e, ".js")
    ensures EndsWithIgnoringCase(MinVariant(e), ".js")
    ensures !IsPlainJs(MinVariant(e))
  {
    var m := MinVariant(e);
    var base := m[..|m| - 3];
    assert base == e[..|e| - 3] + ".min";
    assert base[|base| - 4..] == ".min";
    assert m[|m| - 3..] == ".js";
  }

  /** Looking for a minified file once more changes nothing. */
  lemma PreferMinifiedIdempotent(key: string, e: string, fileExists: (string, string) -> bool)
    ensures PreferMinified(key, PreferMinified(key, e, fileExists), fileExists) == PreferMinified(key, e, fileExists)
  {
    if IsPlainJs(e) && fileExists(key, MinVariant(e)) {
      MinVariantIsMinified(e);
    }
  }

  /** A package without a usable entry point gets `dist/<key>.min.js`, used as it is. */
  lemma DefaultEntry(key: string, d: PackageData, fileExists: (string, string) -> bool)
    requires DeclaredEntry(d) == None || DeclaredEntry(d) == Some("")
    ensures EntryPoint(key, d, fileExists) == "dist/" + key + ".min.js"
  {
    var e, plain := "dist/" + key + ".min.js", "dist/" + key + ".js";
    assert RawEntry(key, d) == e;
    assert !StartsWith(e, "./") && !StartsWith(e, "/") by { assert e[0] == 'd'; }
    assert StripLeading(e) == e;
    assert EndsWithIgnoringCase(plain, ".js") by {
      assert plain[|plain| - 3..] == ".js";
    }
    MinVariantIsMinified(plain);
    assert MinVariant(plain) == e;
  }

  /** The three 1DS SDK modules whose paths are fixed after the loop (lines 363-365). */
  const DynamicProto := "@microsoft/dynamicproto-js"
  const Shims := "@microsoft/applicationinsights-shims"
  const CoreJs := "@microsoft/applicationinsights-core-js"

  const Overrides: map<string, string> := map[
    DynamicProto := "lib/dist/umd/dynamicproto-js.min.js",
    Shims := "dist/umd/applicationinsights-shims.min.js",
    CoreJs := "browser/applicationinsights-core-js.min.js"
  ]

  /** The loop of `acquireWebNodePaths` (lines 334-359): one entry point per dependency name. */
  method EntryPoints(names: seq<string>, data: string -> PackageData, fileExists: (string, string) -> bool)
    returns (nodePaths: map<string, string>)
    ensures forall k :: k in nodePaths <==> k in names
    ensures forall k :: k in nodePaths ==> nodePaths[k] == EntryPoint(k, data(k), fileExists)
  {
    nodePaths := map[];
    var i := 0;
    while i < |names|
      invariant 0 <= i <= |names|
      invariant forall k :: k in nodePaths <==> k in names[..i]
      invariant forall k :: k in nodePaths ==> nodePaths[k] == EntryPoint(k, data(k), fileExists)
    {
      var key := names[i];
      nodePaths := nodePaths[key := EntryPoint(key, data(key), fileExists)];
      assert names[..i + 1] == names[..i] + [key];
      i := i + 1;
    }
    assert names[..i] == names;
  }

  /**
   * `acquireWebNodePaths`: the entry point of every web dependency, then the
   * three fixed paths, which replace any computed entry for the same names.
   */
  method AcquireWebNodePaths(web: seq<string>, distro: Option<seq<string>>,
                             data: string -> PackageData, fileExists: (string, string) -> bool)
    returns (nodePaths: map<string, string>)
    ensures forall k :: k in nodePaths <==> k in web || (distro.Some? && k in distro.value) || k in Overrides
    ensures forall k :: k in Overrides ==> nodePaths[k] == Overrides[k]
    ensures forall k :: k in nodePaths && k !in Overrides ==> nodePaths[k] == EntryPoint(k, data(k), fileExists)
  {
    nodePaths := EntryPoints(DependencyNames(web, distro), data, fileExists);
    nodePaths := nodePaths[DynamicProto := Overrides[DynamicProto]];
    nodePaths := nodePaths[Shims := Overrides[Shims]];
    nodePaths := nodePaths[CoreJs := Overrides[CoreJs]];
  }

  /** JavaScript truthiness of a string-or-undefined argument. */
  predicate Truthy(s: Option<string>) {
    s.Some? && s.value != ""
  }

  datatype LoaderConfig = LoaderConfig(baseUrl: string, recordStats: bool, paths: map<string, string>)

  /** Where the loader finds dependency `key` whose entry point is `entry`. */
  function LoaderPath(key: string, entry: string): string {
    "../node_modules/" + key + "/" + entry
  }

  /**
   * `createExternalLoaderConfig`: nothing unless the endpoint, commit and quality
   * are all given and non-empty; otherwise the quality- and commit-specific
   * `out` URL and every node path rewritten relative to it.
   */
  function ExternalLoaderConfig(webEndpoint: Option<string>, commit: Option<string>, quality: Option<string>,
                                nodePaths: map<string, string>): (r: Option<LoaderConfig>)
    ensures r.None? <==> !Truthy(webEndpoint) || !Truthy(commit) || !Truthy(quality)
    ensures r.Some? ==> r.value.recordStats && r.value.paths.Keys == nodePaths.Keys
    ensures r.Some? ==> StartsWith(r.value.baseUrl, webEndpoint.value + "/")
    ensures r.Some? ==> r.value.baseUrl == webEndpoint.value + "/" + quality.value + "/" + commit.value + "/out"
    ensures r.Some? ==> forall k :: k in nodePaths ==> r.value.paths[k] == "../node_modules/" + k + "/" + nodePaths[k]
  {
    if !Truthy(webEndpoint) || !Truthy(commit) || !Truthy(quality) then None
    else
      var base := webEndpoint.value + "/" + quality.value + "/" + commit.value;
      assert (base + "/out")[..|webEndpoint.value + "/"|] == webEndpoint.value + "/";
      Some(LoaderConfig(base + "/out", true,
                        map k | k in nodePaths :: LoaderPath(k, nodePaths[k])))
  }

  /** Each loader path names its module's folder under `../node_modules/` and ends with the entry point. */
  lemma LoaderPathShape(key: string, entry: string)
    ensures StartsWith(LoaderPath(key, entry), "../node_modules/" + key + "/")
    ensures LoaderPath(key, entry)[|"../node_modules/" + key + "/"|..] == entry
  {
    var prefix := "../node_modules/" + key + "/";
    assert LoaderPath(key, entry) == prefix + entry;
  }

  /** The entry point a loader path points at, read back from below its module folder. */
  function EntryOf(key: string, path: string): string {
    var prefix := "../node_modules/" + key + "/";
    if StartsWith(path, prefix) then path[|prefix|..] else path
  }

  /** The node paths a loader configuration was built from, read back out of it. */
  function NodePathsOf(c: LoaderConfig): map<string, string> {
    map k | k in c.paths :: EntryOf(k, c.paths[k])
  }

  /** Reading the paths back out of a configuration inverts the rewrite. */
  lemma NodePathsOfConfig(webEndpoint: Option<string>, commit: Option<string>, quality: Option<string>,
                          nodePaths: map<string, string>)
    requires ExternalLoaderConfig(webEndpoint, commit, quality, nodePaths).Some?
    ensures NodePathsOf(ExternalLoaderConfig(webEndpoint, commit, quality, nodePaths).value) == nodePaths
  {
    var c := ExternalLoaderConfig(webEndpoint, commit, quality, nodePaths).value;
    forall k | k in nodePaths
      ensures EntryOf(k, c.paths[k]) == nodePaths[k]
    {
      LoaderPathShape(k, nodePaths[k]);
      assert c.paths[k] == LoaderPath(k, nodePaths[k]);
    }
  }

  /** The rewrite loses nothing: the configuration determines the node paths it was built from. */
  lemma LoaderConfigDeterminesPaths(webEndpoint: Option<string>, commit: Option<string>, quality: Option<string>,
                                    p1: map<string, string>, p2: map<string, string>)
    requires ExternalLoaderConfig(webEndpoint, commit, quality, p1).Some?
    requires ExternalLoaderConfig(webEndpoint, commit, quality, p1) == ExternalLoaderConfig(webEndpoint, commit, quality, p2)
    ensures p1 == p2
  {
    NodePathsOfConfig(webEndpoint, commit, quality, p1);
    NodePathsOfConfig(webEndpoint, commit, quality, p2);
  }
}
