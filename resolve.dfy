/** The list of files a copy phase places in the output directory: the three
    script bundles, three fixed resources flattened to their base names, and
    every locale file at its own relative path. */
module Resolve {
  import opened Paths

  datatype Mapping = Mapping(src: Path, dest: Path)

  const BundleNames: seq<string> := ["background.js", "content.js", "options.js"]
  const ManifestName := "manifest.json"
  const FirefoxManifestName := "firefox-manifest.json"

  /** The fixed resources, written as paths: "src/options.html" is
      ["src", "options.html"]. */
  const OptionsPage: Path := ["src", "options.html"]
  const Icon: Path := ["docs", "icon128.png"]

  /** The transient Firefox manifest, in the current directory. */
  const TransientManifest: Path := [FirefoxManifestName]

  function ResourceNames(firefox: bool): seq<Path>
  {
    [if firefox then TransientManifest else [ManifestName], OptionsPage, Icon]
  }

  /** Each bundle is read from the JavaScript directory and placed at the
      root under its own name. */
  function Bundles(js: string): (r: seq<Mapping>)
    ensures |r| == |BundleNames|
    ensures forall i :: 0 <= i < |r| ==> r[i].dest == [BundleNames[i]] && r[i].src == Split(js) + r[i].dest
  {
    seq(|BundleNames|, i requires 0 <= i < |BundleNames| =>
      Mapping(Split(js) + [BundleNames[i]], [BundleNames[i]]))
  }

  /** The source of each bundle is path.join(js, <name>). */
  lemma BundleSources(js: string)
    ensures forall i :: 0 <= i < |BundleNames| ==> Bundles(js)[i].src == Split(js + "/" + BundleNames[i])
  {
    NamesAreSegments();
    forall i | 0 <= i < |BundleNames|
      ensures Split(js + "/" + BundleNames[i]) == Split(js) + [BundleNames[i]]
    {
      JoinPath(js, [BundleNames[i]]);
    }
  }

  /** Every fixed file name is a single path segment. */
  lemma NamesAreSegments()
    ensures forall i :: 0 <= i < |BundleNames| ==> IsSegment(BundleNames[i])
    ensures IsSegment(ManifestName) && IsSegment("options.html") && IsSegment("icon128.png")
  {
  }

  /** The last segment of a path. */
  function Last(p: Path): string
  {
    if p == [] then "" else p[|p| - 1]
  }

  /** A resource is placed at its base name; the name firefox-manifest.json,
      as a source and as a base name, is replaced by manifest.json. So no
      resource is read from the transient manifest or placed under the
      Firefox name. */
  function Resource(name: Path): (r: Mapping)
    ensures |r.dest| == 1 && r.dest[0] != FirefoxManifestName
    ensures r.src != TransientManifest
    ensures name != TransientManifest ==> r.src == name
    ensures Last(name) != FirefoxManifestName ==> r.dest == [Last(name)]
    ensures Last(name) == FirefoxManifestName ==> r.dest == [ManifestName]
  {
    NamesDiffer();
    var src := if name == TransientManifest then [ManifestName] else name;
    var base := if Last(name) == FirefoxManifestName then ManifestName else Last(name);
    Mapping(src, [base])
  }

  lemma NamesDiffer()
    ensures ManifestName != FirefoxManifestName
  {
    assert ManifestName[0] != FirefoxManifestName[0];
  }

  /** The manifest (of either variant), the options page and the icon, each
      at its base name; the manifest always ends up as manifest.json. */
  function Resources(firefox: bool): (r: seq<Mapping>)
    ensures |r| == 3
    ensures r[0].dest == [ManifestName]
    ensures forall i :: 0 <= i < 3 ==>
      r[i].src != TransientManifest && |r[i].dest| == 1 && r[i].dest[0] != FirefoxManifestName
  {
    var names := ResourceNames(firefox);
    assert Last(names[0]) == FirefoxManifestName || Last(names[0]) == ManifestName;
    seq(3, i requires 0 <= i < 3 => Resource(names[i]))
  }

  /** Each locale file found by the glob is read from, and placed at, the
      same relative path. */
  function Locales(localePaths: seq<string>): (r: seq<Mapping>)
    ensures |r| == |localePaths|
    ensures forall i :: 0 <= i < |r| ==> r[i].src == r[i].dest == Split(localePaths[i])
  {
    seq(|localePaths|, i requires 0 <= i < |localePaths| =>
      Mapping(Split(localePaths[i]), Split(localePaths[i])))
  }

  /** Every destination joined onto the output directory: the source is
      kept and the destination is dist followed by the old destination. */
  function UnderDist(dist: Path, ms: seq<Mapping>): (r: seq<Mapping>)
    ensures |r| == |ms|
    ensures forall i :: 0 <= i < |r| ==>
      r[i].src == ms[i].src && dist <= r[i].dest && r[i].dest[|dist|..] == ms[i].dest
  {
    seq(|ms|, i requires 0 <= i < |ms| => Mapping(ms[i].src, dist + ms[i].dest))
  }

  /** Joining onto the parsed output directory is path.join(dist, dest) on
      the strings. */
  lemma UnderDistJoins(dist: string, ms: seq<Mapping>)
    requires forall i :: 0 <= i < |ms| ==> WellFormed(ms[i].dest)
    ensures forall i :: 0 <= i < |ms| ==>
      UnderDist(Split(dist), ms)[i].dest == Split(dist + "/" + Render(ms[i].dest))
  {
    forall i | 0 <= i < |ms|
      ensures UnderDist(Split(dist), ms)[i].dest == Split(dist + "/" + Render(ms[i].dest))
    {
      JoinPath(dist, ms[i].dest);
    }
  }

  /** The relative file list, before it is joined onto dist. */
  function Relative(js: string, firefox: bool, localePaths: seq<string>): seq<Mapping>
  {
    Bundles(js) + Resources(firefox) + Locales(localePaths)
  }

  /** The resolved file list of a copy phase: six fixed files and one per
      locale file, each placed under dist. */
  function ResolveFiles(js: string, dist: string, firefox: bool, localePaths: seq<string>): (r: seq<Mapping>)
    ensures |r| == 6 + |localePaths|
    ensures forall i :: 0 <= i < |r| ==> Split(dist) <= r[i].dest
  {
    UnderDist(Split(dist), Relative(js, firefox, localePaths))
  }

  /** Each resolved destination is a well-formed path, and it is what
      path.join(dist, dest) gives for its relative destination. */
  lemma ResolvedDestsJoin(js: string, dist: string, firefox: bool, localePaths: seq<string>)
    ensures var r := ResolveFiles(js, dist, firefox, localePaths);
      var rel := Relative(js, firefox, localePaths);
      forall i :: 0 <= i < |r| ==>
        WellFormed(r[i].dest) && r[i].dest == Split(dist + "/" + Render(rel[i].dest))
  {
    var rel := Relative(js, firefox, localePaths);
    RelativeWellFormed(js, firefox, localePaths);
    UnderDistJoins(dist, rel);
  }

  lemma RelativeWellFormed(js: string, firefox: bool, localePaths: seq<string>)
    ensures forall i :: 0 <= i < |Relative(js, firefox, localePaths)| ==>
      WellFormed(Relative(js, firefox, localePaths)[i].dest)
  {
    var b, c, l := Bundles(js), Resources(firefox), Locales(localePaths);
    var rel := b + c + l;
    NamesAreSegments();
    ResourcesAre(firefox);
    forall i | 0 <= i < |rel|
      ensures WellFormed(rel[i].dest)
    {
      if i < 3 {
        assert rel[i] == b[i];
      } else if i < 6 {
        assert rel[i] == c[i - 3];
      } else {
        assert rel[i] == l[i - 6];
      }
    }
  }

  /** What the glob `_locales/**/*.json` yields: a file at least one level
      below `_locales`. */
  predicate UnderLocales(l: string)
  {
    var p := Split(l);
    |p| >= 2 && p[0] == "_locales"
  }

  lemma BundlesAre(js: string)
    ensures Bundles(js) == [
      Mapping(Split(js) + ["background.js"], ["background.js"]),
      Mapping(Split(js) + ["content.js"], ["content.js"]),
      Mapping(Split(js) + ["options.js"], ["options.js"])]
  {
  }

  /** In both variants the manifest mapping reads manifest.json. */
  lemma ResourcesAre(firefox: bool)
    ensures Resources(firefox) == [
      Mapping([ManifestName], [ManifestName]),
      Mapping(OptionsPage, ["options.html"]),
      Mapping(Icon, ["icon128.png"])]
  {
    assert Last(OptionsPage) == "options.html" != FirefoxManifestName;
    assert Last(Icon) == "icon128.png" != FirefoxManifestName;
    NamesDiffer();
  }

  /** The resolved list, position by position: the bundles from js, then the
      manifest, options page and icon at the root of dist (the manifest read
      from manifest.json in both variants), then every locale file at its own
      relative path under dist. */
  lemma ResolvedLayout(js: string, dist: string, firefox: bool, localePaths: seq<string>)
    ensures var r := ResolveFiles(js, dist, firefox, localePaths);
      var d := Split(dist);
      |r| == 6 + |localePaths| &&
      r[0] == Mapping(Split(js) + ["background.js"], d + ["background.js"]) &&
      r[1] == Mapping(Split(js) + ["content.js"], d + ["content.js"]) &&
      r[2] == Mapping(Split(js) + ["options.js"], d + ["options.js"]) &&
      r[3] == Mapping(["manifest.json"], d + ["manifest.json"]) &&
      r[4] == Mapping(["src", "options.html"], d + ["options.html"]) &&
      r[5] == Mapping(["docs", "icon128.png"], d + ["icon128.png"]) &&
      forall k :: 0 <= k < |localePaths| ==>
        r[6 + k] == Mapping(Split(localePaths[k]), d + Split(localePaths[k]))
  {
    var d := Split(dist);
    var bd, cd, ld := UnderDist(d, Bundles(js)), UnderDist(d, Resources(firefox)), UnderDist(d, Locales(localePaths));
    ResolvedParts(js, dist, firefox, localePaths);
    BundlesPlaced(js, d);
    ResourcesPlaced(firefox, d);
    LocalesPlaced(localePaths, d);
    Concat3(bd, cd, ld);
  }

  lemma Concat3<T>(a: seq<T>, b: seq<T>, c: seq<T>)
    ensures |a + b + c| == |a| + |b| + |c|
    ensures forall i :: 0 <= i < |a| ==> (a + b + c)[i] == a[i]
    ensures forall i :: 0 <= i < |b| ==> (a + b + c)[|a| + i] == b[i]
    ensures forall i :: 0 <= i < |c| ==> (a + b + c)[|a| + |b| + i] == c[i]
  {
  }

  lemma LocalesPlaced(localePaths: seq<string>, d: Path)
    ensures var ld := UnderDist(d, Locales(localePaths));
      |ld| == |localePaths| &&
      forall k :: 0 <= k < |localePaths| ==> ld[k] == Mapping(Split(localePaths[k]), d + Split(localePaths[k]))
  {
  }

  /** The resolved list is the bundles, the resources and the locale files,
      each joined onto the output directory. */
  lemma ResolvedParts(js: string, dist: string, firefox: bool, localePaths: seq<string>)
    ensures var d := Split(dist);
      ResolveFiles(js, dist, firefox, localePaths) ==
        UnderDist(d, Bundles(js)) + UnderDist(d, Resources(firefox)) + UnderDist(d, Locales(localePaths))
  {
    var d := Split(dist);
    var b, c, l := Bundles(js), Resources(firefox), Locales(localePaths);
    UnderDistConcat(d, b + c, l);
    UnderDistConcat(d, b, c);
  }

  lemma BundlesPlaced(js: string, d: Path)
    ensures UnderDist(d, Bundles(js)) == [
      Mapping(Split(js) + ["background.js"], d + ["background.js"]),
      Mapping(Split(js) + ["content.js"], d + ["content.js"]),
      Mapping(Split(js) + ["options.js"], d + ["options.js"])]
  {
    BundlesAre(js);
  }

  lemma ResourcesPlaced(firefox: bool, d: Path)
    ensures UnderDist(d, Resources(firefox)) == [
      Mapping(["manifest.json"], d + ["manifest.json"]),
      Mapping(["src", "options.html"], d + ["options.html"]),
      Mapping(["docs", "icon128.png"], d + ["icon128.png"])]
  {
    ResourcesAre(firefox);
  }

  lemma UnderDistConcat(d: Path, x: seq<Mapping>, y: seq<Mapping>)
    ensures UnderDist(d, x + y) == UnderDist(d, x) + UnderDist(d, y)
  {
    var u := UnderDist(d, x + y);
    var v := UnderDist(d, x) + UnderDist(d, y);
    forall i | 0 <= i < |u|
      ensures u[i] == v[i]
    {
      if i < |x| {
      } else {
        assert (x + y)[i] == y[i - |x|];
      }
    }
  }

  /** No mapping of a Firefox copy phase reads the transient manifest. */
  lemma TransientNeverCopied(js: string, dist: string, localePaths: seq<string>)
    requires forall l :: l in localePaths ==> UnderLocales(l)
    ensures forall m :: m in ResolveFiles(js, dist, true, localePaths) ==> m.src != TransientManifest
  {
    var r := ResolveFiles(js, dist, true, localePaths);
    forall i | 0 <= i < |r|
      ensures r[i].src != TransientManifest
    {
      RelativeNotTransient(js, localePaths, i);
    }
  }

  /** The relative mapping at i does not read the transient manifest: a
      bundle source ends in a bundle name, the resources avoid it by
      construction, and a locale path has at least two segments. */
  lemma RelativeNotTransient(js: string, localePaths: seq<string>, i: nat)
    requires forall l :: l in localePaths ==> UnderLocales(l)
    requires i < 6 + |localePaths|
    ensures Relative(js, true, localePaths)[i].src != TransientManifest
  {
    var b, c, l := Bundles(js), Resources(true), Locales(localePaths);
    var rel := b + c + l;
    if i < 3 {
      assert rel[i] == b[i];
      EndsDiffer(Split(js), BundleNames[i], FirefoxManifestName);
    } else if i < 6 {
      assert rel[i] == c[i - 3];
    } else {
      assert rel[i] == l[i - 6];
      assert localePaths[i - 6] in localePaths;
    }
  }

  /** The relative destination at i is non-empty and is not the transient
      manifest: bundles and resources are single names other than it, and
      a locale path has at least two segments. */
  lemma RelativeDestNotTransient(js: string, firefox: bool, localePaths: seq<string>, i: nat)
    requires forall l :: l in localePaths ==> UnderLocales(l)
    requires i < 6 + |localePaths|
    ensures var dest := Relative(js, firefox, localePaths)[i].dest;
      dest != [] && dest != TransientManifest
  {
    var b, c, l := Bundles(js), Resources(firefox), Locales(localePaths);
    var rel := b + c + l;
    if i < 3 {
      assert rel[i] == b[i];
      assert BundleNames[i][0] != FirefoxManifestName[0];
    } else if i < 6 {
      assert rel[i] == c[i - 3];
    } else {
      assert rel[i] == l[i - 6];
      assert localePaths[i - 6] in localePaths;
    }
  }
}
