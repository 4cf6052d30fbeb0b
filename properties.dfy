/** What the packaging pipeline guarantees, stated over its specification
    functions. */
module Properties {
  import opened Paths
  import opened Outcomes
  import opened Strings
  import opened Fs
  import opened Resolve
  import opened Package
  import opened Manifest

  function Sources(ms: seq<Mapping>): set<Path>
  {
    set m | m in ms :: m.src
  }

  /** The source of the last mapping whose destination is d: the one whose
      copy a sequence of copies leaves at d. */
  function LastSource(ms: seq<Mapping>, d: Path): (r: Path)
    requires d in Dests(ms)
    ensures r in Sources(ms)
    decreases |ms|
  {
    InHeadOrTail(ms);
    if d in Dests(ms[1..]) then LastSource(ms[1..], d) else ms[0].src
  }

  /** No copy writes over a file that some copy reads. */
  ghost predicate SourcesUntouched(ms: seq<Mapping>)
  {
    forall m, n :: m in ms && n in ms ==> m.dest != n.src
  }

  /** The mapping at i is the last one with its destination. */
  lemma {:induction false} LastSourceAt(ms: seq<Mapping>, i: nat)
    requires i < |ms|
    requires forall j :: i < j < |ms| ==> ms[j].dest != ms[i].dest
    ensures ms[i].dest in Dests(ms) && LastSource(ms, ms[i].dest) == ms[i].src
    decreases i
  {
    assert ms[i] in ms;
    var rest := ms[1..];
    if i == 0 {
      DestsAt(rest, ms[0].dest);
    } else {
      assert rest[i - 1] == ms[i];
      assert rest[i - 1] in rest;
      LastSourceAt(rest, i - 1);
    }
  }

  /** Every copy succeeds when every source is a file and every destination
      lies in an existing directory and is not itself one. */
  lemma {:induction false} CopyAllSucceeds(s: FsState, ms: seq<Mapping>)
    requires forall m :: m in ms ==> m.src in s.files && Parent(m.dest) in s.dirs && m.dest !in s.dirs
    ensures CopyAll(s, ms).outcome.Pass?
    decreases |ms|
  {
    if ms != [] {
      assert ms[0] in ms;
      var first := CopyStep(s, ms[0].src, ms[0].dest);
      assert forall m :: m in ms[1..] ==> m in ms;
      CopyAllSucceeds(first.state, ms[1..]);
    }
  }

  /** Last write wins: after a successful run of copies that overwrite no
      source, each destination holds the content of the last mapping to it,
      and every other file is unchanged. */
  lemma {:induction false} CopyAllContents(s: FsState, ms: seq<Mapping>)
    requires SourcesUntouched(ms)
    requires CopyAll(s, ms).outcome.Pass?
    ensures forall d :: d in Dests(ms) ==>
      LastSource(ms, d) in s.files && d in CopyAll(s, ms).state.files &&
      CopyAll(s, ms).state.files[d] == s.files[LastSource(ms, d)]
    ensures forall p :: p in s.files && p !in Dests(ms) ==>
      p in CopyAll(s, ms).state.files && CopyAll(s, ms).state.files[p] == s.files[p]
    decreases |ms|
  {
    if ms != [] {
      var first := CopyStep(s, ms[0].src, ms[0].dest);
      CopyAllUnfold(s, ms);
      assert SourcesUntouched(ms[1..]) by {
        assert forall m :: m in ms[1..] ==> m in ms;
      }
      CopyAllContents(first.state, ms[1..]);
      ContentsStep(s.files, CopyAll(s, ms).state.files, ms);
    }
  }

  /** The induction step of CopyAllContents, over the maps alone: the first
      copy gives its destination the content of its source, and the rest of
      the copies then act on that map. */
  lemma ContentsStep(sf: map<Path, Content>, rf: map<Path, Content>, ms: seq<Mapping>)
    requires ms != [] && SourcesUntouched(ms) && ms[0].src in sf
    requires var tf := sf[ms[0].dest := sf[ms[0].src]];
      (forall d :: d in Dests(ms[1..]) ==>
        LastSource(ms[1..], d) in tf && d in rf && rf[d] == tf[LastSource(ms[1..], d)]) &&
      (forall p :: p in tf && p !in Dests(ms[1..]) ==> p in rf && rf[p] == tf[p])
    ensures forall d :: d in Dests(ms) ==>
      LastSource(ms, d) in sf && d in rf && rf[d] == sf[LastSource(ms, d)]
    ensures forall p :: p in sf && p !in Dests(ms) ==> p in rf && rf[p] == sf[p]
  {
    var m0, rest := ms[0], ms[1..];
    var tf := sf[m0.dest := sf[m0.src]];
    InHeadOrTail(ms);
    assert m0 in ms;
    forall d | d in Dests(ms)
      ensures LastSource(ms, d) in sf && d in rf && rf[d] == sf[LastSource(ms, d)]
    {
      if d in Dests(rest) {
        var src := LastSource(rest, d);
        var n :| n in rest && n.src == src;
        assert src != m0.dest;
      } else {
        assert d == m0.dest;
      }
    }
    forall p | p in sf && p !in Dests(ms)
      ensures p in rf && rf[p] == sf[p]
    {
      assert p != m0.dest;
      assert p !in Dests(rest);
    }
  }

  /** No mapping after the manifest one goes to dist/manifest.json: the
      options page and icon have other base names, and a locale path has at
      least two segments. */
  lemma LaterDestsDiffer(js: string, dist: string, firefox: bool, localePaths: seq<string>)
    requires forall l :: l in localePaths ==> UnderLocales(l)
    ensures var ms := ResolveFiles(js, dist, firefox, localePaths);
      |ms| > 3 && ms[3].dest == Split(dist) + [ManifestName] &&
      forall j :: 3 < j < |ms| ==> ms[j].dest != ms[3].dest
  {
    var ms := ResolveFiles(js, dist, firefox, localePaths);
    var d := Split(dist);
    ResolvedLayout(js, dist, firefox, localePaths);
    forall j | 6 <= j < |ms|
      ensures |ms[j].dest| >= |d| + 2
    {
      assert localePaths[j - 6] in localePaths;
    }
    DestsAfter(ms, d);
  }

  /** With the options page and icon after the manifest and only deeper
      paths after them, no later mapping shares the manifest's destination. */
  lemma DestsAfter(ms: seq<Mapping>, d: Path)
    requires |ms| >= 6 && ms[3].dest == d + [ManifestName]
    requires ms[4].dest == d + ["options.html"] && ms[5].dest == d + ["icon128.png"]
    requires forall j :: 6 <= j < |ms| ==> |ms[j].dest| >= |d| + 2
    ensures forall j :: 3 < j < |ms| ==> ms[j].dest != ms[3].dest
  {
    assert (d + ["options.html"])[|d|] != (d + [ManifestName])[|d|];
    assert (d + ["icon128.png"])[|d|] != (d + [ManifestName])[|d|];
  }

  /** The manifest mapping is the last one into dist/manifest.json. */
  lemma ManifestMappingIsLast(js: string, dist: string, firefox: bool, localePaths: seq<string>)
    requires forall l :: l in localePaths ==> UnderLocales(l)
    ensures var ms := ResolveFiles(js, dist, firefox, localePaths);
      var out := Split(dist) + [ManifestName];
      out in Dests(ms) && LastSource(ms, out) == [ManifestName]
  {
    var ms := ResolveFiles(js, dist, firefox, localePaths);
    LaterDestsDiffer(js, dist, firefox, localePaths);
    LastSourceAt(ms, 3);
    ResolvedLayout(js, dist, firefox, localePaths);
  }

  lemma AgreeOutside<K, V>(a: map<K, V>, b: map<K, V>, k: K, x: K)
    requires a - {k} == b - {k} && x != k && x in a
    ensures x in b && b[x] == a[x]
  {
    assert x in a - {k};
    assert (a - {k})[x] == a[x] && (b - {k})[x] == b[x];
  }

  lemma KeysOutside<K, V>(a: map<K, V>, b: map<K, V>, k: K)
    requires a - {k} == b - {k} && k in a
    ensures a.Keys == b.Keys + {k}
  {
    forall x | x != k
      ensures x in a <==> x in b
    {
      assert x in a <==> x in a - {k};
      assert x in b <==> x in b - {k};
    }
  }

  /** A file that no mapping writes keeps its content through the copies,
      whether they pass or fail. */
  lemma {:induction false} Untargeted(s: FsState, ms: seq<Mapping>, p: Path)
    requires forall j :: 0 <= j < |ms| ==> ms[j].dest != p
    requires p in s.files
    ensures p in CopyAll(s, ms).state.files && CopyAll(s, ms).state.files[p] == s.files[p]
    decreases |ms|
  {
    if ms != [] {
      var first := CopyStep(s, ms[0].src, ms[0].dest);
      CopyAllUnfold(s, ms);
      assert ms[0].dest != p;
      Untargeted(first.state, ms[1..], p);
    }
  }

  /** After a successful run of copies, the destination of mapping i holds
      what its source held at the start, provided no earlier copy writes
      that source and no later copy writes that destination. */
  lemma {:induction false} CopiedOnce(s: FsState, ms: seq<Mapping>, i: nat)
    requires i < |ms|
    requires CopyAll(s, ms).outcome.Pass?
    requires forall j :: 0 <= j < i ==> ms[j].dest != ms[i].src
    requires forall j :: i < j < |ms| ==> ms[j].dest != ms[i].dest
    ensures ms[i].src in s.files && ms[i].dest in CopyAll(s, ms).state.files &&
      CopyAll(s, ms).state.files[ms[i].dest] == s.files[ms[i].src]
    decreases i
  {
    var first := CopyStep(s, ms[0].src, ms[0].dest);
    var t := first.state;
    CopyAllUnfold(s, ms);
    if i == 0 {
      Untargeted(t, ms[1..], ms[0].dest);
    } else {
      assert ms[1..][i - 1] == ms[i];
      CopiedOnce(t, ms[1..], i - 1);
      assert ms[0].dest != ms[i].src;
    }
  }

  /** A file that the copy phase copies nothing onto and that is not the
      transient manifest keeps its content, whatever the phase's outcome. */
  lemma CopyPhaseFrame(s: FsState, js: string, dist: string, firefox: bool, localePaths: seq<string>, f: Path)
    requires f in s.files && f != TransientManifest
    requires forall m :: m in ResolveFiles(js, dist, firefox, localePaths) ==> m.dest != f
    ensures var r := CopyPhase(s, js, dist, firefox, localePaths).state;
      f in r.files && r.files[f] == s.files[f]
  {
    var ms := ResolveFiles(js, dist, firefox, localePaths);
    var p := Prepare(s, dist, firefox, ms);
    if p.outcome.Pass? {
      AgreeOutside(s.files, p.state.files, TransientManifest, f);
      forall j | 0 <= j < |ms|
        ensures ms[j].dest != f
      {
        assert ms[j] in ms;
      }
      Untargeted(p.state, ms, f);
      var c := CopyAll(p.state, ms);
      if firefox && c.outcome.Pass? {
        assert CopyPhase(s, js, dist, firefox, localePaths) == Cleanup(c.state);
      } else {
        assert CopyPhase(s, js, dist, firefox, localePaths) == c;
      }
    }
  }

  /** After a successful copy phase the files are exactly those there
      before and every destination, less the transient manifest in the
      Firefox variant. */
  lemma CopyPhaseOutputFiles(s: FsState, js: string, dist: string, firefox: bool, localePaths: seq<string>)
    requires CopyPhase(s, js, dist, firefox, localePaths).outcome.Pass?
    ensures var ms := ResolveFiles(js, dist, firefox, localePaths);
      var r := CopyPhase(s, js, dist, firefox, localePaths).state;
      r.files.Keys == if firefox then (s.files.Keys + Dests(ms)) - {TransientManifest} else s.files.Keys + Dests(ms)
  {
    var ms := ResolveFiles(js, dist, firefox, localePaths);
    var p := Prepare(s, dist, firefox, ms);
    assert p.outcome.Pass?;
    var c := CopyAll(p.state, ms);
    assert c.outcome.Pass?;
    CopyAllFiles(p.state, ms);
    if firefox {
      KeysOutside(p.state.files, s.files, TransientManifest);
      assert CopyPhase(s, js, dist, firefox, localePaths) == Cleanup(c.state);
    } else {
      assert CopyPhase(s, js, dist, firefox, localePaths) == c;
    }
  }

  /** A copy phase passes on a well-formed tree when its output directory is
      named, no directory it may create is a file, every source is a file,
      no destination is or will be a directory, and in the Firefox variant
      manifest.json holds a document the Firefox fields apply to and the
      transient file can be written. */
  lemma CopyPhasePasses(s: FsState, js: string, dist: string, firefox: bool, localePaths: seq<string>)
    requires Valid(s) && dist != ""
    requires var ms := ResolveFiles(js, dist, firefox, localePaths);
      var made := Prefixes(Split(dist)) + ParentDirs(ms);
      (forall q :: q in made ==> q !in s.files) &&
      (forall m :: m in ms ==> m.src in s.files && m.dest !in s.dirs && m.dest !in made) &&
      (firefox ==>
        [ManifestName] in s.files && s.files[[ManifestName]].JsonText? &&
        ForFirefox(s.files[[ManifestName]].doc).Ok? &&
        TransientManifest !in s.dirs && TransientManifest !in made)
    ensures CopyPhase(s, js, dist, firefox, localePaths).outcome.Pass?
  {
    CopyMappingsPasses(s, dist, firefox, ResolveFiles(js, dist, firefox, localePaths));
  }

  /** CopyPhasePasses for any list of mappings that starts in the output
      directory. */
  lemma CopyMappingsPasses(s: FsState, dist: string, firefox: bool, ms: seq<Mapping>)
    requires ms != [] && Parent(ms[0].dest) == Split(dist)
    requires Valid(s) && dist != ""
    requires var made := Prefixes(Split(dist)) + ParentDirs(ms);
      (forall q :: q in made ==> q !in s.files) &&
      (forall m :: m in ms ==> m.src in s.files && m.dest !in s.dirs && m.dest !in made) &&
      (firefox ==>
        [ManifestName] in s.files && s.files[[ManifestName]].JsonText? &&
        ForFirefox(s.files[[ManifestName]].doc).Ok? &&
        TransientManifest !in s.dirs && TransientManifest !in made)
    ensures CopyMappings(s, dist, firefox, ms).outcome.Pass?
  {
    var made := Prefixes(Split(dist)) + ParentDirs(ms);
    PreparePasses(s, dist, firefox, ms);
    var p := Prepare(s, dist, firefox, ms);
    forall m | m in ms
      ensures m.src in p.state.files && Parent(m.dest) in p.state.dirs && m.dest !in p.state.dirs
    {
      if m.src != TransientManifest {
        AgreeOutside(s.files, p.state.files, TransientManifest, m.src);
      }
      ParentInParentDirs(ms, m);
      assert Parent(m.dest) in made;
    }
    CopyAllSucceeds(p.state, ms);
    var c := CopyAll(p.state, ms);
    if firefox {
      assert TransientManifest in c.state.files;
      assert CopyAndClean(p.state, firefox, ms) == Cleanup(c.state);
    }
  }

  /** In the Firefox variant, once preparing and every copy have passed,
      the clean-up passes too and the transient manifest is gone. */
  lemma FirefoxCopiesPassPhasePasses(s: FsState, js: string, dist: string, localePaths: seq<string>)
    requires var ms := ResolveFiles(js, dist, true, localePaths);
      var p := Prepare(s, dist, true, ms);
      p.outcome.Pass? && CopyAll(p.state, ms).outcome.Pass?
    ensures var r := CopyPhase(s, js, dist, true, localePaths);
      r.outcome.Pass? && TransientManifest !in r.state.files
  {
    var ms := ResolveFiles(js, dist, true, localePaths);
    var p := Prepare(s, dist, true, ms);
    var c := CopyAll(p.state, ms);
    assert TransientManifest in c.state.files;
    assert CopyPhase(s, js, dist, true, localePaths) == Cleanup(c.state);
  }

  /** CopiedOnce for a whole successful copy phase: the destination of
      mapping i holds what its source held before the phase, provided the
      source is not the transient manifest, no earlier copy writes the
      source and no later copy or the clean-up touches the destination. */
  lemma CopyPhaseCopiedOnce(s: FsState, js: string, dist: string, firefox: bool, localePaths: seq<string>, i: nat)
    requires var ms := ResolveFiles(js, dist, firefox, localePaths);
      i < |ms| && ms[i].src != TransientManifest && ms[i].dest != TransientManifest &&
      (forall j :: 0 <= j < i ==> ms[j].dest != ms[i].src) &&
      (forall j :: i < j < |ms| ==> ms[j].dest != ms[i].dest)
    requires CopyPhase(s, js, dist, firefox, localePaths).outcome.Pass?
    ensures var ms := ResolveFiles(js, dist, firefox, localePaths);
      var r := CopyPhase(s, js, dist, firefox, localePaths).state;
      ms[i].src in s.files && ms[i].dest in r.files && r.files[ms[i].dest] == s.files[ms[i].src]
  {
    var ms := ResolveFiles(js, dist, firefox, localePaths);
    var p := Prepare(s, dist, firefox, ms);
    assert p.outcome.Pass?;
    var c := CopyAll(p.state, ms);
    assert c.outcome.Pass?;
    CopiedOnce(p.state, ms, i);
    AgreeOutside(p.state.files, s.files, TransientManifest, ms[i].src);
    if firefox {
      assert CopyPhase(s, js, dist, firefox, localePaths) == Cleanup(c.state);
    } else {
      assert CopyPhase(s, js, dist, firefox, localePaths) == c;
    }
  }

  /** With only the bundles before it and no later copy to its destination,
      the manifest mapping leaves the content manifest.json had before the
      copies. */
  lemma ManifestCopiedOnce(s: FsState, ms: seq<Mapping>, d: Path)
    requires |ms| > 3 && ms[3] == Mapping([ManifestName], d + [ManifestName])
    requires ms[0].dest == d + ["background.js"] && ms[1].dest == d + ["content.js"]
    requires ms[2].dest == d + ["options.js"]
    requires forall j :: 3 < j < |ms| ==> ms[j].dest != ms[3].dest
    requires CopyAll(s, ms).outcome.Pass?
    ensures var out := d + [ManifestName];
      [ManifestName] in s.files && out in CopyAll(s, ms).state.files &&
      CopyAll(s, ms).state.files[out] == s.files[[ManifestName]]
  {
    EndsDiffer(d, "background.js", ManifestName);
    EndsDiffer(d, "content.js", ManifestName);
    EndsDiffer(d, "options.js", ManifestName);
    CopiedOnce(s, ms, 3);
  }

  /** In both variants the manifest placed in the output directory is the
      base manifest.json, byte for byte: the Firefox variant writes the
      transformed manifest to the transient file, but its resource mapping
      reads manifest.json. No bundle is copied onto manifest.json before it
      is read, and nothing later is copied onto its destination. */
  lemma OutputManifestIsBase(s: FsState, js: string, dist: string, firefox: bool, localePaths: seq<string>)
    requires forall l :: l in localePaths ==> UnderLocales(l)
    requires CopyPhase(s, js, dist, firefox, localePaths).outcome.Pass?
    ensures var r := CopyPhase(s, js, dist, firefox, localePaths).state;
      var out := Split(dist) + [ManifestName];
      [ManifestName] in s.files && out in r.files && r.files[out] == s.files[[ManifestName]]
  {
    var ms := ResolveFiles(js, dist, firefox, localePaths);
    var d := Split(dist);
    var out := d + [ManifestName];
    var p := Prepare(s, dist, firefox, ms);
    assert p.outcome.Pass?;
    var c := CopyAll(p.state, ms);
    assert c.outcome.Pass?;
    ResolvedLayout(js, dist, firefox, localePaths);
    LaterDestsDiffer(js, dist, firefox, localePaths);
    ManifestCopiedOnce(p.state, ms, d);
    assert out in c.state.files && c.state.files[out] == p.state.files[[ManifestName]];
    AgreeOutside(p.state.files, s.files, TransientManifest, [ManifestName]);
    if firefox {
      var u := Cleanup(c.state);
      assert CopyPhase(s, js, dist, firefox, localePaths) == u;
      assert out != TransientManifest;
      assert u.state.files[out] == c.state.files[out];
    } else {
      assert CopyPhase(s, js, dist, firefox, localePaths) == c;
    }
  }

  /** When preparing fails (an mkdir, or reading, parsing or writing the
      manifest), the copy phase ends with that failure: it attempts no copy
      and no unlink. */
  lemma FailedPreparationCopiesNothing(s: FsState, js: string, dist: string, firefox: bool, localePaths: seq<string>)
    requires Prepare(s, dist, firefox, ResolveFiles(js, dist, firefox, localePaths)).outcome.Fail?
    ensures var r := CopyPhase(s, js, dist, firefox, localePaths);
      r == Prepare(s, dist, firefox, ResolveFiles(js, dist, firefox, localePaths)) &&
      forall i :: |s.log| <= i < |r.state.log| ==> !r.state.log[i].CopyCall? && !r.state.log[i].UnlinkCall?
  {
    var p := Prepare(s, dist, firefox, ResolveFiles(js, dist, firefox, localePaths));
    NoCopyBelowRank2(s, p.state);
  }

  /** A log that grew only by mkdirs and writes holds no copy or unlink. */
  lemma NoCopyBelowRank2(s: FsState, t: FsState)
    requires Ordered(s, t, 1)
    ensures forall i :: |s.log| <= i < |t.log| ==> !t.log[i].CopyCall? && !t.log[i].UnlinkCall?
  {
    forall i | |s.log| <= i < |t.log|
      ensures !t.log[i].CopyCall? && !t.log[i].UnlinkCall?
    {
      assert Rank(t.log[i]) <= 1;
    }
  }

  /** Copies after a preparation that logged only mkdirs and writes log no
      unlink. */
  lemma CopiesLogNoUnlink(s: FsState, p: FsState, ms: seq<Mapping>)
    requires Ordered(s, p, 1)
    ensures var c := CopyAll(p, ms).state;
      forall i :: |s.log| <= i < |c.log| ==> !c.log[i].UnlinkCall?
  {
    var c := CopyAll(p, ms).state;
    CopyAllLog(p, ms);
    forall i | |s.log| <= i < |c.log|
      ensures !c.log[i].UnlinkCall?
    {
      if i < |p.log| {
        assert c.log[i] == p.log[i];
        assert Rank(p.log[i]) <= 1;
      } else {
        assert c.log[i] == CopyCalls(ms)[i - |p.log|];
      }
    }
  }

  /** No mapping of either variant writes the transient manifest: every
      relative destination is non-empty and is not that one-segment path. */
  lemma TransientNeverWritten(js: string, dist: string, firefox: bool, localePaths: seq<string>)
    requires forall l :: l in localePaths ==> UnderLocales(l)
    ensures TransientManifest !in Dests(ResolveFiles(js, dist, firefox, localePaths))
  {
    DestsAt(ResolveFiles(js, dist, firefox, localePaths), TransientManifest);
    var r := ResolveFiles(js, dist, firefox, localePaths);
    var rel := Relative(js, firefox, localePaths);
    var d := Split(dist);
    forall i | 0 <= i < |r|
      ensures r[i].dest != TransientManifest
    {
      RelativeDestNotTransient(js, firefox, localePaths, i);
      assert r[i].dest == d + rel[i].dest by {
        assert r[i].dest == r[i].dest[..|d|] + r[i].dest[|d|..];
      }
    }
  }

  /** When a copy of a Firefox copy phase fails, the phase fails at once:
      the transient manifest stays behind and no unlink is attempted. */
  lemma FailedCopySkipsCleanup(s: FsState, js: string, dist: string, localePaths: seq<string>)
    requires forall l :: l in localePaths ==> UnderLocales(l)
    requires var ms := ResolveFiles(js, dist, true, localePaths);
      var p := Prepare(s, dist, true, ms);
      p.outcome.Pass? && CopyAll(p.state, ms).outcome.Fail?
    ensures var r := CopyPhase(s, js, dist, true, localePaths);
      r.outcome.Fail? && TransientManifest in r.state.files &&
      forall i :: |s.log| <= i < |r.state.log| ==> !r.state.log[i].UnlinkCall?
  {
    var ms := ResolveFiles(js, dist, true, localePaths);
    var p := Prepare(s, dist, true, ms);
    assert CopyPhase(s, js, dist, true, localePaths) == CopyAll(p.state, ms);
    TransientNeverWritten(js, dist, true, localePaths);
    CopyAllFiles(p.state, ms);
    CopiesLogNoUnlink(s, p.state, ms);
  }

  /** The state after the copy phase of a run, or the unchanged state when
      no JavaScript directory is given. */
  function CopyStage(s: FsState, opts: Options, localePaths: seq<string>): Step
    requires opts.dir.Some?
  {
    if Truthy(opts.js) then CopyPhase(s, opts.js.value, opts.dir.value, opts.firefox, localePaths)
    else Step(s, Pass)
  }

  /** A run is its copy stage, followed by the zip phase when the copy stage
      passed and a zip name is given; the copy stage logs no archive. */
  lemma PipelineStages(s: FsState, opts: Options, localePaths: seq<string>, archive: Content)
    requires opts.dir.Some?
    ensures var c := CopyStage(s, opts, localePaths);
      var r := Pipeline(s, opts, localePaths, archive);
      (forall i :: |s.log| <= i < |c.state.log| ==> !c.state.log[i].ArchiveCall?) &&
      if c.outcome.Fail? || !Truthy(opts.zip) then r == c
      else r == ZipPhase(c.state, opts.dir.value, ZipName(opts.zip.value, opts.firefox), archive)
  {
    var c := CopyStage(s, opts, localePaths);
    if Truthy(opts.js) {
      NoArchiveBelowRank4(s, c.state);
    }
  }

  /** A log that grew only by calls of the copy phase holds no archive. */
  lemma NoArchiveBelowRank4(s: FsState, t: FsState)
    requires Ordered(s, t, 3)
    ensures forall i :: |s.log| <= i < |t.log| ==> !t.log[i].ArchiveCall?
  {
    forall i | |s.log| <= i < |t.log|
      ensures !t.log[i].ArchiveCall?
    {
      assert Rank(t.log[i]) <= 3;
    }
  }

  /** With no JavaScript directory, a run logs nothing but the archive. */
  lemma PipelineWithoutJs(s: FsState, opts: Options, localePaths: seq<string>, archive: Content)
    requires opts.dir.Some? && !Truthy(opts.js)
    ensures var r := Pipeline(s, opts, localePaths, archive).state;
      forall i :: |s.log| <= i < |r.log| ==> r.log[i].ArchiveCall?
  {
    PipelineStages(s, opts, localePaths, archive);
  }

  /** With no zip name, a run logs no archive. */
  lemma PipelineWithoutZip(s: FsState, opts: Options, localePaths: seq<string>, archive: Content)
    requires opts.dir.Some? && !Truthy(opts.zip)
    ensures var r := Pipeline(s, opts, localePaths, archive).state;
      forall i :: |s.log| <= i < |r.log| ==> !r.log[i].ArchiveCall?
  {
    PipelineStages(s, opts, localePaths, archive);
  }

  /** An archive is written only under the variant's zip name. */
  lemma PipelineArchiveName(s: FsState, opts: Options, localePaths: seq<string>, archive: Content)
    requires opts.dir.Some? && Truthy(opts.zip)
    ensures var r := Pipeline(s, opts, localePaths, archive).state;
      forall i :: |s.log| <= i < |r.log| && r.log[i].ArchiveCall? ==>
        r.log[i].path == Split(ZipName(opts.zip.value, opts.firefox))
  {
    PipelineStages(s, opts, localePaths, archive);
    var c := CopyStage(s, opts, localePaths);
    var r := Pipeline(s, opts, localePaths, archive).state;
    if c.outcome.Pass? {
      forall i | |s.log| <= i < |r.log| && r.log[i].ArchiveCall?
        ensures r.log[i].path == Split(ZipName(opts.zip.value, opts.firefox))
      {
        assert i >= |c.state.log|;
      }
    }
  }

  /** A failed copy phase ends the run: nothing is archived after it. */
  lemma PipelineStopsAfterFailedCopy(s: FsState, opts: Options, localePaths: seq<string>, archive: Content)
    requires opts.dir.Some? && Truthy(opts.js)
    ensures var c := CopyPhase(s, opts.js.value, opts.dir.value, opts.firefox, localePaths);
      c.outcome.Fail? ==> Pipeline(s, opts, localePaths, archive) == c
  {
    PipelineStages(s, opts, localePaths, archive);
  }

  /** A run without an output directory fails with the text
      "Missing extension directory". */
  lemma MissingDirMessage(s: FsState, opts: Options, localePaths: seq<string>, archive: Content)
    requires opts.dir.None?
    ensures Message(Pipeline(s, opts, localePaths, archive).outcome.error) == "Missing extension directory"
  {
    MissingDirSpelled();
  }

  /** A zip phase on a missing directory fails with the text
      "Directory not found: " followed by the directory. */
  lemma DirectoryNotFoundMessage(s: FsState, srcDir: string, zipPath: string, archive: Content)
    requires !NameExists(s, srcDir)
    ensures Message(ZipPhase(s, srcDir, zipPath, archive).outcome.error) == "Directory not found: " + srcDir
  {
  }

  /** An empty output directory is accepted by the option check but names
      no directory: a copy phase fails at its first mkdir with ENOENT, a zip
      phase with "Directory not found: ", and no file changes. */
  lemma EmptyOutputDirFails(s: FsState, opts: Options, localePaths: seq<string>, archive: Content)
    requires opts.dir == Some("") && (Truthy(opts.js) || Truthy(opts.zip))
    ensures var r := Pipeline(s, opts, localePaths, archive);
      r.state.files == s.files &&
      r.outcome == (if Truthy(opts.js) then Fail(NoEntry([])) else Fail(DirectoryNotFound("")))
  {
    if Truthy(opts.js) {
      var ms := ResolveFiles(opts.js.value, "", opts.firefox, localePaths);
      assert Prepare(s, "", opts.firefox, ms).outcome == Fail(NoEntry([]));
    }
  }

  /** The output directory is tested with `??`, which rejects only a missing
      value, while the JavaScript directory and the zip name are tested for
      truthiness: with all three given as "" the run is accepted and does
      nothing. */
  lemma EmptyOptionsDoNothing(s: FsState, firefox: bool, localePaths: seq<string>, archive: Content)
    ensures Pipeline(s, Options(Some(""), Some(""), Some(""), firefox), localePaths, archive) == Step(s, Pass)
  {
  }

  /** Only spells out the concatenation of string literals. */
  lemma MissingDirSpelled()
    ensures "Missing " + "extension directory" == "Missing extension directory"
  {
  }

  /** For the Firefox variant "pkg.zip" becomes "pkg-firefox.zip". */
  lemma ZipNamePkg()
    ensures ZipName("pkg.zip", true) == "pkg-firefox.zip"
    ensures ZipName("pkg.zip", false) == "pkg.zip"
  {
    var stem := "pkg";
    forall j | 0 <= j < |stem|
      ensures !OccursAt(stem + ".zip", ".zip", j)
    {
      assert (stem + ".zip")[j] == stem[j];
      MismatchAt(stem + ".zip", ".zip", j);
    }
    ZipNameFirefox(stem);
    PkgSpelled();
  }

  /** Only spells out the concatenation of string literals. */
  lemma PkgSpelled()
    ensures "pkg" + ".zip" == "pkg.zip" && "pkg" + "-firefox.zip" == "pkg-firefox.zip"
  {
  }

  /** The first ".zip" of a Firefox zip name becomes "-firefox.zip",
      whatever follows it. */
  lemma ZipNameFirstExtension(stem: string, tail: string)
    requires forall j :: 0 <= j < |stem| ==> !OccursAt(stem + ".zip" + tail, ".zip", j)
    ensures ZipName(stem + ".zip" + tail, true) == stem + "-firefox.zip" + tail
  {
    var z := stem + ".zip" + tail;
    assert z[|stem|..|stem| + 4] == ".zip";
    ReplaceFirstAt(z, ".zip", "-firefox.zip", |stem|);
    assert z[..|stem|] == stem;
    assert z[|stem| + 4..] == tail;
  }

  /** A name whose only ".zip" is its extension gets "-firefox" before it. */
  lemma ZipNameFirefox(stem: string)
    requires forall j :: 0 <= j < |stem| ==> !OccursAt(stem + ".zip", ".zip", j)
    ensures ZipName(stem + ".zip", true) == stem + "-firefox.zip"
  {
    assert stem + ".zip" + "" == stem + ".zip";
    assert stem + "-firefox.zip" + "" == stem + "-firefox.zip";
    ZipNameFirstExtension(stem, "");
  }

  /** Only the first ".zip" is rewritten, wherever it stands: "a.zip.zip"
      becomes "a-firefox.zip.zip", not "a.zip-firefox.zip". */
  lemma ZipNameReplacesFirstOnly()
    ensures ZipName("a.zip.zip", true) == "a-firefox.zip.zip"
  {
    MismatchAt("a" + ".zip" + ".zip", ".zip", 0);
    ZipNameFirstExtension("a", ".zip");
    DoubleExtensionSpelled();
  }

  /** Only spells out the concatenation of string literals. */
  lemma DoubleExtensionSpelled()
    ensures "a" + ".zip" + ".zip" == "a.zip.zip" && "a" + "-firefox.zip" + ".zip" == "a-firefox.zip.zip"
  {
  }
}
