/** The packaging pipeline: the copy phase that stages the extension in the
    output directory, the zip phase that archives it, and the run that
    validates the options and sequences the two. Each phase is a pure
    function of the file-system state (its specification) and a method that
    performs it on a FileSystem object. */
module Package {
  import opened Paths
  import opened Outcomes
  import opened Strings
  import opened Manifest
  import opened Fs
  import opened Resolve

  /** The resolved command-line options; `firefox` is false when the flag is
      absent. */
  datatype Options = Options(dir: Option<string>, js: Option<string>, zip: Option<string>, firefox: bool)

  /** A JavaScript truthiness test on an optional string: undefined and the
      empty string are the only falsy values an option can take. */
  predicate Truthy(o: Option<string>): (r: bool)
    ensures !r <==> o == None || o == Some("")
  {
    o.Some? && o.value != ""
  }

  /** Creates p and the directories above it unless something (a file or a
      directory) already exists at p; the only directories it can add are
      those on the way to p. */
  function MkdirIfAbsent(s: FsState, p: Path): (r: Step)
    ensures r.state.files == s.files && s.dirs <= r.state.dirs
    ensures r.state.dirs <= s.dirs + Prefixes(p)
    ensures Appends(s, r.state, 0)
    ensures r.outcome.Pass? ==> PathExists(r.state, p)
    ensures PathExists(s, p) ==> r == Step(s, Pass)
    ensures Valid(s) ==> Valid(r.state)
  {
    AppendsNothing(s, 0);
    PrefixesHoldEnds(p);
    if PathExists(s, p) then Step(s, Pass) else MkdirStep(s, p)
  }

  /** Every directory on the way to the parent of some destination. */
  function ParentDirs(ms: seq<Mapping>): set<Path>
    decreases |ms|
  {
    if ms == [] then {} else Prefixes(Parent(ms[0].dest)) + ParentDirs(ms[1..])
  }

  /** The loop creating the parent directory of every destination; the first
      failing mkdir ends it. No other directory is created. */
  function MkdirParents(s: FsState, ms: seq<Mapping>): (r: Step)
    ensures r.state.files == s.files && s.dirs <= r.state.dirs
    ensures r.state.dirs <= s.dirs + ParentDirs(ms)
    ensures Appends(s, r.state, 0)
    ensures r.outcome.Pass? ==> forall m :: m in ms ==> PathExists(r.state, Parent(m.dest))
    ensures Valid(s) ==> Valid(r.state)
    decreases |ms|
  {
    if ms == [] then
      AppendsNothing(s, 0);
      Step(s, Pass)
    else
      var a := MkdirIfAbsent(s, Parent(ms[0].dest));
      if a.outcome.Fail? then a
      else
        var b := MkdirParents(a.state, ms[1..]);
        AppendsTrans(s, a.state, b.state, 0);
        InHeadOrTail(ms);
        b
  }

  /** One turn of the loop: a passing first mkdir leaves the rest of the
      loop to run from its state. */
  lemma MkdirParentsStep(s: FsState, ms: seq<Mapping>)
    requires ms != [] && MkdirIfAbsent(s, Parent(ms[0].dest)).outcome.Pass?
    ensures MkdirParents(s, ms) == MkdirParents(MkdirIfAbsent(s, Parent(ms[0].dest)).state, ms[1..])
  {
  }

  /** The output directory, named by the option string as given, then the
      parent of every destination; no other directory is created. An empty
      name is not an existing directory and cannot be created. */
  function Materialize(s: FsState, dist: string, ms: seq<Mapping>): (r: Step)
    ensures r.state.files == s.files && s.dirs <= r.state.dirs
    ensures r.state.dirs <= s.dirs + Prefixes(Split(dist)) + ParentDirs(ms)
    ensures Appends(s, r.state, 0)
    ensures r.outcome.Pass? ==>
      NameExists(r.state, dist) && forall m :: m in ms ==> PathExists(r.state, Parent(m.dest))
    ensures dist == "" ==> r == Step(Logged(s, MkdirCall([])), Fail(NoEntry([])))
    ensures Valid(s) ==> Valid(r.state)
  {
    AppendsNothing(s, 0);
    PrefixesHoldEnds(Split(dist));
    var a := if NameExists(s, dist) then Step(s, Pass) else MkdirNameStep(s, dist);
    if a.outcome.Fail? then a
    else
      var b := MkdirParents(a.state, ms);
      AppendsTrans(s, a.state, b.state, 0);
      b
  }

  /** When the parent of every destination exists, the loop does nothing. */
  lemma {:induction false} MkdirParentsNoop(s: FsState, ms: seq<Mapping>)
    requires forall m :: m in ms ==> PathExists(s, Parent(m.dest))
    ensures MkdirParents(s, ms) == Step(s, Pass)
    decreases |ms|
  {
    if ms != [] {
      assert ms[0] in ms;
      assert forall m :: m in ms[1..] ==> m in ms;
      MkdirParentsNoop(s, ms[1..]);
    }
  }

  /** Creating the directories a second time, on the state the first pass
      left, finds them all and changes nothing. */
  lemma MaterializeIdempotent(s: FsState, dist: string, ms: seq<Mapping>)
    requires Materialize(s, dist, ms).outcome.Pass?
    ensures var t := Materialize(s, dist, ms).state;
      Materialize(t, dist, ms) == Step(t, Pass)
  {
    var t := Materialize(s, dist, ms).state;
    MkdirParentsNoop(t, ms);
  }

  /** The loop passes when no directory it may have to create is a file. */
  lemma {:induction false} MkdirParentsPasses(s: FsState, ms: seq<Mapping>)
    requires forall q :: q in ParentDirs(ms) ==> q !in s.files
    ensures MkdirParents(s, ms).outcome.Pass?
    decreases |ms|
  {
    if ms != [] {
      var a := MkdirIfAbsent(s, Parent(ms[0].dest));
      assert a.outcome.Pass?;
      MkdirParentsPasses(a.state, ms[1..]);
    }
  }

  /** Creating the directories passes when the output directory is named
      and nothing on the way to it or to a destination's parent is a file. */
  lemma MaterializePasses(s: FsState, dist: string, ms: seq<Mapping>)
    requires dist != ""
    requires forall q :: q in Prefixes(Split(dist)) + ParentDirs(ms) ==> q !in s.files
    ensures Materialize(s, dist, ms).outcome.Pass?
  {
    var a := if NameExists(s, dist) then Step(s, Pass) else MkdirNameStep(s, dist);
    assert a.outcome.Pass?;
    MkdirParentsPasses(a.state, ms);
  }

  /** Every destination's parent is among the directories the loop may
      create. */
  lemma {:induction false} ParentInParentDirs(ms: seq<Mapping>, m: Mapping)
    requires m in ms
    ensures Parent(m.dest) in ParentDirs(ms)
    decreases |ms|
  {
    if m == ms[0] {
      PrefixesHoldEnds(Parent(m.dest));
    } else {
      InHeadOrTail(ms);
      ParentInParentDirs(ms[1..], m);
    }
  }

  /** Reads manifest.json, parses it, applies the Firefox fields and writes
      the result to the transient manifest file. */
  function StageManifest(s: FsState): (r: Step)
    ensures r.state.dirs == s.dirs && Appends(s, r.state, 1)
    ensures r.outcome.Pass? ==>
      [ManifestName] in s.files && s.files[[ManifestName]].JsonText? &&
      ForFirefox(s.files[[ManifestName]].doc).Ok? &&
      r.state.files == s.files[TransientManifest := JsonText(ForFirefox(s.files[[ManifestName]].doc).value)]
    ensures r.outcome.Fail? ==> r.state.files == s.files
    ensures Valid(s) ==> Valid(r.state)
  {
    AppendsNothing(s, 1);
    var c := Read(s, [ManifestName]);
    if c.Err? then Step(s, Fail(c.error))
    else match c.value
      case Bytes(_) => Step(s, Fail(SyntaxError([ManifestName])))
      case JsonText(j) =>
        var t := ForFirefox(j);
        if t.Err? then Step(s, Fail(t.error))
        else WriteStep(s, TransientManifest, JsonText(t.value))
  }

  /** Everything the copy phase does before its first copy. When it succeeds,
      the output directory and the parent of every destination exist, and in
      the Firefox variant the transformed manifest has been written to the
      transient file; no other file has changed. */
  function Prepare(s: FsState, dist: string, firefox: bool, ms: seq<Mapping>): (r: Step)
    ensures s.dirs <= r.state.dirs && Ordered(s, r.state, 1)
    ensures r.state.dirs <= s.dirs + Prefixes(Split(dist)) + ParentDirs(ms)
    ensures r.state.files.Keys <= s.files.Keys + {TransientManifest}
    ensures r.outcome.Fail? ==> r.state.files == s.files
    ensures r.outcome.Pass? ==>
      NameExists(r.state, dist) && (forall m :: m in ms ==> PathExists(r.state, Parent(m.dest))) &&
      r.state.files - {TransientManifest} == s.files - {TransientManifest}
    ensures r.outcome.Pass? && !firefox ==> r.state.files == s.files
    ensures r.outcome.Pass? && firefox ==>
      [ManifestName] in s.files && s.files[[ManifestName]].JsonText? &&
      ForFirefox(s.files[[ManifestName]].doc).Ok? &&
      TransientManifest in r.state.files &&
      r.state.files[TransientManifest] == JsonText(ForFirefox(s.files[[ManifestName]].doc).value)
    ensures Valid(s) ==> Valid(r.state)
  {
    var m := Materialize(s, dist, ms);
    AppendsOrdered(s, m.state, 0);
    if m.outcome.Fail? || !firefox then
      OrderedWeaken(s, m.state, 0, 1);
      m
    else
      var w := StageManifest(m.state);
      OrderedThen(s, m.state, w.state, 0, 1);
      w
  }

  /** Preparing passes when the directories can be created, and in the
      Firefox variant when manifest.json holds a document the Firefox fields
      apply to and the transient file can be written at the root. */
  lemma PreparePasses(s: FsState, dist: string, firefox: bool, ms: seq<Mapping>)
    requires Valid(s) && dist != ""
    requires forall q :: q in Prefixes(Split(dist)) + ParentDirs(ms) ==> q !in s.files
    requires firefox ==>
      [ManifestName] in s.files && s.files[[ManifestName]].JsonText? &&
      ForFirefox(s.files[[ManifestName]].doc).Ok? &&
      TransientManifest !in s.dirs && TransientManifest !in Prefixes(Split(dist)) + ParentDirs(ms)
    ensures Prepare(s, dist, firefox, ms).outcome.Pass?
  {
    MaterializePasses(s, dist, ms);
    var m := Materialize(s, dist, ms);
    if firefox {
      assert Parent(TransientManifest) == [];
      assert StageManifest(m.state).outcome.Pass?;
    }
  }

  /** The log entries of attempting every copy, in order. */
  function CopyCalls(ms: seq<Mapping>): (r: seq<Op>)
    ensures |r| == |ms|
    ensures forall i :: 0 <= i < |ms| ==> r[i] == CopyCall(ms[i].src, ms[i].dest)
  {
    seq(|ms|, i requires 0 <= i < |ms| => CopyCall(ms[i].src, ms[i].dest))
  }

  /** Every destination of a file list. */
  function Dests(ms: seq<Mapping>): set<Path>
    decreases |ms|
  {
    if ms == [] then {} else {ms[0].dest} + Dests(ms[1..])
  }

  /** A path is a destination of a list exactly when some mapping of the
      list has it as its destination. */
  lemma {:induction false} DestsAt(ms: seq<Mapping>, d: Path)
    ensures d in Dests(ms) <==> exists i :: 0 <= i < |ms| && ms[i].dest == d
    decreases |ms|
  {
    if ms != [] {
      DestsAt(ms[1..], d);
      if d in Dests(ms[1..]) {
        var i :| 0 <= i < |ms[1..]| && ms[1..][i].dest == d;
        assert ms[i + 1].dest == d;
      } else if d != ms[0].dest {
        forall i | 0 <= i < |ms|
          ensures ms[i].dest != d
        {
          if i > 0 {
            assert ms[1..][i - 1] == ms[i];
          }
        }
      }
    }
  }

  /** The Promise.all over every mapping, as a sequential loop: every copy is
      attempted (a failing one cancels none of the others), later copies to
      the same destination overwrite earlier ones, and the phase fails with
      the first failure. */
  function CopyAll(s: FsState, ms: seq<Mapping>): (r: Step)
    ensures r.state.dirs == s.dirs
    ensures r.outcome.Pass? ==> s.files.Keys <= r.state.files.Keys
    ensures r.outcome.Pass? ==> forall m :: m in ms ==> m.dest in r.state.files
    ensures Valid(s) ==> Valid(r.state)
    decreases |ms|
  {
    if ms == [] then
      assert s.log + CopyCalls(ms) == s.log;
      Step(s, Pass)
    else
      var first := CopyStep(s, ms[0].src, ms[0].dest);
      var rest := CopyAll(first.state, ms[1..]);
      var o := if first.outcome.Fail? then first.outcome else rest.outcome;
      assert o.Pass? ==> forall m :: m in ms ==> m.dest in rest.state.files by {
        if o.Pass? {
          InHeadOrTail(ms);
          assert ms[0].dest in first.state.files;
        }
      }
      Step(rest.state, o)
  }

  /** The copies can remove or create only destinations; when all pass the
      files are exactly those before and every destination. */
  lemma {:induction false} CopyAllFiles(s: FsState, ms: seq<Mapping>)
    ensures var r := CopyAll(s, ms).state.files;
      s.files.Keys - Dests(ms) <= r.Keys <= s.files.Keys + Dests(ms)
    ensures CopyAll(s, ms).outcome.Pass? ==> CopyAll(s, ms).state.files.Keys == s.files.Keys + Dests(ms)
    decreases |ms|
  {
    if ms != [] {
      var first := CopyStep(s, ms[0].src, ms[0].dest);
      CopyAllUnfold(s, ms);
      CopyAllFiles(first.state, ms[1..]);
    }
  }

  lemma CopyCallsCons(ms: seq<Mapping>)
    requires ms != []
    ensures CopyCalls(ms) == [CopyCall(ms[0].src, ms[0].dest)] + CopyCalls(ms[1..])
  {
  }

  lemma InHeadOrTail<T>(xs: seq<T>)
    requires xs != []
    ensures forall x :: x in xs ==> x == xs[0] || x in xs[1..]
  {
    assert xs == [xs[0]] + xs[1..];
  }

  /** The copies log one copy call per mapping, in list order. */
  lemma {:induction false} CopyAllLog(s: FsState, ms: seq<Mapping>)
    ensures CopyAll(s, ms).state.log == s.log + CopyCalls(ms)
    decreases |ms|
  {
    if ms == [] {
      assert s.log + CopyCalls(ms) == s.log;
    } else {
      var c := CopyCall(ms[0].src, ms[0].dest);
      var t := CopyStep(s, ms[0].src, ms[0].dest).state;
      CopyAllUnfold(s, ms);
      CopyAllLog(t, ms[1..]);
      CopyCallsCons(ms);
      Reassociate(s.log, c, CopyCalls(ms[1..]), t.log, CopyAll(s, ms).state.log);
    }
  }

  lemma Reassociate(a: seq<Op>, c: Op, rest: seq<Op>, t: seq<Op>, r: seq<Op>)
    requires t == a + [c] && r == t + rest
    ensures r == a + ([c] + rest)
  {
  }

  /** One step of CopyAll: the first copy, then the rest from its state; the
      whole passes when both do. */
  lemma CopyAllUnfold(s: FsState, ms: seq<Mapping>)
    requires ms != []
    ensures var first := CopyStep(s, ms[0].src, ms[0].dest);
      var rest := CopyAll(first.state, ms[1..]);
      CopyAll(s, ms).state == rest.state &&
      (CopyAll(s, ms).outcome.Pass? <==> first.outcome.Pass? && rest.outcome.Pass?)
  {
  }

  lemma CopyAllAppends(s: FsState, ms: seq<Mapping>)
    ensures Appends(s, CopyAll(s, ms).state, 2)
  {
    CopyAllLog(s, ms);
    var r := CopyAll(s, ms).state;
    assert r.log[..|s.log|] == s.log;
  }

  /** Removing the transient manifest if it exists. */
  function Cleanup(s: FsState): (r: Step)
    ensures r.state.dirs == s.dirs && Appends(s, r.state, 3)
    ensures r.state.files == s.files - {TransientManifest}
    ensures r.outcome.Pass? <==> TransientManifest in s.files || TransientManifest !in s.dirs
    ensures Valid(s) ==> Valid(r.state)
  {
    AppendsNothing(s, 3);
    if PathExists(s, TransientManifest) then UnlinkStep(s, TransientManifest)
    else
      assert s.files - {TransientManifest} == s.files;
      Step(s, Pass)
  }

  /** The copies of the copy phase and, in the Firefox variant, the
      removal of the transient manifest; a failed copy ends it before the
      clean-up. */
  function CopyAndClean(p: FsState, firefox: bool, ms: seq<Mapping>): (r: Step)
    ensures p.dirs == r.state.dirs && OrderedFrom(p, r.state, 2, 3)
    ensures r.state.files.Keys <= p.files.Keys + Dests(ms)
    ensures r.outcome.Pass? ==> forall m :: m in ms && m.dest != TransientManifest ==> m.dest in r.state.files
    ensures r.outcome.Pass? && !firefox ==> forall m :: m in ms ==> m.dest in r.state.files
    ensures r.outcome.Pass? && firefox ==> TransientManifest !in r.state.files
    ensures Valid(p) ==> Valid(r.state)
  {
    var c := CopyAll(p, ms);
    CopyAllAppends(p, ms);
    CopyAllFiles(p, ms);
    AppendsOrdered(p, c.state, 2);
    if c.outcome.Fail? || !firefox then
      OrderedWeaken(p, c.state, 2, 3);
      c
    else
      var u := Cleanup(c.state);
      OrderedThen(p, c.state, u.state, 2, 3);
      assert OrderedFrom(p, u.state, 2, 3) by {
        assert forall i :: |p.log| <= i < |c.state.log| ==> u.state.log[i] == c.state.log[i];
      }
      u
  }

  /** Prepare, then copy every mapping of ms and in the Firefox variant
      remove the transient manifest. The resolved list always starts with a
      file placed directly in the output directory (background.js). */
  function CopyMappings(s: FsState, dist: string, firefox: bool, ms: seq<Mapping>): (r: Step)
    requires ms != [] && Parent(ms[0].dest) == Split(dist)
    ensures s.dirs <= r.state.dirs && Ordered(s, r.state, 3)
    ensures r.state.dirs <= s.dirs + Prefixes(Split(dist)) + ParentDirs(ms)
    ensures r.state.files.Keys <= s.files.Keys + {TransientManifest} + Dests(ms)
    ensures r.outcome.Pass? ==> NameExists(r.state, dist)
    ensures r.outcome.Pass? ==> forall m :: m in ms && m.dest != TransientManifest ==> m.dest in r.state.files
    ensures r.outcome.Pass? && !firefox ==> forall m :: m in ms ==> m.dest in r.state.files
    ensures r.outcome.Pass? && firefox ==> TransientManifest !in r.state.files
    ensures Valid(s) ==> Valid(r.state)
  {
    var p := Prepare(s, dist, firefox, ms);
    if p.outcome.Fail? then
      OrderedWeaken(s, p.state, 1, 3);
      p
    else
      var f := CopyAndClean(p.state, firefox, ms);
      OrderedJoin(s, p.state, f.state, 1, 2, 3);
      f
  }

  /** ChromeExtensionPackage.copy: prepare, then copy every mapping and in
      the Firefox variant remove the transient manifest. */
  function CopyPhase(s: FsState, js: string, dist: string, firefox: bool, localePaths: seq<string>): (r: Step)
    ensures s.dirs <= r.state.dirs && Ordered(s, r.state, 3)
    ensures r.state.dirs <= s.dirs + Prefixes(Split(dist)) + ParentDirs(ResolveFiles(js, dist, firefox, localePaths))
    ensures r.state.files.Keys <= s.files.Keys + {TransientManifest} + Dests(ResolveFiles(js, dist, firefox, localePaths))
    ensures r.outcome.Pass? ==> NameExists(r.state, dist)
    ensures r.outcome.Pass? ==>
      forall m :: m in ResolveFiles(js, dist, firefox, localePaths) && m.dest != TransientManifest ==>
        m.dest in r.state.files
    ensures r.outcome.Pass? && !firefox ==>
      forall m :: m in ResolveFiles(js, dist, firefox, localePaths) ==> m.dest in r.state.files
    ensures r.outcome.Pass? && firefox ==> TransientManifest !in r.state.files
    ensures Valid(s) ==> Valid(r.state)
  {
    CopyMappings(s, dist, firefox, ResolveFiles(js, dist, firefox, localePaths))
  }

  /** The archive name: for Firefox the first ".zip" in the name, wherever it
      stands, becomes "-firefox.zip". */
  function ZipName(zipPath: string, firefox: bool): (r: string)
    ensures !firefox ==> r == zipPath
    ensures firefox ==> forall i: nat :: FirstAt(zipPath, ".zip", i) ==>
      r == zipPath[..i] + "-firefox.zip" + zipPath[i + 4..]
    ensures Absent(zipPath, ".zip") ==> r == zipPath
  {
    ReplaceFirstSpec(zipPath, ".zip", "-firefox.zip");
    if firefox then ReplaceFirst(zipPath, ".zip", "-firefox.zip") else zipPath
  }

  /** ChromeExtensionPackage.zip: a missing source directory (the empty
      name included) throws before anything is written; otherwise the
      archive (its bytes come from the archiver library) is written to
      zipPath. */
  function ZipPhase(s: FsState, srcDir: string, zipPath: string, archive: Content): (r: Step)
    ensures !NameExists(s, srcDir) ==> r == Step(s, Fail(DirectoryNotFound(srcDir)))
    ensures NameExists(s, srcDir) ==> r.state.log == s.log + [ArchiveCall(Split(zipPath))]
    ensures r.outcome.Pass? ==> r.state.files == s.files[Split(zipPath) := archive]
    ensures r.outcome.Fail? ==> r.state.files == s.files
    ensures r.state.dirs == s.dirs && Appends(s, r.state, 4)
    ensures Valid(s) ==> Valid(r.state)
  {
    AppendsNothing(s, 4);
    if !NameExists(s, srcDir) then Step(s, Fail(DirectoryNotFound(srcDir)))
    else ArchiveStep(s, Split(zipPath), archive)
  }

  /** ChromeExtensionPackage.run over resolved options: the output directory
      is required; the copy phase runs when a JavaScript directory is given,
      the zip phase when a zip name is given and the copy phase (if any)
      succeeded. */
  function Pipeline(s: FsState, opts: Options, localePaths: seq<string>, archive: Content): (r: Step)
    ensures opts.dir.None? ==> r == Step(s, Fail(MissingArg("extension directory")))
    ensures opts.dir.Some? && !Truthy(opts.js) && !Truthy(opts.zip) ==> r == Step(s, Pass)
    ensures Ordered(s, r.state, 4)
    ensures Valid(s) ==> Valid(r.state)
  {
    AppendsNothing(s, 0);
    AppendsOrdered(s, s, 0);
    if opts.dir.None? then Step(s, Fail(MissingArg("extension directory")))
    else
      var dist := opts.dir.value;
      var c := if Truthy(opts.js) then CopyPhase(s, opts.js.value, dist, opts.firefox, localePaths) else Step(s, Pass);
      if c.outcome.Fail? || !Truthy(opts.zip) then
        OrderedWeaken(s, c.state, 3, 4);
        c
      else
        var z := ZipPhase(c.state, dist, ZipName(opts.zip.value, opts.firefox), archive);
        OrderedThen(s, c.state, z.state, 3, 4);
        z
  }

  /** The output directory, then the parent directory of every destination,
      each created when it does not exist yet. */
  /** Creates the directory named by the path unless it already exists. */
  method EnsureDirectory(fs: FileSystem, dir: Path) returns (o: Outcome)
    modifies fs
    ensures Step(fs.State(), o) == MkdirIfAbsent(old(fs.State()), dir)
  {
    o := Pass;
    var found := fs.Exists(dir);
    if !found {
      o := fs.Mkdir(dir);
    }
  }

  method MakeDirectories(fs: FileSystem, dist: string, files: seq<Mapping>) returns (o: Outcome)
    modifies fs
    ensures Step(fs.State(), o) == Materialize(old(fs.State()), dist, files)
  {
    o := Pass;
    var present := fs.ExistsSync(dist);
    if !present {
      o := fs.MkdirName(dist);
      if o.Fail? {
        return;
      }
    }
    ghost var s1 := fs.State();
    var i := 0;
    while i < |files|
      invariant 0 <= i <= |files|
      invariant MkdirParents(s1, files) == MkdirParents(fs.State(), files[i..])
    {
      assert files[i..][0] == files[i] && files[i..][1..] == files[i + 1..];
      ghost var before := fs.State();
      o := EnsureDirectory(fs, Parent(files[i].dest));
      if o.Fail? {
        return;
      }
      MkdirParentsStep(before, files[i..]);
      i := i + 1;
    }
    o := Pass;
  }

  /** Reads manifest.json, applies the Firefox fields and writes the result
      to the transient manifest. */
  method WriteFirefoxManifest(fs: FileSystem) returns (o: Outcome)
    modifies fs
    ensures Step(fs.State(), o) == StageManifest(old(fs.State()))
  {
    var content := fs.ReadFile([ManifestName]);
    if content.Err? {
      o := Fail(content.error);
      return;
    }
    match content.value
    case Bytes(_) => {
      o := Fail(SyntaxError([ManifestName]));
    }
    case JsonText(j) => {
      var t := ForFirefox(j);
      if t.Err? {
        o := Fail(t.error);
        return;
      }
      o := fs.WriteFile(TransientManifest, JsonText(t.value));
    }
  }

  /** Attempts every copy in order and reports the first failure. */
  method CopyEach(fs: FileSystem, files: seq<Mapping>) returns (o: Outcome)
    modifies fs
    ensures Step(fs.State(), o) == CopyAll(old(fs.State()), files)
  {
    ghost var s0 := fs.State();
    o := Pass;
    var k := 0;
    while k < |files|
      invariant 0 <= k <= |files|
      invariant CopyAll(s0, files) ==
        var rest := CopyAll(fs.State(), files[k..]);
        Step(rest.state, if o.Fail? then o else rest.outcome)
    {
      assert files[k..][0] == files[k] && files[k..][1..] == files[k + 1..];
      var copied := fs.CopyFile(files[k].src, files[k].dest);
      if o.Pass? {
        o := copied;
      }
      k := k + 1;
    }
    assert files[k..] == [];
  }

  /** Removes the transient manifest when it exists. */
  method RemoveTransient(fs: FileSystem) returns (o: Outcome)
    modifies fs
    ensures Step(fs.State(), o) == Cleanup(old(fs.State()))
  {
    o := Pass;
    var leftover := fs.Exists(TransientManifest);
    if leftover {
      o := fs.Unlink(TransientManifest);
    }
  }

  /** The copy phase on the file system fs; localePaths is what the glob
      `_locales/**/*.json` returns. */
  method Copy(fs: FileSystem, js: string, dist: string, firefox: bool, localePaths: seq<string>)
    returns (o: Outcome)
    modifies fs
    ensures Step(fs.State(), o) == CopyPhase(old(fs.State()), js, dist, firefox, localePaths)
  {
    ghost var s0 := fs.State();
    var files := ResolveFiles(js, dist, firefox, localePaths);
    o := MakeDirectories(fs, dist, files);
    if o.Fail? {
      return;
    }
    if firefox {
      o := WriteFirefoxManifest(fs);
      if o.Fail? {
        return;
      }
    }
    assert Prepare(s0, dist, firefox, files) == Step(fs.State(), Pass);
    o := CopyEach(fs, files);
    if o.Fail? || !firefox {
      return;
    }
    o := RemoveTransient(fs);
  }

  /** The zip phase on the file system fs; archive is what the archiver
      library produces for srcDir. */
  method Zip(fs: FileSystem, srcDir: string, zipPath: string, archive: Content) returns (o: Outcome)
    modifies fs
    ensures Step(fs.State(), o) == ZipPhase(old(fs.State()), srcDir, zipPath, archive)
  {
    var found := fs.ExistsSync(srcDir);
    if !found {
      o := Fail(DirectoryNotFound(srcDir));
      return;
    }
    o := fs.WriteArchive(Split(zipPath), archive);
  }

  /** ChromeExtensionPackage.run on the file system fs. */
  method Run(fs: FileSystem, opts: Options, localePaths: seq<string>, archive: Content) returns (o: Outcome)
    modifies fs
    ensures Step(fs.State(), o) == Pipeline(old(fs.State()), opts, localePaths, archive)
  {
    if opts.dir.None? {
      o := Fail(MissingArg("extension directory"));
      return;
    }
    var distDir := opts.dir.value;
    o := Pass;
    if Truthy(opts.js) {
      o := Copy(fs, opts.js.value, distDir, opts.firefox, localePaths);
      if o.Fail? {
        return;
      }
    }
    if Truthy(opts.zip) {
      if opts.firefox {
        var firefoxZipPath := ReplaceFirst(opts.zip.value, ".zip", "-firefox.zip");
        o := Zip(fs, distDir, firefoxZipPath, archive);
      } else {
        o := Zip(fs, distDir, opts.zip.value, archive);
      }
    }
  }
}
