/** The part of the file system the packaging script touches: a map from
    file path to content, a set of directories, and a log of the mutating
    calls made, in order. Each call is a pure step on a state (XStep) and a
    method of the FileSystem class that performs that step in place. */
module Fs {
  import opened Paths
  import opened Outcomes
  import opened Manifest

  /** What a file holds: JSON text (represented by the document it encodes,
      as JSON.stringify writes it and JSON.parse reads it back) or other
      bytes, which JSON.parse rejects. */
  datatype Content = JsonText(doc: Json) | Bytes(data: seq<bv8>)

  /** A mutating file-system call, recorded whether it succeeds or fails. */
  datatype Op =
    | MkdirCall(path: Path)
    | WriteCall(path: Path)
    | CopyCall(src: Path, dest: Path)
    | UnlinkCall(path: Path)
    | ArchiveCall(path: Path)

  /** The phase of a packaging run a call belongs to, in the order the
      phases happen. */
  function Rank(op: Op): nat
  {
    match op
    case MkdirCall(_) => 0
    case WriteCall(_) => 1
    case CopyCall(_, _) => 2
    case UnlinkCall(_) => 3
    case ArchiveCall(_) => 4
  }

  datatype FsState = FsState(files: map<Path, Content>, dirs: set<Path>, log: seq<Op>)

  /** A state after an operation, with how the operation completed. */
  datatype Step = Step(state: FsState, outcome: Outcome)

  /** fs.existsSync: true for a file and for a directory. */
  predicate PathExists(s: FsState, p: Path)
  {
    p in s.files || p in s.dirs
  }

  /** fs.existsSync on a path written as a string: the empty string names
      nothing, every other name is looked up by its segments. */
  predicate NameExists(s: FsState, name: string)
  {
    name != "" && PathExists(s, Split(name))
  }

  /** A well-formed tree: the current directory exists, every directory's
      parent is a directory, every file sits in a directory, and no path is
      both a file and a directory. */
  ghost predicate Valid(s: FsState)
  {
    [] in s.dirs &&
    (forall d :: d in s.dirs ==> Parent(d) in s.dirs) &&
    (forall f :: f in s.files ==> Parent(f) in s.dirs && f !in s.dirs)
  }

  /** The log of s' is the log of s followed by calls of rank k only. */
  ghost predicate Appends(s: FsState, s': FsState, k: nat)
  {
    |s.log| <= |s'.log| && s'.log[..|s.log|] == s.log &&
    forall i :: |s.log| <= i < |s'.log| ==> Rank(s'.log[i]) == k
  }

  /** The log of s' is the log of s followed by calls of rank at most k,
      in non-decreasing rank. */
  ghost predicate Ordered(s: FsState, s': FsState, k: nat)
  {
    |s.log| <= |s'.log| && s'.log[..|s.log|] == s.log &&
    (forall i :: |s.log| <= i < |s'.log| ==> Rank(s'.log[i]) <= k) &&
    (forall i, j :: |s.log| <= i < j < |s'.log| ==> Rank(s'.log[i]) <= Rank(s'.log[j]))
  }

  /** As Ordered, and every call appended has rank at least lo. */
  ghost predicate OrderedFrom(s: FsState, s': FsState, lo: nat, k: nat)
  {
    Ordered(s, s', k) && forall i :: |s.log| <= i < |s'.log| ==> lo <= Rank(s'.log[i])
  }

  /** Two ordered stretches of log, the second starting at a rank no lower
      than the first ends, make one ordered stretch. */
  lemma OrderedJoin(s1: FsState, s2: FsState, s3: FsState, k: nat, lo: nat, k': nat)
    requires Ordered(s1, s2, k) && OrderedFrom(s2, s3, lo, k') && k <= lo <= k'
    ensures Ordered(s1, s3, k')
  {
    assert s3.log[..|s1.log|] == s3.log[..|s2.log|][..|s1.log|];
    forall i | |s1.log| <= i < |s2.log|
      ensures s3.log[i] == s2.log[i]
    {
      assert s3.log[..|s2.log|][i] == s3.log[i];
    }
    forall i, j | |s1.log| <= i < j < |s3.log|
      ensures Rank(s3.log[i]) <= Rank(s3.log[j])
    {
      if j < |s2.log| {
        assert s3.log[i] == s2.log[i] && s3.log[j] == s2.log[j];
      } else if i < |s2.log| {
        assert s3.log[i] == s2.log[i];
      }
    }
  }

  lemma AppendsNothing(s: FsState, k: nat)
    ensures Appends(s, s, k)
  {
    assert s.log[..|s.log|] == s.log;
  }

  lemma AppendsTrans(s1: FsState, s2: FsState, s3: FsState, k: nat)
    requires Appends(s1, s2, k) && Appends(s2, s3, k)
    ensures Appends(s1, s3, k)
  {
    assert s3.log[..|s1.log|] == s3.log[..|s2.log|][..|s1.log|];
    forall i | |s1.log| <= i < |s3.log|
      ensures Rank(s3.log[i]) == k
    {
      if i < |s2.log| {
        assert s3.log[i] == s3.log[..|s2.log|][i];
      }
    }
  }

  lemma AppendsOrdered(s1: FsState, s2: FsState, k: nat)
    requires Appends(s1, s2, k)
    ensures Ordered(s1, s2, k)
  {
  }

  /** An ordered log stays ordered when calls of a rank at least as high follow. */
  lemma OrderedThen(s1: FsState, s2: FsState, s3: FsState, k: nat, k': nat)
    requires Ordered(s1, s2, k) && Appends(s2, s3, k') && k <= k'
    ensures Ordered(s1, s3, k')
  {
    assert s3.log[..|s1.log|] == s3.log[..|s2.log|][..|s1.log|];
    forall i | |s1.log| <= i < |s2.log|
      ensures s3.log[i] == s2.log[i]
    {
      assert s3.log[i] == s3.log[..|s2.log|][i];
    }
  }

  lemma OrderedWeaken(s1: FsState, s2: FsState, k: nat, k': nat)
    requires Ordered(s1, s2, k) && k <= k'
    ensures Ordered(s1, s2, k')
  {
  }

  function Logged(s: FsState, op: Op): FsState
  {
    s.(log := s.log + [op])
  }

  /** fs.promises.mkdir(p, {recursive: true}): creates p and every missing
      directory above it; fails if p or a directory above it is a file. */
  function MkdirStep(s: FsState, p: Path): (r: Step)
    ensures r.state.files == s.files && s.dirs <= r.state.dirs
    ensures r.state.log == s.log + [MkdirCall(p)]
    ensures r.outcome.Pass? <==> forall q :: q in Prefixes(p) ==> q !in s.files
    ensures r.outcome.Pass? ==> Prefixes(p) <= r.state.dirs && r.state.dirs - Prefixes(p) == s.dirs - Prefixes(p)
    ensures r.outcome.Fail? ==> r.state.dirs == s.dirs
    ensures Valid(s) ==> Valid(r.state)
  {
    var t := Logged(s, MkdirCall(p));
    PrefixesClosed(p);
    PrefixesHoldEnds(p);
    if p in s.files then Step(t, Fail(AlreadyExists(p)))
    else if exists k :: 0 <= k < |p| && p[..k] in s.files then Step(t, Fail(NotDirectory(p)))
    else Step(t.(dirs := s.dirs + Prefixes(p)), Pass)
  }

  /** fs.promises.mkdir(name, {recursive: true}) on a path written as a
      string: the empty string is rejected with ENOENT (the attempt is logged
      as one on the current directory); any other name is MkdirStep on its
      segments. */
  function MkdirNameStep(s: FsState, name: string): (r: Step)
    ensures r.state.files == s.files && s.dirs <= r.state.dirs
    ensures r.state.dirs <= s.dirs + Prefixes(Split(name))
    ensures r.state.log == s.log + [MkdirCall(Split(name))]
    ensures r.outcome.Pass? <==> name != "" && forall q :: q in Prefixes(Split(name)) ==> q !in s.files
    ensures name == "" ==> r.outcome == Fail(NoEntry([])) && r.state.dirs == s.dirs
    ensures r.outcome.Pass? ==> NameExists(r.state, name)
    ensures Valid(s) ==> Valid(r.state)
  {
    PrefixesHoldEnds(Split(name));
    if name == "" then Step(Logged(s, MkdirCall([])), Fail(NoEntry([])))
    else MkdirStep(s, Split(name))
  }

  /** Every directory above an existing directory exists. */
  lemma {:induction false} DirsPrefixClosed(s: FsState, d: Path)
    requires Valid(s) && d in s.dirs
    ensures Prefixes(d) <= s.dirs
    decreases |d|
  {
    if d != [] {
      DirsPrefixClosed(s, Parent(d));
      forall q | q in Prefixes(d)
        ensures q in s.dirs
      {
        var k :| 0 <= k <= |d| && q == d[..k];
        if k < |d| {
          assert q == Parent(d)[..k];
        } else {
          assert q == d;
        }
      }
    }
  }

  /** Creating a directory that already exists succeeds and changes no file
      and no directory. */
  lemma MkdirExisting(s: FsState, p: Path)
    requires Valid(s) && p in s.dirs
    ensures MkdirStep(s, p).outcome == Pass
    ensures MkdirStep(s, p).state.files == s.files && MkdirStep(s, p).state.dirs == s.dirs
  {
    DirsPrefixClosed(s, p);
  }

  /** fs.promises.readFile: the content of a file. */
  function Read(s: FsState, p: Path): (r: Result<Content>)
    ensures r.Ok? <==> p in s.files
    ensures r.Ok? ==> r.value == s.files[p]
    ensures p in s.dirs && p !in s.files ==> r == Err(IsDirectory(p))
  {
    if p in s.files then Ok(s.files[p])
    else if p in s.dirs then Err(IsDirectory(p))
    else Err(NoEntry(p))
  }

  /** Why a file cannot be created at p: its parent is missing or is a
      file, or p is a directory. */
  function TargetError(s: FsState, p: Path): (r: Option<Error>)
    ensures r.None? <==> Parent(p) in s.dirs && p !in s.dirs
  {
    if Parent(p) !in s.dirs then
      if Parent(p) in s.files then Some(NotDirectory(p)) else Some(NoEntry(p))
    else if p in s.dirs then Some(IsDirectory(p))
    else None
  }

  /** The state after placing content c at p, recording op. */
  function Place(s: FsState, p: Path, c: Content, op: Op): (r: Step)
    ensures r.state.dirs == s.dirs && r.state.log == s.log + [op]
    ensures r.outcome.Pass? <==> Parent(p) in s.dirs && p !in s.dirs
    ensures r.outcome.Pass? ==> r.state.files == s.files[p := c]
    ensures r.outcome.Fail? ==> r.state.files == s.files
    ensures Valid(s) ==> Valid(r.state)
  {
    var t := Logged(s, op);
    var e := TargetError(s, p);
    if e.Some? then Step(t, Fail(e.value)) else Step(t.(files := s.files[p := c]), Pass)
  }

  /** fs.promises.writeFile: creates or overwrites the file p. */
  function WriteStep(s: FsState, p: Path, c: Content): (r: Step)
    ensures r.state.dirs == s.dirs && r.state.log == s.log + [WriteCall(p)]
    ensures r.outcome.Pass? <==> Parent(p) in s.dirs && p !in s.dirs
    ensures r.outcome.Pass? ==> r.state.files == s.files[p := c]
    ensures r.outcome.Fail? ==> r.state.files == s.files
    ensures Valid(s) ==> Valid(r.state)
  {
    Place(s, p, c, WriteCall(p))
  }

  /** fs.promises.copyFile, in the order libuv performs it: the source is
      opened, then the destination is created or truncated, then the content
      is copied. A missing source fails before the destination is touched. A
      source that is a directory opens but cannot be read, and the opened
      destination is then removed; only a destination that cannot be opened
      survives that failure. */
  function CopyStep(s: FsState, src: Path, dest: Path): (r: Step)
    ensures r.state.dirs == s.dirs && r.state.log == s.log + [CopyCall(src, dest)]
    ensures r.outcome.Pass? <==> src in s.files && Parent(dest) in s.dirs && dest !in s.dirs
    ensures r.outcome.Pass? ==> r.state.files == s.files[dest := s.files[src]]
    ensures r.outcome.Fail? && src in s.dirs && Parent(dest) in s.dirs && dest !in s.dirs ==>
      r.state.files == s.files - {dest}
    ensures r.outcome.Fail? && !(src in s.dirs && Parent(dest) in s.dirs && dest !in s.dirs) ==>
      r.state.files == s.files
    ensures Valid(s) ==> Valid(r.state)
  {
    var t := Logged(s, CopyCall(src, dest));
    if src in s.files then Place(s, dest, s.files[src], CopyCall(src, dest))
    else if src !in s.dirs then Step(t, Fail(NoEntry(src)))
    else
      var e := TargetError(s, dest);
      if e.Some? then Step(t, Fail(e.value))
      else Step(t.(files := s.files - {dest}), Fail(IsDirectory(src)))
  }

  /** fs.promises.unlink: removes the file p. */
  function UnlinkStep(s: FsState, p: Path): (r: Step)
    ensures r.state.dirs == s.dirs && r.state.log == s.log + [UnlinkCall(p)]
    ensures r.outcome.Pass? <==> p in s.files
    ensures r.state.files == s.files - {p}
    ensures Valid(s) ==> Valid(r.state)
  {
    var t := Logged(s, UnlinkCall(p));
    if p in s.files then Step(t.(files := s.files - {p}), Pass)
    else Step(t, Fail(if p in s.dirs then IsDirectory(p) else NoEntry(p)))
  }

  /** Writing the finished archive, the given bytes, to p. */
  function ArchiveStep(s: FsState, p: Path, archive: Content): (r: Step)
    ensures r.state.dirs == s.dirs && r.state.log == s.log + [ArchiveCall(p)]
    ensures r.outcome.Pass? <==> Parent(p) in s.dirs && p !in s.dirs
    ensures r.outcome.Pass? ==> r.state.files == s.files[p := archive]
    ensures r.outcome.Fail? ==> r.state.files == s.files
    ensures Valid(s) ==> Valid(r.state)
  {
    Place(s, p, archive, ArchiveCall(p))
  }

  /** The file system, updated in place. */
  class FileSystem {
    var files: map<Path, Content>
    var dirs: set<Path>
    var log: seq<Op>

    function State(): FsState
      reads this
    {
      FsState(files, dirs, log)
    }

    constructor (files0: map<Path, Content>, dirs0: set<Path>)
      ensures State() == FsState(files0, dirs0, [])
    {
      files, dirs, log := files0, dirs0, [];
    }

    method Exists(p: Path) returns (b: bool)
      ensures b == PathExists(State(), p)
    {
      b := p in files || p in dirs;
    }

    method ExistsSync(name: string) returns (b: bool)
      ensures b == NameExists(State(), name)
    {
      if name == "" {
        b := false;
      } else {
        b := Exists(Split(name));
      }
    }

    method ReadFile(p: Path) returns (r: Result<Content>)
      ensures r == Read(State(), p)
    {
      if p in files {
        r := Ok(files[p]);
      } else if p in dirs {
        r := Err(IsDirectory(p));
      } else {
        r := Err(NoEntry(p));
      }
    }

    method Mkdir(p: Path) returns (o: Outcome)
      modifies this
      ensures Step(State(), o) == MkdirStep(old(State()), p)
    {
      log := log + [MkdirCall(p)];
      if p in files {
        o := Fail(AlreadyExists(p));
      } else if exists k :: 0 <= k < |p| && p[..k] in files {
        o := Fail(NotDirectory(p));
      } else {
        dirs := dirs + Prefixes(p);
        o := Pass;
      }
    }

    method MkdirName(name: string) returns (o: Outcome)
      modifies this
      ensures Step(State(), o) == MkdirNameStep(old(State()), name)
    {
      if name == "" {
        log := log + [MkdirCall([])];
        o := Fail(NoEntry([]));
      } else {
        o := Mkdir(Split(name));
      }
    }

    /** Places c at p, as Place says. */
    method Put(p: Path, c: Content, op: Op) returns (o: Outcome)
      modifies this
      ensures Step(State(), o) == Place(old(State()), p, c, op)
    {
      log := log + [op];
      var e := TargetError(State(), p);
      if e.Some? {
        o := Fail(e.value);
      } else {
        files := files[p := c];
        o := Pass;
      }
    }

    method WriteFile(p: Path, c: Content) returns (o: Outcome)
      modifies this
      ensures Step(State(), o) == WriteStep(old(State()), p, c)
    {
      o := Put(p, c, WriteCall(p));
    }

    method CopyFile(src: Path, dest: Path) returns (o: Outcome)
      modifies this
      ensures Step(State(), o) == CopyStep(old(State()), src, dest)
    {
      if src in files {
        o := Put(dest, files[src], CopyCall(src, dest));
      } else if src !in dirs {
        log := log + [CopyCall(src, dest)];
        o := Fail(NoEntry(src));
      } else {
        var e := TargetError(State(), dest);
        log := log + [CopyCall(src, dest)];
        if e.Some? {
          o := Fail(e.value);
        } else {
          files := files - {dest};
          o := Fail(IsDirectory(src));
        }
      }
    }

    method Unlink(p: Path) returns (o: Outcome)
      modifies this
      ensures Step(State(), o) == UnlinkStep(old(State()), p)
    {
      log := log + [UnlinkCall(p)];
      if p in files {
        files := files - {p};
        o := Pass;
      } else {
        o := Fail(if p in dirs then IsDirectory(p) else NoEntry(p));
      }
    }

    method WriteArchive(p: Path, archive: Content) returns (o: Outcome)
      modifies this
      ensures Step(State(), o) == ArchiveStep(old(State()), p, archive)
    {
      o := Put(p, archive, ArchiveCall(p));
    }
  }
}
