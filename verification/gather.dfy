/**
 * The gather stage: a depth-first walk of the source directory that collects
 * the regular files whose suffix passes the extension filter, reporting each
 * visited directory and each collected file to the pipe, and finally an `end`
 * event carrying the collected list.
 *
 * The directory tree is given as a value: what `iterdir`, `is_file` and
 * `is_dir` would report, in iteration order.
 */
module Gather {

  import opened Effects

  /** A directory and its entries, in the order the operating system lists them. */
  datatype Dir = Dir(name: string, entries: seq<Entry>)

  /** An entry of a directory: a regular file, a subdirectory, or anything else. */
  datatype Entry =
    | File(stem: string, suffix: string)
    | Sub(dir: Dir)
    | Other(name: string)

  /** The extension filter: a file is skipped when the filter is non-empty and lacks its suffix. */
  function Matches(ext: seq<string>, suffix: string): (r: bool)
    ensures |ext| == 0 ==> r
    ensures |ext| > 0 ==> (r <==> exists k :: 0 <= k < |ext| && ext[k] == suffix)
  {
    !(|ext| > 0 && suffix !in ext)
  }

  // ---------------------------------------------------------------------------
  // What the walk produces, as functions of the tree. `Walk(d, at, n, ...)` is
  // what visiting the first `n` entries of `d`, located at `at`, appends to the
  // result list; `WalkTrace` is what it sends to the pipe, starting with the
  // directory's own `gatherdirectory` event.

  function Walk(d: Dir, at: Path, n: nat, ext: seq<string>, recurse: bool): (r: seq<FilePath>)
    requires n <= |d.entries|
    ensures forall k :: 0 <= k < |r| ==> Matches(ext, r[k].suffix)
    ensures !recurse ==> forall k :: 0 <= k < |r| ==> r[k].dir == at
    decreases d, n
  {
    if n == 0 then []
    else Walk(d, at, n - 1, ext, recurse) + EntryFiles(d.entries[n - 1], at, ext, recurse)
  }

  function EntryFiles(e: Entry, at: Path, ext: seq<string>, recurse: bool): (r: seq<FilePath>)
    ensures forall k :: 0 <= k < |r| ==> Matches(ext, r[k].suffix)
    ensures !recurse ==> forall k :: 0 <= k < |r| ==> r[k].dir == at
    decreases e
  {
    match e
    case File(stem, suffix) => if Matches(ext, suffix) then [FilePath(at, stem, suffix)] else []
    case Sub(c) => if recurse then Walk(c, at + [c.name], |c.entries|, ext, recurse) else []
    case Other(_) => []
  }

  function WalkTrace(d: Dir, at: Path, n: nat, ext: seq<string>, recurse: bool): (r: seq<Event>)
    requires n <= |d.entries|
    ensures |r| > 0 && r[0] == GatherDirectory(at)
    decreases d, n
  {
    if n == 0 then [GatherDirectory(at)]
    else WalkTrace(d, at, n - 1, ext, recurse) + EntryTrace(d.entries[n - 1], at, ext, recurse)
  }

  function EntryTrace(e: Entry, at: Path, ext: seq<string>, recurse: bool): seq<Event>
    decreases e
  {
    match e
    case File(stem, suffix) =>
      if Matches(ext, suffix) then [Found(at, FilePath(at, stem, suffix))] else []
    case Sub(c) => if recurse then WalkTrace(c, at + [c.name], |c.entries|, ext, recurse) else []
    case Other(_) => []
  }

  /** The list `gather_files` returns for the source directory `source` located at `at`. */
  function Gathered(source: Dir, at: Path, ext: seq<string>, recurse: bool): (r: seq<FilePath>)
    ensures forall k :: 0 <= k < |r| ==> Matches(ext, r[k].suffix)
    ensures !recurse ==> forall k :: 0 <= k < |r| ==> r[k].dir == at
  {
    Walk(source, at, |source.entries|, ext, recurse)
  }

  /** Everything `gather_files` sends to the pipe, in order. */
  function GatherTrace(source: Dir, at: Path, ext: seq<string>, recurse: bool): (r: seq<Event>)
    ensures |r| >= 2 && r[0] == GatherDirectory(at) && r[|r| - 1].End?
  {
    WalkTrace(source, at, |source.entries|, ext, recurse) + [End(Files(Gathered(source, at, ext, recurse)))]
  }

  // ---------------------------------------------------------------------------
  // Which files a walk can reach, stated independently of the walk's order.

  /** `f` is a regular file among the entries of `d` (located at `at`) or, when recursing, below them. */
  ghost predicate Contains(d: Dir, at: Path, f: FilePath, recurse: bool)
    decreases d
  {
    exists i :: 0 <= i < |d.entries| && Holds(d.entries[i], at, f, recurse)
  }

  ghost predicate Holds(e: Entry, at: Path, f: FilePath, recurse: bool)
    decreases e
  {
    match e
    case File(stem, suffix) => f == FilePath(at, stem, suffix)
    case Sub(c) => recurse && Contains(c, at + [c.name], f, recurse)
    case Other(_) => false
  }

  lemma {:induction false} WalkMembers(d: Dir, at: Path, n: nat, ext: seq<string>, recurse: bool, f: FilePath)
    requires n <= |d.entries|
    ensures f in Walk(d, at, n, ext, recurse) <==>
              Matches(ext, f.suffix) && exists i :: 0 <= i < n && Holds(d.entries[i], at, f, recurse)
    decreases d, n
  {
    if n > 0 {
      WalkMembers(d, at, n - 1, ext, recurse, f);
      EntryMembers(d.entries[n - 1], at, ext, recurse, f);
    }
  }

  lemma {:induction false} EntryMembers(e: Entry, at: Path, ext: seq<string>, recurse: bool, f: FilePath)
    ensures f in EntryFiles(e, at, ext, recurse) <==> Matches(ext, f.suffix) && Holds(e, at, f, recurse)
    decreases e
  {
    match e
    case File(_, _) =>
    case Sub(c) =>
      if recurse {
        WalkMembers(c, at + [c.name], |c.entries|, ext, recurse, f);
      }
    case Other(_) =>
  }

  /**
   * Filter soundness and completeness: a file is gathered exactly when it is a
   * regular file the walk reaches and its suffix passes the filter. With an
   * empty filter every reached regular file is gathered; entries that are
   * neither files nor directories are never gathered.
   */
  lemma GatheredExactly(source: Dir, at: Path, ext: seq<string>, recurse: bool, f: FilePath)
    ensures f in Gathered(source, at, ext, recurse) <==> Contains(source, at, f, recurse) && Matches(ext, f.suffix)
    ensures |ext| == 0 ==> (f in Gathered(source, at, ext, recurse) <==> Contains(source, at, f, recurse))
  {
    WalkMembers(source, at, |source.entries|, ext, recurse, f);
  }

  /**
   * Without recursion only the direct regular children of the source are
   * considered: every gathered file lies directly in the source directory.
   */
  lemma NonRecursiveGathersDirectChildren(source: Dir, at: Path, ext: seq<string>, f: FilePath)
    ensures f in Gathered(source, at, ext, false) <==>
              f.dir == at && Matches(ext, f.suffix) && File(f.stem, f.suffix) in source.entries
  {
    WalkMembers(source, at, |source.entries|, ext, false, f);
    if File(f.stem, f.suffix) in source.entries && f.dir == at {
      var i :| 0 <= i < |source.entries| && source.entries[i] == File(f.stem, f.suffix);
      assert Holds(source.entries[i], at, f, false);
    }
  }

  // ---------------------------------------------------------------------------
  // No file is gathered twice: in a real directory the entry names are unique.

  /** The name under which `e` is listed in its directory. */
  function EntryName(e: Entry): string {
    match e
    case File(stem, suffix) => stem + suffix
    case Sub(c) => c.name
    case Other(name) => name
  }

  /** Within every directory of the tree, no two entries share a name. */
  ghost predicate UniqueNames(d: Dir)
    decreases d
  {
    && (forall i, j :: 0 <= i < j < |d.entries| ==> EntryName(d.entries[i]) != EntryName(d.entries[j]))
    && (forall i :: 0 <= i < |d.entries| && d.entries[i].Sub? ==> UniqueNames(d.entries[i].dir))
  }

  ghost predicate NoDuplicates<T>(s: seq<T>) {
    forall i, j :: 0 <= i < j < |s| ==> s[i] != s[j]
  }

  /** Every file reachable inside `d`, located at `at`, lies in `at` or below it. */
  lemma {:induction false} ContainsBelow(d: Dir, at: Path, f: FilePath, recurse: bool)
    requires Contains(d, at, f, recurse)
    ensures |at| <= |f.dir| && f.dir[..|at|] == at
    decreases d
  {
    var i :| 0 <= i < |d.entries| && Holds(d.entries[i], at, f, recurse);
    if d.entries[i].Sub? {
      var c := d.entries[i].dir;
      ContainsBelow(c, at + [c.name], f, recurse);
      assert f.dir[..|at|] == f.dir[..|at| + 1][..|at|];
    }
  }

  /**
   * The entry of a directory located at `at` that holds `f` is determined by
   * `f`: its name is the file's own name when `f` lies directly in `at`, and
   * otherwise the first component of `f`'s directory below `at`.
   */
  lemma HoldsNamed(e: Entry, at: Path, f: FilePath, recurse: bool)
    ensures Holds(e, at, f, recurse) ==>
              && |at| <= |f.dir| && f.dir[..|at|] == at
              && EntryName(e) == if |f.dir| == |at| then NameOf(f) else f.dir[|at|]
  {
    if e.Sub? && Holds(e, at, f, recurse) {
      ContainsBelow(e.dir, at + [e.dir.name], f, recurse);
      assert f.dir[|at|] == f.dir[..|at| + 1][|at|];
      assert f.dir[..|at|] == f.dir[..|at| + 1][..|at|];
    }
  }

  lemma DistinctConcat<T>(a: seq<T>, b: seq<T>)
    requires NoDuplicates(a) && NoDuplicates(b)
    requires forall x :: x in a ==> x !in b
    ensures NoDuplicates(a + b)
  {
    forall i, j | 0 <= i < j < |a + b| ensures (a + b)[i] != (a + b)[j] {
      if i < |a| && |a| <= j {
        assert (a + b)[i] == a[i] && (a + b)[j] == b[j - |a|];
        assert a[i] in a;
      }
    }
  }

  lemma {:induction false} WalkNoDuplicates(d: Dir, at: Path, n: nat, ext: seq<string>, recurse: bool)
    requires n <= |d.entries| && UniqueNames(d)
    ensures NoDuplicates(Walk(d, at, n, ext, recurse))
    decreases d, n
  {
    if n > 0 {
      var e := d.entries[n - 1];
      var earlier := Walk(d, at, n - 1, ext, recurse);
      WalkNoDuplicates(d, at, n - 1, ext, recurse);
      EntryNoDuplicates(e, at, ext, recurse);
      forall f | f in earlier ensures f !in EntryFiles(e, at, ext, recurse) {
        WalkMembers(d, at, n - 1, ext, recurse, f);
        EntryMembers(e, at, ext, recurse, f);
        var i :| 0 <= i < n - 1 && Holds(d.entries[i], at, f, recurse);
        HoldsNamed(d.entries[i], at, f, recurse);
        HoldsNamed(e, at, f, recurse);
      }
      DistinctConcat(earlier, EntryFiles(e, at, ext, recurse));
    }
  }

  lemma {:induction false} EntryNoDuplicates(e: Entry, at: Path, ext: seq<string>, recurse: bool)
    requires e.Sub? ==> UniqueNames(e.dir)
    ensures NoDuplicates(EntryFiles(e, at, ext, recurse))
    decreases e
  {
    if e.Sub? && recurse {
      WalkNoDuplicates(e.dir, at + [e.dir.name], |e.dir.entries|, ext, recurse);
    }
  }

  /**
   * In a tree whose directories list each name once, `gather_files` returns
   * every file at most once: no two positions of the list hold the same path.
   */
  lemma GatheredNoDuplicates(source: Dir, at: Path, ext: seq<string>, recurse: bool)
    requires UniqueNames(source)
    ensures forall i, j :: 0 <= i < j < |Gathered(source, at, ext, recurse)| ==>
              Gathered(source, at, ext, recurse)[i] != Gathered(source, at, ext, recurse)[j]
  {
    WalkNoDuplicates(source, at, |source.entries|, ext, recurse);
  }

  // ---------------------------------------------------------------------------
  // The order of the events.

  /** The files of the `gather` events of `t`, in order. */
  function GatherEvents(t: seq<Event>): seq<FilePath>
    decreases |t|
  {
    if |t| == 0 then []
    else GatherEvents(t[..|t| - 1]) + (if t[|t| - 1].Found? then [t[|t| - 1].file] else [])
  }

  /** The directories of the `gatherdirectory` events of `t`, in order. */
  function DirectoryEvents(t: seq<Event>): seq<Path>
    decreases |t|
  {
    if |t| == 0 then []
    else DirectoryEvents(t[..|t| - 1]) + (if t[|t| - 1].GatherDirectory? then [t[|t| - 1].directory] else [])
  }

  lemma {:induction false} ProjectionsAppend(a: seq<Event>, b: seq<Event>)
    ensures GatherEvents(a + b) == GatherEvents(a) + GatherEvents(b)
    ensures DirectoryEvents(a + b) == DirectoryEvents(a) + DirectoryEvents(b)
    decreases |b|
  {
    if |b| == 0 {
      assert a + b == a;
    } else {
      assert (a + b)[..|a + b| - 1] == a + b[..|b| - 1];
      ProjectionsAppend(a, b[..|b| - 1]);
    }
  }

  /** Every file the walk appends is reported by exactly one `gather` event, in the same order. */
  lemma {:induction false} WalkReportsFiles(d: Dir, at: Path, n: nat, ext: seq<string>, recurse: bool)
    requires n <= |d.entries|
    ensures GatherEvents(WalkTrace(d, at, n, ext, recurse)) == Walk(d, at, n, ext, recurse)
    decreases d, n
  {
    if n == 0 {
      assert [GatherDirectory(at)][..0] == [];
    } else {
      var e := d.entries[n - 1];
      WalkReportsFiles(d, at, n - 1, ext, recurse);
      EntryReportsFiles(e, at, ext, recurse);
      ProjectionsAppend(WalkTrace(d, at, n - 1, ext, recurse), EntryTrace(e, at, ext, recurse));
    }
  }

  lemma {:induction false} EntryReportsFiles(e: Entry, at: Path, ext: seq<string>, recurse: bool)
    ensures GatherEvents(EntryTrace(e, at, ext, recurse)) == EntryFiles(e, at, ext, recurse)
    decreases e
  {
    match e
    case File(stem, suffix) =>
      if Matches(ext, suffix) {
        assert [Found(at, FilePath(at, stem, suffix))][..0] == [];
      }
    case Sub(c) =>
      if recurse {
        WalkReportsFiles(c, at + [c.name], |c.entries|, ext, recurse);
      }
    case Other(_) =>
  }

  /** A walk sends only `gatherdirectory` and `gather` events. */
  lemma {:induction false} WalkSendsWalkEvents(d: Dir, at: Path, n: nat, ext: seq<string>, recurse: bool)
    requires n <= |d.entries|
    ensures forall k :: 0 <= k < |WalkTrace(d, at, n, ext, recurse)| ==>
              WalkTrace(d, at, n, ext, recurse)[k].GatherDirectory? || WalkTrace(d, at, n, ext, recurse)[k].Found?
    decreases d, n
  {
    if n > 0 {
      WalkSendsWalkEvents(d, at, n - 1, ext, recurse);
      EntrySendsWalkEvents(d.entries[n - 1], at, ext, recurse);
    }
  }

  lemma {:induction false} EntrySendsWalkEvents(e: Entry, at: Path, ext: seq<string>, recurse: bool)
    ensures forall k :: 0 <= k < |EntryTrace(e, at, ext, recurse)| ==>
              EntryTrace(e, at, ext, recurse)[k].GatherDirectory? || EntryTrace(e, at, ext, recurse)[k].Found?
    decreases e
  {
    match e
    case File(_, _) =>
    case Sub(c) =>
      if recurse {
        WalkSendsWalkEvents(c, at + [c.name], |c.entries|, ext, recurse);
      }
    case Other(_) =>
  }

  /**
   * Every `gather` event names the directory holding its file, and comes after
   * the `gatherdirectory` event of that directory.
   */
  ghost predicate Announced(t: seq<Event>) {
    forall j :: 0 <= j < |t| && t[j].Found? ==>
      t[j].file.dir == t[j].directory && GatherDirectory(t[j].directory) in t[..j]
  }

  lemma {:induction false} WalkAnnounces(d: Dir, at: Path, n: nat, ext: seq<string>, recurse: bool)
    requires n <= |d.entries|
    ensures |WalkTrace(d, at, n, ext, recurse)| > 0
    ensures WalkTrace(d, at, n, ext, recurse)[0] == GatherDirectory(at)
    ensures Announced(WalkTrace(d, at, n, ext, recurse))
    decreases d, n
  {
    if n > 0 {
      var e := d.entries[n - 1];
      var t0 := WalkTrace(d, at, n - 1, ext, recurse);
      var u := EntryTrace(e, at, ext, recurse);
      WalkAnnounces(d, at, n - 1, ext, recurse);
      EntryAnnounces(e, at, ext, recurse);
      var t := t0 + u;
      forall j | 0 <= j < |t| && t[j].Found?
        ensures t[j].file.dir == t[j].directory && GatherDirectory(t[j].directory) in t[..j]
      {
        if j < |t0| {
          assert t[j] == t0[j] && t[..j] == t0[..j];
        } else {
          var j' := j - |t0|;
          assert t[j] == u[j'];
          assert t[..j] == t0 + u[..j'];
          if u[j'].directory == at {
            assert t[0] == GatherDirectory(at);
          }
        }
      }
    }
  }

  lemma {:induction false} EntryAnnounces(e: Entry, at: Path, ext: seq<string>, recurse: bool)
    ensures forall j :: 0 <= j < |EntryTrace(e, at, ext, recurse)| && EntryTrace(e, at, ext, recurse)[j].Found? ==>
              && EntryTrace(e, at, ext, recurse)[j].file.dir == EntryTrace(e, at, ext, recurse)[j].directory
              && (|| EntryTrace(e, at, ext, recurse)[j].directory == at
                  || GatherDirectory(EntryTrace(e, at, ext, recurse)[j].directory) in EntryTrace(e, at, ext, recurse)[..j])
    decreases e
  {
    match e
    case File(_, _) =>
    case Sub(c) =>
      if recurse {
        WalkAnnounces(c, at + [c.name], |c.entries|, ext, recurse);
      }
    case Other(_) =>
  }

  /** Without recursion, the source directory is the only directory visited. */
  lemma {:induction false} NonRecursiveVisitsSourceOnly(d: Dir, at: Path, n: nat, ext: seq<string>)
    requires n <= |d.entries|
    ensures DirectoryEvents(WalkTrace(d, at, n, ext, false)) == [at]
    decreases n
  {
    if n == 0 {
      assert [GatherDirectory(at)][..0] == [];
    } else {
      var e := d.entries[n - 1];
      NonRecursiveVisitsSourceOnly(d, at, n - 1, ext);
      ProjectionsAppend(WalkTrace(d, at, n - 1, ext, false), EntryTrace(e, at, ext, false));
      if e.File? && Matches(ext, e.suffix) {
        assert [Found(at, FilePath(at, e.stem, e.suffix))][..0] == [];
      }
    }
  }

  /**
   * The trace of `gather_files` opens with the source directory's
   * `gatherdirectory` event, and every `gather` event follows the
   * `gatherdirectory` event of its file's directory.
   */
  lemma GatherTraceAnnounces(source: Dir, at: Path, ext: seq<string>, recurse: bool)
    ensures GatherTrace(source, at, ext, recurse)[0] == GatherDirectory(at)
    ensures Announced(GatherTrace(source, at, ext, recurse))
  {
    var w := WalkTrace(source, at, |source.entries|, ext, recurse);
    var t := GatherTrace(source, at, ext, recurse);
    WalkAnnounces(source, at, |source.entries|, ext, recurse);
    forall j | 0 <= j < |t| && t[j].Found?
      ensures t[j].file.dir == t[j].directory && GatherDirectory(t[j].directory) in t[..j]
    {
      assert t[j] == w[j] && t[..j] == w[..j];
    }
  }

  /**
   * The `gather` events of the trace list exactly the returned files, in
   * order, and the trace closes with a single `end` event carrying that list.
   */
  lemma GatherTraceReportsResult(source: Dir, at: Path, ext: seq<string>, recurse: bool)
    ensures GatherEvents(GatherTrace(source, at, ext, recurse)) == Gathered(source, at, ext, recurse)
    ensures var t := GatherTrace(source, at, ext, recurse);
            && t[|t| - 1] == End(Files(Gathered(source, at, ext, recurse)))
            && forall k :: 0 <= k < |t| - 1 ==> !t[k].End?
  {
    var w := WalkTrace(source, at, |source.entries|, ext, recurse);
    var endEvent := End(Files(Gathered(source, at, ext, recurse)));
    WalkReportsFiles(source, at, |source.entries|, ext, recurse);
    WalkSendsWalkEvents(source, at, |source.entries|, ext, recurse);
    ProjectionsAppend(w, [endEvent]);
    assert [endEvent][..0] == [];
  }

  /** Without recursion, the trace of `gather_files` has one `gatherdirectory` event: the source's. */
  lemma NonRecursiveTrace(source: Dir, at: Path, ext: seq<string>)
    ensures DirectoryEvents(GatherTrace(source, at, ext, false)) == [at]
  {
    var w := WalkTrace(source, at, |source.entries|, ext, false);
    var endEvent := End(Files(Gathered(source, at, ext, false)));
    NonRecursiveVisitsSourceOnly(source, at, |source.entries|, ext);
    ProjectionsAppend(w, [endEvent]);
    assert [endEvent][..0] == [];
  }

  // ---------------------------------------------------------------------------
  // Which directories the walk announces, stated independently of the walk.

  /** `p` is `d`'s own location `at` or, when recursing, the location of a directory below it. */
  ghost predicate DirReach(d: Dir, at: Path, p: Path, recurse: bool)
    decreases d
  {
    || p == at
    || (recurse && exists i :: 0 <= i < |d.entries| && d.entries[i].Sub? &&
                              DirReach(d.entries[i].dir, at + [d.entries[i].dir.name], p, recurse))
  }

  lemma {:induction false} DirReachBelow(d: Dir, at: Path, p: Path, recurse: bool)
    requires DirReach(d, at, p, recurse)
    ensures |at| <= |p| && p[..|at|] == at
    decreases d
  {
    if p != at {
      var i :| 0 <= i < |d.entries| && d.entries[i].Sub? &&
               DirReach(d.entries[i].dir, at + [d.entries[i].dir.name], p, recurse);
      var c := d.entries[i].dir;
      DirReachBelow(c, at + [c.name], p, recurse);
      assert p[..|at|] == p[..|at| + 1][..|at|];
    }
  }

  /** A directory reached through the subdirectory `c` of the directory at `at` lies strictly below `at`, under `c`'s name. */
  lemma SubReachNamed(c: Dir, at: Path, p: Path, recurse: bool)
    ensures DirReach(c, at + [c.name], p, recurse) ==> |at| < |p| && p[|at|] == c.name
  {
    if DirReach(c, at + [c.name], p, recurse) {
      DirReachBelow(c, at + [c.name], p, recurse);
      assert p[|at|] == p[..|at| + 1][|at|];
    }
  }

  lemma {:induction false} WalkVisits(d: Dir, at: Path, n: nat, ext: seq<string>, recurse: bool, p: Path)
    requires n <= |d.entries|
    ensures p in DirectoryEvents(WalkTrace(d, at, n, ext, recurse)) <==>
              || p == at
              || (recurse && exists i :: 0 <= i < n && d.entries[i].Sub? &&
                                        DirReach(d.entries[i].dir, at + [d.entries[i].dir.name], p, recurse))
    decreases d, n
  {
    if n == 0 {
      assert [GatherDirectory(at)][..0] == [];
    } else {
      var e := d.entries[n - 1];
      WalkVisits(d, at, n - 1, ext, recurse, p);
      EntryVisits(e, at, ext, recurse, p);
      ProjectionsAppend(WalkTrace(d, at, n - 1, ext, recurse), EntryTrace(e, at, ext, recurse));
    }
  }

  lemma {:induction false} EntryVisits(e: Entry, at: Path, ext: seq<string>, recurse: bool, p: Path)
    ensures p in DirectoryEvents(EntryTrace(e, at, ext, recurse)) <==>
              e.Sub? && recurse && DirReach(e.dir, at + [e.dir.name], p, recurse)
    decreases e
  {
    match e
    case File(stem, suffix) =>
      if Matches(ext, suffix) {
        assert [Found(at, FilePath(at, stem, suffix))][..0] == [];
      }
    case Sub(c) =>
      if recurse {
        WalkVisits(c, at + [c.name], |c.entries|, ext, recurse, p);
      }
    case Other(_) =>
  }

  lemma {:induction false} WalkVisitsOnce(d: Dir, at: Path, n: nat, ext: seq<string>, recurse: bool)
    requires n <= |d.entries| && UniqueNames(d)
    ensures NoDuplicates(DirectoryEvents(WalkTrace(d, at, n, ext, recurse)))
    decreases d, n
  {
    if n == 0 {
      assert [GatherDirectory(at)][..0] == [];
    } else {
      var e := d.entries[n - 1];
      var earlier := DirectoryEvents(WalkTrace(d, at, n - 1, ext, recurse));
      var later := DirectoryEvents(EntryTrace(e, at, ext, recurse));
      WalkVisitsOnce(d, at, n - 1, ext, recurse);
      EntryVisitsOnce(e, at, ext, recurse);
      forall p | p in earlier ensures p !in later {
        WalkVisits(d, at, n - 1, ext, recurse, p);
        EntryVisits(e, at, ext, recurse, p);
        forall i | 0 <= i < n && d.entries[i].Sub?
          ensures DirReach(d.entries[i].dir, at + [d.entries[i].dir.name], p, recurse) ==>
                    |at| < |p| && p[|at|] == d.entries[i].dir.name
        {
          SubReachNamed(d.entries[i].dir, at, p, recurse);
        }
      }
      ProjectionsAppend(WalkTrace(d, at, n - 1, ext, recurse), EntryTrace(e, at, ext, recurse));
      DistinctConcat(earlier, later);
    }
  }

  lemma {:induction false} EntryVisitsOnce(e: Entry, at: Path, ext: seq<string>, recurse: bool)
    requires e.Sub? ==> UniqueNames(e.dir)
    ensures NoDuplicates(DirectoryEvents(EntryTrace(e, at, ext, recurse)))
    decreases e
  {
    match e
    case File(stem, suffix) =>
      if Matches(ext, suffix) {
        assert [Found(at, FilePath(at, stem, suffix))][..0] == [];
      }
    case Sub(c) =>
      if recurse {
        WalkVisitsOnce(c, at + [c.name], |c.entries|, ext, recurse);
      }
    case Other(_) =>
  }

  /**
   * `gather_files` sends a `gatherdirectory` event for a path exactly when it
   * is the source directory or, when recursing, a directory below it.
   */
  lemma GatherVisitsReachable(source: Dir, at: Path, ext: seq<string>, recurse: bool, p: Path)
    ensures p in DirectoryEvents(GatherTrace(source, at, ext, recurse)) <==> DirReach(source, at, p, recurse)
  {
    var w := WalkTrace(source, at, |source.entries|, ext, recurse);
    var endEvent := End(Files(Gathered(source, at, ext, recurse)));
    WalkVisits(source, at, |source.entries|, ext, recurse, p);
    ProjectionsAppend(w, [endEvent]);
    assert [endEvent][..0] == [];
  }

  /** In a tree whose directories list each name once, no directory is announced twice. */
  lemma GatherVisitsOnce(source: Dir, at: Path, ext: seq<string>, recurse: bool)
    requires UniqueNames(source)
    ensures forall i, j :: 0 <= i < j < |DirectoryEvents(GatherTrace(source, at, ext, recurse))| ==>
              DirectoryEvents(GatherTrace(source, at, ext, recurse))[i] != DirectoryEvents(GatherTrace(source, at, ext, recurse))[j]
  {
    var w := WalkTrace(source, at, |source.entries|, ext, recurse);
    var endEvent := End(Files(Gathered(source, at, ext, recurse)));
    WalkVisitsOnce(source, at, |source.entries|, ext, recurse);
    ProjectionsAppend(w, [endEvent]);
    assert [endEvent][..0] == [];
  }

  // ---------------------------------------------------------------------------
  // The imperative walk.

  /**
   * The environment of the nested `parse_dir`: the filter, the recurse flag,
   * the pipe, and the list `files` that every call appends to.
   */
  class Gatherer {
    const ext: seq<string>
    const recurse: bool
    const pipe: World
    var files: seq<FilePath>

    constructor (ext: seq<string>, recurse: bool, pipe: World)
      ensures this.ext == ext && this.recurse == recurse && this.pipe == pipe && files == []
    {
      this.ext := ext;
      this.recurse := recurse;
      this.pipe := pipe;
      files := [];
    }

    /** `parse_dir(dir)` for the directory `d` located at `at`. */
    method ParseDir(d: Dir, at: Path)
      modifies this, pipe
      ensures files == old(files) + Walk(d, at, |d.entries|, ext, recurse)
      ensures pipe.log == old(pipe.log) + Emits(WalkTrace(d, at, |d.entries|, ext, recurse))
      decreases d
    {
      pipe.Emit(GatherDirectory(at));
      for i := 0 to |d.entries|
        invariant files == old(files) + Walk(d, at, i, ext, recurse)
        invariant pipe.log == old(pipe.log) + Emits(WalkTrace(d, at, i, ext, recurse))
      {
        var entry := d.entries[i];
        VisitEntry(entry, at);
        assert Walk(d, at, i + 1, ext, recurse) == Walk(d, at, i, ext, recurse) + EntryFiles(entry, at, ext, recurse);
        EmitsAppend(WalkTrace(d, at, i, ext, recurse), EntryTrace(entry, at, ext, recurse));
        assert WalkTrace(d, at, i + 1, ext, recurse) == WalkTrace(d, at, i, ext, recurse) + EntryTrace(entry, at, ext, recurse);
      }
    }

    /** One pass of the loop in `parse_dir`, for the entry `entry` of the directory located at `at`. */
    method VisitEntry(entry: Entry, at: Path)
      modifies this, pipe
      ensures files == old(files) + EntryFiles(entry, at, ext, recurse)
      ensures pipe.log == old(pipe.log) + Emits(EntryTrace(entry, at, ext, recurse))
      decreases entry
    {
      if !entry.File? {
        if entry.Sub? && recurse {
          ParseDir(entry.dir, at + [entry.dir.name]);
        }
      } else if Matches(ext, entry.suffix) {
        var file := FilePath(at, entry.stem, entry.suffix);
        pipe.Emit(Found(at, file));
        files := files + [file];
      }
    }
  }

  /** `gather_files(source, ext, recurse, pipe)` for the source directory `source` located at `at`. */
  method GatherFiles(source: Dir, at: Path, ext: seq<string>, recurse: bool, pipe: World)
    returns (files: seq<FilePath>)
    modifies pipe
    ensures files == Gathered(source, at, ext, recurse)
    ensures pipe.log == old(pipe.log) + Emits(GatherTrace(source, at, ext, recurse))
  {
    var walker := new Gatherer(ext, recurse, pipe);
    walker.ParseDir(source, at);
    ghost var trace := WalkTrace(source, at, |source.entries|, ext, recurse);
    pipe.Emit(End(Files(walker.files)));
    EmitsAppend(trace, [End(Files(walker.files))]);
    files := walker.files;
  }
}
