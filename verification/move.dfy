/**
 * The move stage: shuffle the gathered list in place, then copy each file,
 * in the new order, into the target directory under the name
 * "<position> - <stem><suffix>", announcing every copy with a `move` event
 * before making it. A failed copy sends an `error` event and is re-raised;
 * copies already made stay.
 */
module Move {

  import opened Wrappers
  import opened Decimal
  import opened Effects

  /** `(target / file.with_stem(f"{i} - {file.stem}").name)`: the copy of the file at position `i`. */
  function NewPath(target: Path, i: nat, f: FilePath): (p: FilePath)
    ensures p.dir == target && p.suffix == f.suffix
    ensures |p.stem| > |f.stem| + 3
  {
    FilePath(target, DecimalString(i) + " - " + f.stem, f.suffix)
  }

  /**
   * The copy lies directly in the target directory, keeps the suffix, and is
   * named by the position's decimal form, then " - ", then the original name.
   */
  lemma NewPathShape(target: Path, i: nat, f: FilePath)
    ensures NewPath(target, i, f).dir == target && NewPath(target, i, f).suffix == f.suffix
    ensures NameOf(NewPath(target, i, f)) == DecimalString(i) + " - " + NameOf(f)
    ensures |NameOf(NewPath(target, i, f))| > |NameOf(f)| + 3
  {
  }

  /**
   * Copies made for different positions never share a name, whatever the
   * original names were: the leading digits give the position back.
   */
  lemma NewNamesDistinct(target: Path, i: nat, j: nat, f: FilePath, g: FilePath)
    requires i != j
    ensures NameOf(NewPath(target, i, f)) != NameOf(NewPath(target, j, g))
    ensures NewPath(target, i, f) != NewPath(target, j, g)
  {
    var x, y := " - " + NameOf(f), " - " + NameOf(g);
    NewPathShape(target, i, f);
    NewPathShape(target, j, g);
    assert NameOf(NewPath(target, i, f)) == DecimalString(i) + x;
    assert NameOf(NewPath(target, j, g)) == DecimalString(j) + y;
    if DecimalString(i) + x == DecimalString(j) + y {
      PrefixedByDecimalInjective(i, j, x, y);
    }
  }

  /** The `output` list after the first `k` iterations of the copy loop over `files`. */
  function Pairs(files: seq<FilePath>, target: Path, k: nat): seq<Pair>
    requires k <= |files|
  {
    if k == 0 then [] else Pairs(files, target, k - 1) + [Pair(files[k - 1], NewPath(target, k - 1, files[k - 1]))]
  }

  /** Pair `i` of the output matches file `i` with its copy. */
  lemma {:induction false} PairsAt(files: seq<FilePath>, target: Path, k: nat)
    requires k <= |files|
    ensures |Pairs(files, target, k)| == k
    ensures forall i :: 0 <= i < k ==> Pairs(files, target, k)[i] == Pair(files[i], NewPath(target, i, files[i]))
  {
    if k > 0 {
      PairsAt(files, target, k - 1);
    }
  }

  /** The `move` event of iteration `i`. */
  function MoveEvent(files: seq<FilePath>, source: Path, target: Path, i: nat): Event
    requires i < |files|
  {
    Moving(files[i], NewPath(target, i, files[i]), source, target, |files| - i - 1, |files|)
  }

  /** What the first `k` iterations do when none of their copies fails. */
  function Steps(files: seq<FilePath>, source: Path, target: Path, k: nat): seq<Action>
    requires k <= |files|
  {
    if k == 0 then []
    else Steps(files, source, target, k - 1)
         + [Sent(MoveEvent(files, source, target, k - 1)), Copied(files[k - 1], NewPath(target, k - 1, files[k - 1]))]
  }

  /** The position of the first copy that fails, or `|files|` when none does. */
  function FirstFailure(files: seq<FilePath>, target: Path, copyFails: (FilePath, FilePath) -> bool, from: nat): (k: nat)
    requires from <= |files|
    ensures from <= k <= |files|
    ensures forall i :: from <= i < k ==> !copyFails(files[i], NewPath(target, i, files[i]))
    ensures k < |files| ==> copyFails(files[k], NewPath(target, k, files[k]))
    decreases |files| - from
  {
    if from == |files| || copyFails(files[from], NewPath(target, from, files[from])) then from
    else FirstFailure(files, target, copyFails, from + 1)
  }

  /** How `move_files` ends: it returns a value (`None` for an empty list) or raises. */
  datatype Outcome = Returned(output: Option<seq<Pair>>) | Raised(error: CopyError)

  /** Everything a call observably does, and how it ends. */
  datatype Run = Run(log: seq<Action>, outcome: Outcome)

  /** `move_files` on the list `files` as it stands after the shuffle. */
  function MoveRun(files: seq<FilePath>, source: Path, target: Path, copyFails: (FilePath, FilePath) -> bool): (r: Run)
    ensures r.outcome.Raised? <==> exists i :: 0 <= i < |files| && copyFails(files[i], NewPath(target, i, files[i]))
    ensures |r.log| > 0
    ensures r.outcome.Raised? ==> r.log[|r.log| - 1] == Sent(Error(r.outcome.error))
    ensures r.outcome.Returned? ==>
              r.log[|r.log| - 1] == Sent(End(if r.outcome.output.Some? then Moved(r.outcome.output.value) else NoResult))
  {
    if |files| == 0 then Run([Sent(End(NoResult))], Returned(None))
    else
      var k := FirstFailure(files, target, copyFails, 0);
      if k == |files| then
        var output := Pairs(files, target, |files|);
        Run(Steps(files, source, target, |files|) + [Sent(End(Moved(output)))], Returned(Some(output)))
      else
        var err := CopyError(files[k], NewPath(target, k, files[k]));
        Run(Steps(files, source, target, k) + [Sent(MoveEvent(files, source, target, k)), Sent(Error(err))], Raised(err))
  }

  // ---------------------------------------------------------------------------
  // Reading a log.

  /** The copies made in `log`, in order. */
  function Copies(log: seq<Action>): seq<Pair>
    decreases |log|
  {
    if |log| == 0 then []
    else Copies(log[..|log| - 1]) + (if log[|log| - 1].Copied? then [Pair(log[|log| - 1].src, log[|log| - 1].dst)] else [])
  }

  predicate IsEnd(a: Action) {
    a.Sent? && a.event.End?
  }

  lemma CopiesSingle(a: Action)
    ensures Copies([a]) == if a.Copied? then [Pair(a.src, a.dst)] else []
  {
    assert [a][..0] == [];
  }

  lemma {:induction false} CopiesAppend(a: seq<Action>, b: seq<Action>)
    ensures Copies(a + b) == Copies(a) + Copies(b)
    decreases |b|
  {
    if |b| == 0 {
      assert a + b == a;
    } else {
      assert (a + b)[..|a + b| - 1] == a + b[..|b| - 1];
      CopiesAppend(a, b[..|b| - 1]);
    }
  }

  /**
   * Iteration `j` of the loop sends its `move` event, with `remaining` counting
   * down from `total - 1`, immediately before making its copy; nothing else
   * happens in between.
   */
  lemma {:induction false} StepsLayout(files: seq<FilePath>, source: Path, target: Path, k: nat)
    requires k <= |files|
    ensures |Steps(files, source, target, k)| == 2 * k
    ensures forall j :: 0 <= j < k ==>
              && Steps(files, source, target, k)[2 * j]
                 == Sent(Moving(files[j], NewPath(target, j, files[j]), source, target, |files| - j - 1, |files|))
              && Steps(files, source, target, k)[2 * j + 1] == Copied(files[j], NewPath(target, j, files[j]))
  {
    if k > 0 {
      StepsLayout(files, source, target, k - 1);
    }
  }

  /** The loop sends no `end` event. */
  lemma {:induction false} StepsSendNoEnd(files: seq<FilePath>, source: Path, target: Path, k: nat)
    requires k <= |files|
    ensures forall m :: 0 <= m < |Steps(files, source, target, k)| ==> !IsEnd(Steps(files, source, target, k)[m])
  {
    if k > 0 {
      StepsSendNoEnd(files, source, target, k - 1);
    }
  }

  lemma CopiesOfIteration(files: seq<FilePath>, source: Path, target: Path, k: nat)
    requires k < |files|
    ensures Copies([Sent(MoveEvent(files, source, target, k)), Copied(files[k], NewPath(target, k, files[k]))])
            == [Pair(files[k], NewPath(target, k, files[k]))]
  {
    var a, b := Sent(MoveEvent(files, source, target, k)), Copied(files[k], NewPath(target, k, files[k]));
    CopiesAppend([a], [b]);
    CopiesSingle(a);
    CopiesSingle(b);
    assert [a, b] == [a] + [b];
  }

  /** The copies the loop makes are exactly the `output` pairs it builds. */
  lemma {:induction false} StepsCopies(files: seq<FilePath>, source: Path, target: Path, k: nat)
    requires k <= |files|
    ensures Copies(Steps(files, source, target, k)) == Pairs(files, target, k)
  {
    if k > 0 {
      var prev := Steps(files, source, target, k - 1);
      var iteration := [Sent(MoveEvent(files, source, target, k - 1)), Copied(files[k - 1], NewPath(target, k - 1, files[k - 1]))];
      assert Steps(files, source, target, k) == prev + iteration;
      StepsCopies(files, source, target, k - 1);
      CopiesAppend(prev, iteration);
      CopiesOfIteration(files, source, target, k - 1);
    }
  }

  // ---------------------------------------------------------------------------
  // The three ways a call ends.

  /** An empty list: a single `end` event with no result, no copies, and `None` returned. */
  lemma MoveEmpty(source: Path, target: Path, copyFails: (FilePath, FilePath) -> bool)
    ensures MoveRun([], source, target, copyFails).outcome == Returned(None)
    ensures MoveRun([], source, target, copyFails).log == [Sent(End(NoResult))]
    ensures Copies(MoveRun([], source, target, copyFails).log) == []
  {
    assert [Sent(End(NoResult))][..0] == [];
  }

  /**
   * When every copy succeeds: each file is copied once, in list order, to its
   * positional name, each copy preceded by its `move` event; the names are
   * pairwise distinct; the returned output pairs the i-th file with its copy;
   * and one final `end` event carries that output.
   */
  lemma MoveSucceeds(files: seq<FilePath>, source: Path, target: Path, copyFails: (FilePath, FilePath) -> bool)
    requires |files| > 0
    requires forall i :: 0 <= i < |files| ==> !copyFails(files[i], NewPath(target, i, files[i]))
    ensures var run := MoveRun(files, source, target, copyFails);
            && run.outcome.Returned? && run.outcome.output.Some?
            && var output := run.outcome.output.value;
            && |output| == |files|
            && (forall i :: 0 <= i < |files| ==> output[i] == Pair(files[i], NewPath(target, i, files[i])))
            && (forall i, j :: 0 <= i < j < |files| ==> NameOf(output[i].newpath) != NameOf(output[j].newpath))
            && Copies(run.log) == output
            && |run.log| == 2 * |files| + 1
            && (forall j :: 0 <= j < |files| ==>
                  && run.log[2 * j] == Sent(Moving(files[j], NewPath(target, j, files[j]), source, target, |files| - j - 1, |files|))
                  && run.log[2 * j + 1] == Copied(files[j], NewPath(target, j, files[j])))
            && run.log[|run.log| - 1] == Sent(End(Moved(output)))
            && (forall m :: 0 <= m < |run.log| - 1 ==> !IsEnd(run.log[m]))
  {
    var n := |files|;
    var output := Pairs(files, target, n);
    var tail := [Sent(End(Moved(output)))];
    assert FirstFailure(files, target, copyFails, 0) == n;
    StepsLayout(files, source, target, n);
    PairsAt(files, target, n);
    StepsSendNoEnd(files, source, target, n);
    StepsCopies(files, source, target, n);
    CopiesAppend(Steps(files, source, target, n), tail);
    assert tail[..0] == [];
    forall i, j | 0 <= i < j < n
      ensures NameOf(output[i].newpath) != NameOf(output[j].newpath)
    {
      NewNamesDistinct(target, i, j, files[i], files[j]);
    }
  }

  /**
   * When the copy at position `k` is the first to fail: the iterations before
   * it run as usual and their copies stay (nothing is undone); its `move`
   * event is sent, then an `error` event with the failure, and the failure is
   * raised. No `end` event is sent.
   */
  lemma MoveFails(files: seq<FilePath>, source: Path, target: Path, copyFails: (FilePath, FilePath) -> bool, k: nat)
    requires k < |files|
    requires forall i :: 0 <= i < k ==> !copyFails(files[i], NewPath(target, i, files[i]))
    requires copyFails(files[k], NewPath(target, k, files[k]))
    ensures var run := MoveRun(files, source, target, copyFails);
            var err := CopyError(files[k], NewPath(target, k, files[k]));
            && run.outcome == Raised(err)
            && Copies(run.log) == Pairs(files, target, k)
            && |run.log| == 2 * k + 2
            && (forall j :: 0 <= j < k ==>
                  && run.log[2 * j] == Sent(Moving(files[j], NewPath(target, j, files[j]), source, target, |files| - j - 1, |files|))
                  && run.log[2 * j + 1] == Copied(files[j], NewPath(target, j, files[j])))
            && run.log[2 * k] == Sent(Moving(files[k], NewPath(target, k, files[k]), source, target, |files| - k - 1, |files|))
            && run.log[2 * k + 1] == Sent(Error(err))
            && (forall m :: 0 <= m < |run.log| ==> !IsEnd(run.log[m]))
  {
    var err := CopyError(files[k], NewPath(target, k, files[k]));
    var tail := [Sent(MoveEvent(files, source, target, k)), Sent(Error(err))];
    assert FirstFailure(files, target, copyFails, 0) == k;
    StepsLayout(files, source, target, k);
    StepsSendNoEnd(files, source, target, k);
    StepsCopies(files, source, target, k);
    CopiesAppend(Steps(files, source, target, k), tail);
    CopiesAppend([tail[0]], [tail[1]]);
    CopiesSingle(tail[0]);
    CopiesSingle(tail[1]);
    assert tail == [tail[0]] + [tail[1]];
  }

  /** The files of an output list, in order. */
  function Sources(output: seq<Pair>): seq<FilePath> {
    seq(|output|, i requires 0 <= i < |output| => output[i].file)
  }

  /**
   * A successful move of any permutation of the gathered list copies every
   * gathered file exactly once: the copied files form the same multiset.
   */
  lemma EveryFileCopiedOnce(gathered: seq<FilePath>, shuffled: seq<FilePath>, source: Path, target: Path,
                            copyFails: (FilePath, FilePath) -> bool)
    requires multiset(shuffled) == multiset(gathered)
    requires forall i :: 0 <= i < |shuffled| ==> !copyFails(shuffled[i], NewPath(target, i, shuffled[i]))
    ensures multiset(Sources(Copies(MoveRun(shuffled, source, target, copyFails).log))) == multiset(gathered)
  {
    if |shuffled| == 0 {
      MoveEmpty(source, target, copyFails);
      assert Sources([]) == [];
    } else {
      MoveSucceeds(shuffled, source, target, copyFails);
      assert Sources(Copies(MoveRun(shuffled, source, target, copyFails).log)) == shuffled;
    }
  }

  // ---------------------------------------------------------------------------
  // The imperative stage.

  lemma RunAfterFailure(files: seq<FilePath>, source: Path, target: Path, copyFails: (FilePath, FilePath) -> bool, i: nat)
    requires i < |files|
    requires forall j :: 0 <= j < i ==> !copyFails(files[j], NewPath(target, j, files[j]))
    requires copyFails(files[i], NewPath(target, i, files[i]))
    ensures var err := CopyError(files[i], NewPath(target, i, files[i]));
            MoveRun(files, source, target, copyFails)
            == Run(Steps(files, source, target, i) + [Sent(MoveEvent(files, source, target, i)), Sent(Error(err))], Raised(err))
  {
    assert FirstFailure(files, target, copyFails, 0) == i;
  }

  lemma RunAfterSuccess(files: seq<FilePath>, source: Path, target: Path, copyFails: (FilePath, FilePath) -> bool)
    requires |files| > 0
    requires forall j :: 0 <= j < |files| ==> !copyFails(files[j], NewPath(target, j, files[j]))
    ensures var output := Pairs(files, target, |files|);
            MoveRun(files, source, target, copyFails)
            == Run(Steps(files, source, target, |files|) + [Sent(End(Moved(output)))], Returned(Some(output)))
  {
    assert FirstFailure(files, target, copyFails, 0) == |files|;
  }

  /** `random.shuffle(a)`: CPython's Fisher-Yates loop, each random index left to choice. */
  method Shuffle(a: array<FilePath>)
    modifies a
    ensures multiset(a[..]) == multiset(old(a[..]))
  {
    var i := a.Length - 1;
    while i > 0
      invariant i < a.Length
      invariant multiset(a[..]) == multiset(old(a[..]))
    {
      var j :| 0 <= j <= i;
      a[i], a[j] := a[j], a[i];
      i := i - 1;
    }
  }

  /**
   * One iteration of the copy loop for `file` at position `i` of `total`: build
   * the new path, send the `move` event, then attempt the copy.
   */
  method MoveOne(file: FilePath, i: nat, total: nat, source: Path, target: Path, world: World)
    returns (newpath: FilePath, err: Option<CopyError>)
    modifies world
    ensures newpath == NewPath(target, i, file)
    ensures err == if world.copyFails(file, newpath) then Some(CopyError(file, newpath)) else None
    ensures world.log == old(world.log) + [Sent(Moving(file, newpath, source, target, total - i - 1, total))]
                         + (if err.None? then [Copied(file, newpath)] else [])
  {
    newpath := NewPath(target, i, file);
    world.Emit(Moving(file, newpath, source, target, total - i - 1, total));
    err := world.Copy2(file, newpath);
  }

  /**
   * The `for i, file in enumerate(files)` loop of `move_files`, with the
   * `end` event after it: what it does is `MoveRun` of the list as it stands.
   */
  method CopyInOrder(files: seq<FilePath>, source: Path, target: Path, world: World) returns (outcome: Outcome)
    requires |files| > 0
    modifies world
    ensures outcome == MoveRun(files, source, target, world.copyFails).outcome
    ensures world.log == old(world.log) + MoveRun(files, source, target, world.copyFails).log
  {
    ghost var log0 := world.log;
    var output: seq<Pair> := [];
    var total := |files|;
    var i := 0;
    while i < total
      invariant 0 <= i <= total
      invariant output == Pairs(files, target, i)
      invariant world.log == log0 + Steps(files, source, target, i)
      invariant forall j :: 0 <= j < i ==> !world.copyFails(files[j], NewPath(target, j, files[j]))
    {
      ghost var before := world.log;
      var newpath, err := MoveOne(files[i], i, total, source, target, world);
      ghost var moving := Sent(MoveEvent(files, source, target, i));
      assert moving == Sent(Moving(files[i], newpath, source, target, total - i - 1, total));
      if err.Some? {
        assert world.log == before + [moving];
        world.Emit(Error(err.value));
        RunAfterFailure(files, source, target, world.copyFails, i);
        ghost var tail := [moving, Sent(Error(err.value))];
        assert world.log == before + tail;
        assert world.log == log0 + (Steps(files, source, target, i) + tail);
        return Raised(err.value);
      }
      output := output + [Pair(files[i], newpath)];
      i := i + 1;
    }
    world.Emit(End(Moved(output)));
    RunAfterSuccess(files, source, target, world.copyFails);
    return Returned(Some(output));
  }

  /**
   * `move_files(files, source, target, pipe)`: the list is permuted in place
   * (left alone when empty), and what the call then does is `MoveRun` of the
   * permuted list.
   */
  method MoveFiles(files: array<FilePath>, source: Path, target: Path, world: World) returns (outcome: Outcome)
    modifies files, world
    ensures multiset(files[..]) == multiset(old(files[..]))
    ensures outcome == MoveRun(files[..], source, target, world.copyFails).outcome
    ensures world.log == old(world.log) + MoveRun(files[..], source, target, world.copyFails).log
  {
    if files.Length == 0 {
      world.Emit(End(NoResult));
      return Returned(None);
    }
    Shuffle(files);
    outcome := CopyInOrder(files[..], source, target, world);
  }
}
