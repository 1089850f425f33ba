/**
 * What the two stages report and what they do outside their own variables.
 *
 * The script reports progress through a `pipe` callback that receives one
 * event at a time, and its move stage copies files with `shutil.copy2`. Both
 * are modelled by one object, `World`, that keeps a ghost log of every event
 * sent and every copy made, in the order they happened.
 */
module Effects {

  import opened Wrappers

  /** A resolved directory, as the sequence of its path components. */
  type Path = seq<string>

  /** A regular file: the directory holding it, and its name split into stem and suffix. */
  datatype FilePath = FilePath(dir: Path, stem: string, suffix: string)

  /** The name of a file inside its directory. */
  function NameOf(f: FilePath): string {
    f.stem + f.suffix
  }

  /** One entry of the move stage's output: the original file and its copy. */
  datatype Pair = Pair(file: FilePath, newpath: FilePath)

  /** The failure `copy2` raises when it cannot copy `src` to `dst`. */
  datatype CopyError = CopyError(src: FilePath, dst: FilePath)

  /** The `result` carried by an `end` event. */
  datatype Payload =
    | Files(files: seq<FilePath>)   // end of the gather stage
    | Moved(pairs: seq<Pair>)       // end of a move stage that copied something
    | NoResult                      // end of a move stage given no files

  /**
   * The events sent to the pipe; each constructor is one value of the `type`
   * field: `gatherdirectory`, `gather`, `move`, `end` and `error`.
   */
  datatype Event =
    | GatherDirectory(directory: Path)
    | Found(directory: Path, file: FilePath)
    | Moving(file: FilePath, newpath: FilePath, source: Path, target: Path, remaining: int, total: nat)
    | End(result: Payload)
    | Error(error: CopyError)

  /** One observable step: an event sent to the pipe, or a completed copy. */
  datatype Action = Sent(event: Event) | Copied(src: FilePath, dst: FilePath)

  /** The actions that sending `events` in order produces. */
  function Emits(events: seq<Event>): seq<Action> {
    seq(|events|, k requires 0 <= k < |events| => Sent(events[k]))
  }

  lemma EmitsAppend(a: seq<Event>, b: seq<Event>)
    ensures Emits(a + b) == Emits(a) + Emits(b)
  {
  }

  /**
   * The pipe callback and the file system together. Whether copying a given
   * file to a given destination fails is fixed by `copyFails`; `log` records
   * what has been observed so far.
   */
  class World {
    const copyFails: (FilePath, FilePath) -> bool
    ghost var log: seq<Action>

    constructor (copyFails: (FilePath, FilePath) -> bool)
      ensures this.copyFails == copyFails && log == []
    {
      this.copyFails := copyFails;
      log := [];
    }

    /** `pipe(event)` */
    method Emit(e: Event)
      modifies this
      ensures log == old(log) + [Sent(e)]
    {
      log := log + [Sent(e)];
    }

    /** `shutil.copy2(src, dst)`: either copies, or raises and copies nothing. */
    method Copy2(src: FilePath, dst: FilePath) returns (err: Option<CopyError>)
      modifies this
      ensures err == if copyFails(src, dst) then Some(CopyError(src, dst)) else None
      ensures log == if err.None? then old(log) + [Copied(src, dst)] else old(log)
    {
      if copyFails(src, dst) {
        err := Some(CopyError(src, dst));
      } else {
        log := log + [Copied(src, dst)];
        err := None;
      }
    }
  }
}
