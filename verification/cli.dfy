/**
 * The part of the command-line front end that shapes the extension filter:
 * every extension given with `--source-ext` gets a leading `.` if it lacks one.
 */
module Cli {

  import opened Wrappers

  predicate StartsWithDot(x: string) {
    |x| > 0 && x[0] == '.'
  }

  /**
   * One extension as the loop leaves it: it starts with `.`, is unchanged when
   * it already did, and otherwise is the raw text behind one added `.`.
   */
  function Dotted(x: string): (r: string)
    ensures StartsWithDot(r)
    ensures StartsWithDot(x) ==> r == x
    ensures !StartsWithDot(x) ==> |r| == |x| + 1 && r[1..] == x
  {
    if StartsWithDot(x) then x else "." + x
  }

  /** The list the loop builds from the raw `source_ext` argument (`None` when the option is absent). */
  function Normalised(rawext: Option<seq<string>>): (ext: seq<string>)
    ensures |ext| == if rawext.None? then 0 else |rawext.value|
    ensures forall i :: 0 <= i < |ext| ==> StartsWithDot(ext[i])
    ensures forall i :: 0 <= i < |ext| && StartsWithDot(rawext.value[i]) ==> ext[i] == rawext.value[i]
  {
    match rawext
    case None => []
    case Some(raw) => seq(|raw|, i requires 0 <= i < |raw| => Dotted(raw[i]))
  }

  /** The loop at the start of `cli` that builds `ext`. */
  method NormaliseExtensions(rawext: Option<seq<string>>) returns (ext: seq<string>)
    ensures rawext.None? ==> ext == []
    ensures rawext.Some? ==> |ext| == |rawext.value|
    ensures rawext.Some? ==> forall i :: 0 <= i < |ext| ==> ext[i] == Dotted(rawext.value[i])
    ensures ext == Normalised(rawext)
  {
    ext := [];
    if rawext.Some? {
      for k := 0 to |rawext.value|
        invariant |ext| == k
        invariant forall i :: 0 <= i < k ==> ext[i] == Dotted(rawext.value[i])
      {
        var x := rawext.value[k];
        if !StartsWithDot(x) {
          x := "." + x;
        }
        ext := ext + [x];
      }
    }
  }

  /**
   * Normalising keeps the length and order of the raw list, every element
   * starts with `.`, and a normalised list is left as it is by a second pass.
   */
  lemma NormalisedProperties(raw: seq<string>)
    ensures |Normalised(Some(raw))| == |raw|
    ensures forall i :: 0 <= i < |raw| ==> StartsWithDot(Normalised(Some(raw))[i])
    ensures forall i :: 0 <= i < |raw| && StartsWithDot(raw[i]) ==> Normalised(Some(raw))[i] == raw[i]
    ensures Normalised(Some(Normalised(Some(raw)))) == Normalised(Some(raw))
  {
  }
}
