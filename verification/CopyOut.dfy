/** Sorting the matches in place and copying the matching elements out (src/util/helpers.h). */
module CopyOut {
  import opened Bytes
  import opened Permutations
  import opened Intersection

  /** std::sort(matches, matches + n). */
  method SortPrefix(matches: array<nat>, n: nat)
    requires n <= matches.Length
    modifies matches
    ensures matches[..n] == Sorted(old(matches[..n])) && matches[n..] == old(matches[n..])
  {
    var t := Sorted(matches[..n]);
    var i := 0;
    while i < n
      invariant i <= n
      invariant forall k :: 0 <= k < i ==> matches[k] == t[k]
      invariant forall k :: n <= k < matches.Length ==> matches[k] == old(matches[k])
    {
      matches[i] := t[i];
      i := i + 1;
    }
  }

  /** Element i: the first lens[i] octets of its buffer. */
  function Element(lens: seq<nat>, inputs: seq<seq<byte>>, i: nat): seq<byte>
    requires i < |inputs| == |lens| && lens[i] <= |inputs[i]|
  {
    inputs[i][..lens[i]]
  }

  function ElementsOf(lens: seq<nat>, inputs: seq<seq<byte>>): (r: seq<seq<byte>>)
    requires |inputs| == |lens| && forall i :: 0 <= i < |lens| ==> lens[i] <= |inputs[i]|
    ensures |r| == |inputs| && forall i :: 0 <= i < |r| ==> r[i] == Element(lens, inputs, i)
    ensures forall i :: 0 <= i < |r| ==> r[i] <= inputs[i] && |r[i]| == lens[i]
  {
    seq(|inputs|, (i: int) requires 0 <= i < |inputs| => Element(lens, inputs, i))
  }

  method CopyElements(inbytelens: seq<nat>, inputs: seq<seq<byte>>, at: seq<nat>)
      returns (result: array<seq<byte>>, resbytelens: array<nat>)
    requires |inputs| == |inbytelens| && forall i :: 0 <= i < |inbytelens| ==> inbytelens[i] <= |inputs[i]|
    requires Below(at, |inputs|)
    ensures fresh(result) && fresh(resbytelens)
    ensures result[..] == Pick(ElementsOf(inbytelens, inputs), at)
    ensures resbytelens[..] == Pick(inbytelens, at)
  {
    result := new seq<byte>[|at|](_ => []);
    resbytelens := new nat[|at|](_ => 0);
    var i := 0;
    while i < |at|
      invariant i <= |at|
      invariant forall k :: 0 <= k < i ==> resbytelens[k] == inbytelens[at[k]]
      invariant forall k :: 0 <= k < i ==> result[k] == Element(inbytelens, inputs, at[k])
    {
      resbytelens[i] := inbytelens[at[i]];
      result[i] := inputs[at[i]][..resbytelens[i]];
      i := i + 1;
    }
  }

  /** create_result_from_matches_var_bitlen: the elements at the sorted matches, with their lengths. */
  method CreateResult(inbytelens: seq<nat>, inputs: seq<seq<byte>>, matches: array<nat>, size: nat)
      returns (result: array<seq<byte>>, resbytelens: array<nat>)
    requires |inputs| == |inbytelens| && forall i :: 0 <= i < |inbytelens| ==> inbytelens[i] <= |inputs[i]|
    requires size <= matches.Length && Below(matches[..size], |inputs|)
    modifies matches
    ensures fresh(result) && fresh(resbytelens)
    ensures Below(Sorted(old(matches[..size])), |inputs|)
    ensures result[..] == Pick(ElementsOf(inbytelens, inputs), Sorted(old(matches[..size])))
    ensures resbytelens[..] == Pick(inbytelens, Sorted(old(matches[..size])))
  {
    SortedBelow(matches[..size], |inputs|);
    SortPrefix(matches, size);
    result, resbytelens := CopyElements(inbytelens, inputs, matches[..size]);
  }
}
