/** Waiting for the address to stop moving: sample until four samples in a row agree. */
module SettledRoute {
  import opened Options

  /** Four consecutive entries, the last of them at position i, are the same. */
  predicate SettledAt(samples: seq<string>, i: int) {
    3 <= i < |samples| && samples[i - 3] == samples[i - 2] == samples[i - 1] == samples[i]
  }

  /**
   The loop of `landsOn` over the paths the page reports. It begins as if an empty path had been
   sampled, and returns at the first point where that and the samples agree four times running.
   */
  method LandsOn(samples: seq<string>) returns (path: Option<string>, taken: nat)
    ensures taken <= |samples|
    ensures path.Some? ==> SettledAt([""] + samples, taken) && path.value == ([""] + samples)[taken]
    ensures forall i :: 0 <= i < taken ==> !SettledAt([""] + samples, i)
    ensures path.None? ==> taken == |samples| && !SettledAt([""] + samples, taken)
  {
    var previous := "";
    var stable := 0;
    taken := 0;
    ghost var seen := [""] + samples;
    while stable < 3 && taken < |samples|
      invariant taken <= |samples| && previous == seen[taken]
      invariant 0 <= stable <= 3 && stable <= taken
      // the run of equal entries that ends here is stable + 1 long
      invariant forall k :: taken - stable <= k <= taken ==> seen[k] == previous
      invariant stable < taken ==> seen[taken - stable - 1] != previous
      invariant forall i :: 0 <= i < taken ==> !SettledAt(seen, i)
      decreases |samples| - taken
    {
      var current := samples[taken];
      assert seen[taken + 1] == current;
      stable := if current == previous then stable + 1 else 0;
      previous := current;
      taken := taken + 1;
    }
    path := if stable < 3 then None else Some(previous);
  }

  /** When the first path is not empty, as no page's is, the four are four samples. */
  lemma SettledSamples(samples: seq<string>, taken: nat)
    requires samples != [] && samples[0] != ""
    ensures SettledAt([""] + samples, taken) <==> SettledAt(samples, taken - 1)
  {
  }
}
