/** Lifecycle histories: the adjacency test on capability and recommendation histories,
    tools/evolution_verify.py and tools/intelligence_verify.py. */
module Lifecycle {
  import opened Ordering

  /** `[lifecycle.index(state) for state in history if state in lifecycle]` */
  function Indexes(lifecycle: seq<string>, history: seq<string>): seq<nat> {
    if history == [] then []
    else (if history[0] in lifecycle then [IndexOf(lifecycle, history[0])] else []) + Indexes(lifecycle, history[1..])
  }

  predicate Consecutive(indexes: seq<nat>) {
    forall i, j :: 0 <= i < |indexes| && j == i + 1 && j < |indexes| ==> indexes[j] == indexes[i] + 1
  }

  /** The conditions on a history, given the state recorded beside it. */
  predicate HistoryAccepted(lifecycle: seq<string>, state: string, history: seq<string>) {
    && history != []
    && state == history[|history| - 1]
    && |Indexes(lifecycle, history)| == |history|
    && Consecutive(Indexes(lifecycle, history))
  }

  predicate SliceAt(lifecycle: seq<string>, history: seq<string>, k: nat) {
    k + |history| <= |lifecycle| && lifecycle[k..k + |history|] == history
  }

  lemma {:induction false} IndexesPointwise(lifecycle: seq<string>, history: seq<string>)
    ensures |Indexes(lifecycle, history)| <= |history|
    ensures |Indexes(lifecycle, history)| == |history| <==> forall s :: s in history ==> s in lifecycle
    ensures var indexes := Indexes(lifecycle, history);
      |indexes| == |history|
      ==> forall i :: 0 <= i < |history| ==> history[i] in lifecycle && indexes[i] == IndexOf(lifecycle, history[i])
  {
    if history != [] {
      IndexesPointwise(lifecycle, history[1..]);
      assert history == [history[0]] + history[1..];
    }
  }

  lemma {:induction false} ConsecutiveCounts(indexes: seq<nat>, i: nat)
    requires Consecutive(indexes) && i < |indexes|
    ensures indexes[i] == indexes[0] + i
  {
    if i > 0 {
      ConsecutiveCounts(indexes, i - 1);
    }
  }

  /** No state of the part starting at `k` occurs earlier in the lifecycle. */
  predicate FirstOccurrences(lifecycle: seq<string>, history: seq<string>, k: nat) {
    k + |history| <= |lifecycle| && forall i :: 0 <= i < |history| ==> history[i] !in lifecycle[..k + i]
  }

  lemma AcceptedIsSlice(lifecycle: seq<string>, state: string, history: seq<string>)
    requires HistoryAccepted(lifecycle, state, history)
    ensures exists k :: SliceAt(lifecycle, history, k) && FirstOccurrences(lifecycle, history, k)
  {
    IndexesPointwise(lifecycle, history);
    var indexes := Indexes(lifecycle, history);
    var k := indexes[0];
    ConsecutiveCounts(indexes, |history| - 1);
    forall i | 0 <= i < |history|
      ensures k + i < |lifecycle| && lifecycle[k + i] == history[i] && history[i] !in lifecycle[..k + i]
    {
      ConsecutiveCounts(indexes, i);
    }
    assert lifecycle[k..k + |history|] == history;
    assert SliceAt(lifecycle, history, k);
  }

  lemma FirstPlace(lifecycle: seq<string>, state: string, n: nat)
    requires n < |lifecycle| && lifecycle[n] == state && state !in lifecycle[..n]
    ensures IndexOf(lifecycle, state) == n
  {
    var k := IndexOf(lifecycle, state);
    forall j | 0 <= j < n ensures lifecycle[j] != state {
      assert lifecycle[..n][j] == lifecycle[j];
    }
    forall j | 0 <= j < k ensures lifecycle[j] != state {
      assert lifecycle[..k][j] == lifecycle[j];
    }
  }

  lemma SliceIsAccepted(lifecycle: seq<string>, history: seq<string>, k: nat)
    requires history != [] && SliceAt(lifecycle, history, k) && FirstOccurrences(lifecycle, history, k)
    ensures HistoryAccepted(lifecycle, history[|history| - 1], history)
  {
    forall i | 0 <= i < |history| ensures history[i] in lifecycle && IndexOf(lifecycle, history[i]) == k + i {
      assert lifecycle[k..k + |history|][i] == lifecycle[k + i];
      FirstPlace(lifecycle, history[i], k + i);
    }
    assert forall s :: s in history ==> s in lifecycle;
    IndexesPointwise(lifecycle, history);
  }

  /** The accepted histories, for any lifecycle: the contiguous parts in which every state occurs for the first time. */
  lemma AcceptedIff(lifecycle: seq<string>, state: string, history: seq<string>)
    ensures HistoryAccepted(lifecycle, state, history)
      <==> (&& history != []
            && state == history[|history| - 1]
            && exists k :: SliceAt(lifecycle, history, k) && FirstOccurrences(lifecycle, history, k))
  {
    if HistoryAccepted(lifecycle, state, history) {
      AcceptedIsSlice(lifecycle, state, history);
    }
    forall k: nat | history != [] && SliceAt(lifecycle, history, k) && FirstOccurrences(lifecycle, history, k)
      ensures HistoryAccepted(lifecycle, history[|history| - 1], history)
    {
      SliceIsAccepted(lifecycle, history, k);
    }
  }

  ghost predicate AcceptsEverySlice(lifecycle: seq<string>) {
    forall history, k :: history != [] && SliceAt(lifecycle, history, k)
      ==> HistoryAccepted(lifecycle, history[|history| - 1], history)
  }

  lemma DistinctSliceIsAccepted(lifecycle: seq<string>, history: seq<string>, k: nat)
    requires Distinct(lifecycle) && history != [] && SliceAt(lifecycle, history, k)
    ensures HistoryAccepted(lifecycle, history[|history| - 1], history)
  {
    forall i | 0 <= i < |history| ensures history[i] !in lifecycle[..k + i] {
      assert lifecycle[k..k + |history|][i] == lifecycle[k + i];
    }
    SliceIsAccepted(lifecycle, history, k);
  }

  /** The part from one occurrence of a state to the next is not accepted. */
  lemma RepeatedStateRefused(lifecycle: seq<string>, i: nat, j: nat)
    requires i < j < |lifecycle| && lifecycle[i] == lifecycle[j]
    ensures !HistoryAccepted(lifecycle, lifecycle[j], lifecycle[i..j + 1])
  {
    var history := lifecycle[i..j + 1];
    assert history[0] == lifecycle[i] && history[j - i] == lifecycle[j];
    if HistoryAccepted(lifecycle, lifecycle[j], history) {
      IndexesPointwise(lifecycle, history);
      ConsecutiveCounts(Indexes(lifecycle, history), j - i);
    }
  }

  lemma SliceOf(lifecycle: seq<string>, i: nat, j: nat)
    requires i <= j < |lifecycle|
    ensures SliceAt(lifecycle, lifecycle[i..j + 1], i)
    ensures |lifecycle[i..j + 1]| == j + 1 - i && lifecycle[i..j + 1][j - i] == lifecycle[j]
  {
  }

  lemma AcceptingAllRepeatsNone(lifecycle: seq<string>, i: nat, j: nat)
    requires AcceptsEverySlice(lifecycle) && i < j < |lifecycle|
    ensures lifecycle[i] != lifecycle[j]
  {
    var history := lifecycle[i..j + 1];
    SliceOf(lifecycle, i, j);
    if lifecycle[i] == lifecycle[j] {
      RepeatedStateRefused(lifecycle, i, j);
    }
  }

  /** The test accepts every non-empty contiguous part of a lifecycle exactly when no state is listed twice. */
  lemma AcceptsEverySliceIffDistinct(lifecycle: seq<string>)
    ensures AcceptsEverySlice(lifecycle) <==> Distinct(lifecycle)
  {
    if Distinct(lifecycle) {
      forall history, k: nat | history != [] && SliceAt(lifecycle, history, k)
        ensures HistoryAccepted(lifecycle, history[|history| - 1], history)
      {
        DistinctSliceIsAccepted(lifecycle, history, k);
      }
    }
    if AcceptsEverySlice(lifecycle) {
      forall i, j | 0 <= i < j < |lifecycle| ensures lifecycle[i] != lifecycle[j] {
        AcceptingAllRepeatsNone(lifecycle, i, j);
      }
    }
  }

  /** A lifecycle that comes back to its first state: it is itself refused as a history. */
  lemma ReturningLifecycleRefused()
    ensures var lifecycle := ["a", "b", "a"];
      SliceAt(lifecycle, lifecycle, 0) && !HistoryAccepted(lifecycle, "a", lifecycle)
  {
    var lifecycle := ["a", "b", "a"];
    RepeatedStateRefused(lifecycle, 0, 2);
    assert lifecycle[0..3] == lifecycle;
  }
}
