/** DecompositionStrategyLearner: per goal type, a list of step sequences with counters. */
module StrategyLearner {
  import opened Wrappers

  type Steps = seq<string>

  datatype Entry = Entry(steps: Steps, successes: nat, attempts: nat, rate: real)

  datatype Attempt = Attempt(goalType: string, steps: Steps, succeeded: bool)

  // ----- The counters as functions of everything recorded so far -----

  function Attempts(h: seq<Attempt>, goalType: string, steps: Steps): nat {
    if h == [] then 0
    else Attempts(h[..|h| - 1], goalType, steps)
         + if h[|h| - 1].goalType == goalType && h[|h| - 1].steps == steps then 1 else 0
  }

  function Successes(h: seq<Attempt>, goalType: string, steps: Steps): (n: nat)
    ensures n <= Attempts(h, goalType, steps)
  {
    if h == [] then 0
    else Successes(h[..|h| - 1], goalType, steps)
         + if h[|h| - 1] == Attempt(goalType, steps, true) then 1 else 0
  }

  function Ratio(successes: nat, attempts: nat): real
    requires attempts > 0
  {
    successes as real / attempts as real
  }

  function Rate(h: seq<Attempt>, goalType: string, steps: Steps): real
    requires Attempts(h, goalType, steps) > 0
  {
    Ratio(Successes(h, goalType, steps), Attempts(h, goalType, steps))
  }

  /** The distinct step sequences of a goal type, in the order they were first recorded. */
  function FirstSeen(h: seq<Attempt>, goalType: string): (r: seq<Steps>)
    ensures forall s :: s in r <==> Attempts(h, goalType, s) > 0
    ensures forall i, j :: 0 <= i < j < |r| ==> r[i] != r[j]
  {
    if h == [] then []
    else
      var r := FirstSeen(h[..|h| - 1], goalType);
      var a := h[|h| - 1];
      if a.goalType == goalType && a.steps !in r then r + [a.steps] else r
  }

  function EntryOf(h: seq<Attempt>, goalType: string, steps: Steps): Entry
    requires Attempts(h, goalType, steps) > 0
  {
    Entry(steps, Successes(h, goalType, steps), Attempts(h, goalType, steps), Rate(h, goalType, steps))
  }

  predicate IsTry(a: Attempt, goalType: string, steps: Steps) {
    a.goalType == goalType && a.steps == steps
  }

  ghost function Tries(h: seq<Attempt>, goalType: string, steps: Steps): set<nat> {
    set i: nat | i < |h| && IsTry(h[i], goalType, steps)
  }

  ghost function Wins(h: seq<Attempt>, goalType: string, steps: Steps): set<nat> {
    set i: nat | i < |h| && IsTry(h[i], goalType, steps) && h[i].succeeded
  }

  lemma TriesGrow(h: seq<Attempt>, a: Attempt, goalType: string, steps: Steps)
    ensures |Tries(h + [a], goalType, steps)| ==
      |Tries(h, goalType, steps)| + if IsTry(a, goalType, steps) then 1 else 0
  {
    hide IsTry;
    assert forall i :: 0 <= i < |h| ==> (h + [a])[i] == h[i];
    assert Tries(h + [a], goalType, steps) ==
      Tries(h, goalType, steps) + if IsTry(a, goalType, steps) then {|h|} else {};
  }

  lemma WinsGrow(h: seq<Attempt>, a: Attempt, goalType: string, steps: Steps)
    ensures |Wins(h + [a], goalType, steps)| ==
      |Wins(h, goalType, steps)| + if IsTry(a, goalType, steps) && a.succeeded then 1 else 0
  {
    hide IsTry;
    assert forall i :: 0 <= i < |h| ==> (h + [a])[i] == h[i];
    assert Wins(h + [a], goalType, steps) ==
      Wins(h, goalType, steps) + if IsTry(a, goalType, steps) && a.succeeded then {|h|} else {};
  }

  /** The counters as numbers of attempts. */
  lemma {:induction false} CountsExactly(h: seq<Attempt>, goalType: string, steps: Steps)
    ensures Attempts(h, goalType, steps) == |Tries(h, goalType, steps)|
    ensures Successes(h, goalType, steps) == |Wins(h, goalType, steps)|
  {
    if h == [] {
    } else {
      var rest, a := h[..|h| - 1], h[|h| - 1];
      CountsExactly(rest, goalType, steps);
      assert h == rest + [a];
      TriesGrow(rest, a, goalType, steps);
      WinsGrow(rest, a, goalType, steps);
      hide Tries, Wins;
    }
  }

  lemma {:induction false} Occurrence(h: seq<Attempt>, goalType: string, steps: Steps) returns (k: nat)
    requires Attempts(h, goalType, steps) > 0
    ensures k < |h| && h[k].goalType == goalType && h[k].steps == steps
  {
    k := |h| - 1;
    if h[k].goalType != goalType || h[k].steps != steps {
      k := Occurrence(h[..k], goalType, steps);
    }
  }

  lemma {:induction false} NoOccurrence(h: seq<Attempt>, goalType: string, steps: Steps)
    requires Attempts(h, goalType, steps) == 0
    ensures forall m :: 0 <= m < |h| ==> h[m].goalType != goalType || h[m].steps != steps
  {
    if h == [] {
    } else {
      NoOccurrence(h[..|h| - 1], goalType, steps);
    }
  }

  lemma RatioTimes(successes: nat, attempts: nat)
    requires attempts > 0
    ensures Ratio(successes, attempts) * attempts as real == successes as real
  {
  }

  /** The success rate times the number of attempts is the number of successes. */
  lemma RateExactly(h: seq<Attempt>, goalType: string, steps: Steps)
    requires Attempts(h, goalType, steps) > 0
    ensures Rate(h, goalType, steps) * |Tries(h, goalType, steps)| as real == |Wins(h, goalType, steps)| as real
  {
    hide Ratio, Tries, Wins, Attempts, Successes;
    CountsExactly(h, goalType, steps);
    RatioTimes(Successes(h, goalType, steps), Attempts(h, goalType, steps));
  }

  /** Sequences are kept in the order in which they were first recorded. */
  lemma {:induction false} FirstSeenInOrder(h: seq<Attempt>, goalType: string, i: nat, j: nat) returns (k: nat)
    requires i < j < |FirstSeen(h, goalType)|
    ensures k < |h| && h[k].goalType == goalType && h[k].steps == FirstSeen(h, goalType)[i]
    ensures forall m :: 0 <= m <= k ==> h[m].goalType != goalType || h[m].steps != FirstSeen(h, goalType)[j]
  {
    var n := |h| - 1;
    var seen := FirstSeen(h[..n], goalType);
    if j < |seen| {
      k := FirstSeenInOrder(h[..n], goalType, i, j);
    } else {
      assert seen[i] in seen;
      k := Occurrence(h[..n], goalType, seen[i]);
      NoOccurrence(h[..n], goalType, h[n].steps);
    }
  }

  /** What is kept for a goal type: one entry per distinct step sequence. */
  ghost predicate Summarizes(h: seq<Attempt>, goalType: string, entries: seq<Entry>) {
    var seen := FirstSeen(h, goalType);
    |entries| == |seen| && forall i :: 0 <= i < |seen| ==>
      seen[i] in seen && entries[i] == EntryOf(h, goalType, seen[i])
  }

  /** best was recorded, no recorded sequence has a higher rate, and none first recorded
      earlier has the same. */
  ghost predicate Best(h: seq<Attempt>, goalType: string, best: Steps) {
    var seen := FirstSeen(h, goalType);
    exists b :: 0 <= b < |seen| && seen[b] == best && Attempts(h, goalType, best) > 0
      && forall k :: 0 <= k < |seen| ==> (
        Attempts(h, goalType, seen[k]) > 0
        && (if k < b then Rate(h, goalType, seen[k]) < Rate(h, goalType, best)
            else Rate(h, goalType, seen[k]) <= Rate(h, goalType, best)))
  }

  lemma BestEntry(h: seq<Attempt>, goalType: string, entries: seq<Entry>, b: nat)
    requires Summarizes(h, goalType, entries) && b < |entries|
    requires forall k :: 0 <= k < |entries| ==> entries[k].rate <= entries[b].rate
    requires forall k :: 0 <= k < b ==> entries[k].rate < entries[b].rate
    ensures Best(h, goalType, entries[b].steps)
  {
    hide Ratio;
    var seen := FirstSeen(h, goalType);
    assert seen[b] in seen && entries[b].steps == seen[b];
    forall k | 0 <= k < |seen|
      ensures Attempts(h, goalType, seen[k]) > 0 && Rate(h, goalType, seen[k]) == entries[k].rate {
      assert seen[k] in seen;
    }
  }

  /** The documented choice: best was recorded, no recorded sequence has a higher rate, and
      none first recorded later has the same. */
  ghost predicate BestRecent(h: seq<Attempt>, goalType: string, best: Steps) {
    var seen := FirstSeen(h, goalType);
    exists b :: 0 <= b < |seen| && seen[b] == best && Attempts(h, goalType, best) > 0
      && forall k :: 0 <= k < |seen| ==> (
        Attempts(h, goalType, seen[k]) > 0
        && (if k > b then Rate(h, goalType, seen[k]) < Rate(h, goalType, best)
            else Rate(h, goalType, seen[k]) <= Rate(h, goalType, best)))
  }

  /** Every other sequence recorded for the goal type has a lower rate. */
  ghost predicate Untied(h: seq<Attempt>, goalType: string, best: Steps) {
    Attempts(h, goalType, best) > 0 && forall s :: Attempts(h, goalType, s) > 0 && s != best ==>
      Rate(h, goalType, s) < Rate(h, goalType, best)
  }

  /** The sequence chosen is the documented one exactly when there is no tie. */
  lemma MostRecentExactlyWhen(h: seq<Attempt>, goalType: string, best: Steps)
    requires Best(h, goalType, best)
    ensures BestRecent(h, goalType, best) <==> Untied(h, goalType, best)
  {
    hide Attempts, Rate;
    var seen := FirstSeen(h, goalType);
    var b :| 0 <= b < |seen| && seen[b] == best;
    if BestRecent(h, goalType, best) {
      forall s | Attempts(h, goalType, s) > 0 && s != best ensures Rate(h, goalType, s) < Rate(h, goalType, best) {
        assert s in seen;
        var k :| 0 <= k < |seen| && seen[k] == s;
      }
    }
    if Untied(h, goalType, best) {
      forall k | 0 <= k < |seen|
        ensures Attempts(h, goalType, seen[k]) > 0
        ensures if k > b then Rate(h, goalType, seen[k]) < Rate(h, goalType, best)
                else Rate(h, goalType, seen[k]) <= Rate(h, goalType, best) {
        assert seen[k] in seen;
      }
    }
  }

  lemma CountsAfter(h: seq<Attempt>, a: Attempt, t: string, s: Steps)
    ensures Attempts(h + [a], t, s) == Attempts(h, t, s) + if a.goalType == t && a.steps == s then 1 else 0
    ensures Successes(h + [a], t, s) == Successes(h, t, s) + if a == Attempt(t, s, true) then 1 else 0
  {
    assert (h + [a])[..|h|] == h;
  }

  lemma SeenAfter(h: seq<Attempt>, a: Attempt, t: string)
    ensures FirstSeen(h + [a], t) ==
      if a.goalType == t && a.steps !in FirstSeen(h, t) then FirstSeen(h, t) + [a.steps] else FirstSeen(h, t)
  {
    assert (h + [a])[..|h|] == h;
  }

  lemma OtherEntries(h: seq<Attempt>, a: Attempt, t: string, entries: seq<Entry>)
    requires t != a.goalType && Summarizes(h, t, entries)
    ensures Summarizes(h + [a], t, entries)
  {
    hide Ratio;
    SeenAfter(h, a, t);
    forall i | 0 <= i < |entries| ensures entries[i].steps in FirstSeen(h, t)
                                       && entries[i] == EntryOf(h + [a], t, entries[i].steps) {
      CountsAfter(h, a, t, FirstSeen(h, t)[i]);
    }
  }

  lemma OldEntry(h: seq<Attempt>, a: Attempt, before: seq<Entry>, k: nat)
    requires Summarizes(h, a.goalType, before) && k < |before| && before[k].steps != a.steps
    ensures var s := FirstSeen(h, a.goalType)[k];
      Attempts(h + [a], a.goalType, s) > 0 && before[k] == EntryOf(h + [a], a.goalType, s)
  {
    hide Ratio;
    assert FirstSeen(h, a.goalType)[k] in FirstSeen(h, a.goalType);
    CountsAfter(h, a, a.goalType, FirstSeen(h, a.goalType)[k]);
  }

  /** Recording a known step sequence updates its counters in place. */
  lemma UpdatedEntry(h: seq<Attempt>, a: Attempt, before: seq<Entry>, i: nat)
    requires Summarizes(h, a.goalType, before) && i < |before| && before[i].steps == a.steps
    ensures var s := if a.succeeded then 1 else 0;
      Summarizes(h + [a], a.goalType,
        before[i := Entry(a.steps, before[i].successes + s, before[i].attempts + 1,
                          Ratio(before[i].successes + s, before[i].attempts + 1))])
  {
    hide Ratio;
    var seen := FirstSeen(h, a.goalType);
    assert seen[i] in seen;
    SeenAfter(h, a, a.goalType);
    CountsAfter(h, a, a.goalType, a.steps);
    forall k | 0 <= k < |seen| && k != i
      ensures Attempts(h + [a], a.goalType, seen[k]) > 0 && before[k] == EntryOf(h + [a], a.goalType, seen[k]) {
      OldEntry(h, a, before, k);
    }
  }

  lemma FirstEntry(h: seq<Attempt>, a: Attempt)
    requires Attempts(h, a.goalType, a.steps) == 0
    ensures Attempts(h + [a], a.goalType, a.steps) > 0
    ensures EntryOf(h + [a], a.goalType, a.steps) ==
      Entry(a.steps, if a.succeeded then 1 else 0, 1, if a.succeeded then 1.0 else 0.0)
  {
    CountsAfter(h, a, a.goalType, a.steps);
  }

  /** An instance of a tie: two sequences that each succeeded once, of which the earlier is
      chosen. */
  lemma EarlierOfTwo(goalType: string, earlier: Steps, later: Steps) returns (h: seq<Attempt>)
    requires earlier != later
    ensures h == [Attempt(goalType, earlier, true), Attempt(goalType, later, true)]
    ensures Best(h, goalType, earlier) && !BestRecent(h, goalType, earlier)
    ensures BestRecent(h, goalType, later)
  {
    var first := [Attempt(goalType, earlier, true)];
    h := first + [Attempt(goalType, later, true)];
    assert first == [] + first;
    forall s ensures Attempts(h, goalType, s) == if s == earlier || s == later then 1 else 0
             ensures Successes(h, goalType, s) == Attempts(h, goalType, s) {
      CountsAfter([], first[0], goalType, s);
      CountsAfter(first, Attempt(goalType, later, true), goalType, s);
    }
    SeenAfter([], first[0], goalType);
    SeenAfter(first, Attempt(goalType, later, true), goalType);
    assert FirstSeen(h, goalType) == [earlier, later];
    hide Attempts, Successes, FirstSeen;
    assert Rate(h, goalType, earlier) == Rate(h, goalType, later) == 1.0;
    MostRecentExactlyWhen(h, goalType, earlier) by {
      assert [earlier, later][0] == earlier;
    }
    assert [earlier, later][1] == later;
  }

  lemma EntrySteps(h: seq<Attempt>, t: string, entries: seq<Entry>, k: nat)
    requires Summarizes(h, t, entries) && k < |entries|
    ensures entries[k].steps == FirstSeen(h, t)[k]
  {
  }

  /** Recording a new one appends an entry. */
  lemma AppendedEntry(h: seq<Attempt>, a: Attempt, before: seq<Entry>)
    requires Summarizes(h, a.goalType, before) && forall k :: 0 <= k < |before| ==> before[k].steps != a.steps
    ensures Summarizes(h + [a], a.goalType,
      before + [Entry(a.steps, if a.succeeded then 1 else 0, 1, if a.succeeded then 1.0 else 0.0)])
  {
    hide Ratio, EntryOf;
    var seen := FirstSeen(h, a.goalType);
    assert a.steps !in seen by {
      forall k | 0 <= k < |seen| ensures seen[k] != a.steps {
        EntrySteps(h, a.goalType, before, k);
      }
    }
    SeenAfter(h, a, a.goalType);
    FirstEntry(h, a);
    forall k | 0 <= k < |seen|
      ensures Attempts(h + [a], a.goalType, seen[k]) > 0 && before[k] == EntryOf(h + [a], a.goalType, seen[k]) {
      OldEntry(h, a, before, k);
    }
  }

  class DecompositionStrategyLearner {
    var strategies: map<string, seq<Entry>>
    ghost var history: seq<Attempt>

    function Kept(goalType: string): seq<Entry>
      reads this
    {
      if goalType in strategies then strategies[goalType] else []
    }

    /** The list kept for each goal type is determined by what was recorded. */
    ghost predicate Valid()
      reads this
    {
      forall t :: Summarizes(history, t, Kept(t))
    }

    constructor ()
      ensures Valid() && history == []
    {
      strategies, history := map[], [];
    }

    method RecordDecomposition(goalType: string, steps: Steps, succeeded: bool)
      requires Valid()
      modifies this
      ensures Valid() && history == old(history) + [Attempt(goalType, steps, succeeded)]
    {
      hide Summarizes;
      var before := Kept(goalType);
      var entries := before;
      var i := 0;
      while i < |entries| && entries[i].steps != steps
        invariant 0 <= i <= |entries|
        invariant forall k :: 0 <= k < i ==> entries[k].steps != steps
      {
        i := i + 1;
      }
      var s := if succeeded then 1 else 0;
      if i < |entries| {
        var e := entries[i];
        entries := entries[i := Entry(steps, e.successes + s, e.attempts + 1, Ratio(e.successes + s, e.attempts + 1))];
      } else {
        entries := entries + [Entry(steps, s, 1, if succeeded then 1.0 else 0.0)];
      }
      ghost var a := Attempt(goalType, steps, succeeded);
      if i < |before| {
        UpdatedEntry(history, a, before, i);
      } else {
        AppendedEntry(history, a, before);
      }
      strategies := strategies[goalType := entries];
      history := history + [a];
      forall t ensures Summarizes(history, t, Kept(t)) {
        if t != goalType {
          assert Kept(t) == old(Kept(t));
          OtherEntries(old(history), a, t, Kept(t));
        }
      }
    }

    /** The step sequence with the highest success rate; among equals the one recorded first. */
    method BestStrategy(goalType: string) returns (best: Option<Steps>)
      requires Valid()
      ensures best.None? <==> forall s :: Attempts(history, goalType, s) == 0
      ensures best.Some? ==> Best(history, goalType, best.value)
      ensures best.Some? ==> (BestRecent(history, goalType, best.value) <==> Untied(history, goalType, best.value))
    {
      var entries := Kept(goalType);
      assert Summarizes(history, goalType, entries);
      ghost var seen := FirstSeen(history, goalType);
      if |entries| == 0 {
        assert seen == [];
        return None;
      }
      var b := 0;
      for i := 1 to |entries|
        invariant 0 <= b < |entries|
        invariant forall k :: 0 <= k < i ==> entries[k].rate <= entries[b].rate
        invariant forall k :: 0 <= k < b ==> entries[k].rate < entries[b].rate
      {
        if entries[i].rate > entries[b].rate {
          b := i;
        }
      }
      assert seen[b] in seen && Attempts(history, goalType, seen[b]) > 0;
      hide Best, BestRecent, Untied, Ratio, EntryOf, Rate, FirstSeen;
      BestEntry(history, goalType, entries, b);
      MostRecentExactlyWhen(history, goalType, entries[b].steps);
      return Some(entries[b].steps);
    }
  }
}
