/** _match_observations: pairing two observation logs by nearest timestamp. */
module ObservationMatching {
  import opened StableSort

  datatype Observation = Observation(ts: real, value: real)

  function TimeOf(o: Observation): real {
    o.ts
  }

  /** sorted(..., key=timestamp). */
  function SortByTime(s: seq<Observation>): seq<Observation> {
    Sort(s, TimeOf)
  }

  // ----- Greedy matching -----

  function Gap(b: seq<Observation>, j: nat, ts: real): real
    requires j < |b|
  {
    if b[j].ts - ts < 0.0 then ts - b[j].ts else b[j].ts - ts
  }

  /** The gap is the distance in time, whichever comes first. */
  lemma GapIsDistance(b: seq<Observation>, j: nat, ts: real)
    requires j < |b|
    ensures Gap(b, j, ts) >= 0.0 && (Gap(b, j, ts) == b[j].ts - ts || Gap(b, j, ts) == ts - b[j].ts)
  {
  }

  /** c is the first of the nearest unused observations within the gap, or -1 if none is. */
  ghost predicate Chosen(b: seq<Observation>, used: set<int>, ts: real, maxGap: real, c: int) {
    if c == -1 then forall j :: 0 <= j < |b| && j !in used ==> Gap(b, j, ts) > maxGap
    else
      && 0 <= c < |b| && c !in used && Gap(b, c, ts) <= maxGap
      && forall j :: 0 <= j < |b| && j !in used ==>
           if j < c then Gap(b, j, ts) > Gap(b, c, ts) else Gap(b, j, ts) >= Gap(b, c, ts)
  }

  /** The observations of b chosen before turn i. */
  ghost function Used(choice: seq<int>, i: nat): set<int>
    requires i <= |choice|
  {
    set k | 0 <= k < i && choice[k] >= 0 :: choice[k]
  }

  ghost predicate Greedy(a: seq<Observation>, b: seq<Observation>, maxGap: real, choice: seq<int>) {
    |choice| == |a| && forall i :: 0 <= i < |a| ==> Chosen(b, Used(choice, i), a[i].ts, maxGap, choice[i])
  }

  ghost function Pairs(a: seq<Observation>, b: seq<Observation>, choice: seq<int>): seq<(real, real)>
    requires |choice| == |a| && forall i :: 0 <= i < |choice| ==> -1 <= choice[i] < |b|
  {
    if a == [] then []
    else
      Pairs(a[..|a| - 1], b, choice[..|a| - 1])
      + if choice[|a| - 1] >= 0 then [(a[|a| - 1].value, b[choice[|a| - 1]].value)] else []
  }

  ghost predicate InRange(choice: seq<int>, n: nat) {
    forall i :: 0 <= i < |choice| ==> -1 <= choice[i] < n
  }

  /** The pairs are those of a greedy choice; GreedyIsUnique says there is only one. */
  ghost predicate Matched(a: seq<Observation>, b: seq<Observation>, maxGap: real, pairs: seq<(real, real)>) {
    exists choice :: Greedy(a, b, maxGap, choice) && InRange(choice, |b|) && pairs == Pairs(a, b, choice)
  }

  ghost function Flagged(used: array<bool>): set<int>
    reads used
  {
    set j | 0 <= j < used.Length && used[j]
  }

  /** The scan for one observation: the first nearest unused one within the gap. */
  method Nearest(b: seq<Observation>, used: array<bool>, ts: real, maxGap: real) returns (best: int)
    requires used.Length == |b|
    ensures Chosen(b, Flagged(used), ts, maxGap, best)
  {
    best := -1;
    var bestGap := 0.0;
    for j := 0 to |b|
      invariant -1 <= best < j
      invariant best == -1 ==> forall k :: 0 <= k < j && !used[k] ==> Gap(b, k, ts) > maxGap
      invariant best >= 0 ==> !used[best] && bestGap == Gap(b, best, ts) <= maxGap
      invariant best >= 0 ==> forall k :: 0 <= k < j && !used[k] ==>
                  if k < best then Gap(b, k, ts) > bestGap else Gap(b, k, ts) >= bestGap
    {
      if used[j] {
        continue;
      }
      var gap := if b[j].ts - ts < 0.0 then ts - b[j].ts else b[j].ts - ts;
      if gap <= maxGap && (best == -1 || gap < bestGap) {
        bestGap := gap;
        best := j;
      }
    }
  }

  lemma GreedyStart(a: seq<Observation>, b: seq<Observation>, maxGap: real)
    ensures Greedy(a[..0], b, maxGap, []) && Pairs(a[..0], b, []) == [] && Used([], 0) == {}
  {
  }

  lemma GreedyStep(a: seq<Observation>, b: seq<Observation>, maxGap: real, choice: seq<int>, i: nat, best: int)
    requires i == |choice| < |a| && InRange(choice, |b|) && Greedy(a[..i], b, maxGap, choice)
    requires Chosen(b, Used(choice, i), a[i].ts, maxGap, best)
    ensures InRange(choice + [best], |b|) && Greedy(a[..i + 1], b, maxGap, choice + [best])
    ensures Used(choice + [best], i + 1) == Used(choice, i) + if best >= 0 then {best} else {}
    ensures Pairs(a[..i + 1], b, choice + [best]) ==
      Pairs(a[..i], b, choice) + if best >= 0 then [(a[i].value, b[best].value)] else []
  {
    var next := choice + [best];
    forall k | 0 <= k <= i ensures Used(next, k) == Used(choice, k) {
    }
    assert a[..i + 1][..i] == a[..i] && next[..i] == choice;
  }

  method MatchObservations(aVals: seq<Observation>, bVals: seq<Observation>, maxGap: real)
    returns (pairs: seq<(real, real)>)
    ensures Matched(SortByTime(aVals), SortByTime(bVals), maxGap, pairs)
  {
    var a, b := SortByTime(aVals), SortByTime(bVals);
    SortIsStable(aVals, TimeOf);
    SortIsStable(bVals, TimeOf);
    GreedyStart(a, b, maxGap);
    hide Chosen, Greedy, Pairs, Used;
    pairs := [];
    ghost var choice: seq<int> := [];
    var used := new bool[|b|](_ => false);
    for i := 0 to |a|
      invariant |choice| == i && InRange(choice, |b|) && pairs == Pairs(a[..i], b, choice)
      invariant Greedy(a[..i], b, maxGap, choice)
      invariant Flagged(used) == Used(choice, i)
    {
      var best := Nearest(b, used, a[i].ts, maxGap);
      GreedyStep(a, b, maxGap, choice, i, best);
      if best >= 0 {
        used[best] := true;
        pairs := pairs + [(a[i].value, b[best].value)];
      }
      choice := choice + [best];
    }
    assert a[..|a|] == a;
  }

  // ----- What greedy matching guarantees -----

  /** No observation of b is used twice; every pair is within the gap; and an observation of
      a stays unmatched only when every b within the gap was used up by earlier turns. */
  lemma GreedyIsInjectiveAndMaximal(a: seq<Observation>, b: seq<Observation>, maxGap: real, choice: seq<int>)
    requires Greedy(a, b, maxGap, choice)
    ensures forall i, k :: 0 <= i < k < |choice| && choice[i] >= 0 ==> choice[i] != choice[k]
    ensures forall i :: 0 <= i < |choice| && choice[i] >= 0 ==> choice[i] < |b| && Gap(b, choice[i], a[i].ts) <= maxGap
    ensures forall i, j :: 0 <= i < |choice| && choice[i] == -1 && 0 <= j < |b| && Gap(b, j, a[i].ts) <= maxGap ==>
      exists k :: 0 <= k < i && choice[k] == j
  {
    forall i, k | 0 <= i < k < |choice| && choice[i] >= 0 ensures choice[i] != choice[k] {
      assert choice[i] in Used(choice, k);
    }
    forall i, j | 0 <= i < |choice| && choice[i] == -1 && 0 <= j < |b| && Gap(b, j, a[i].ts) <= maxGap
      ensures exists k :: 0 <= k < i && choice[k] == j {
      assert j in Used(choice, i);
    }
  }

  /** The choices are determined: ties go to the earlier observation of b. */
  lemma {:induction false} GreedyIsUnique(a: seq<Observation>, b: seq<Observation>, maxGap: real, c: seq<int>,
                                          d: seq<int>, n: nat)
    requires Greedy(a, b, maxGap, c) && Greedy(a, b, maxGap, d) && n <= |a|
    ensures c[..n] == d[..n]
  {
    if n == 0 {
    } else {
      GreedyIsUnique(a, b, maxGap, c, d, n - 1);
      assert forall k :: 0 <= k < n - 1 ==> c[k] == c[..n - 1][k] == d[..n - 1][k] == d[k];
      assert Used(c, n - 1) == Used(d, n - 1);
      assert c[..n] == c[..n - 1] + [c[n - 1]] && d[..n] == d[..n - 1] + [d[n - 1]];
    }
  }

  /** When every timestamp is the same, the i-th observation of a takes the i-th of b. */
  lemma {:induction false} SimultaneousChoice(a: seq<Observation>, b: seq<Observation>, maxGap: real,
                                              choice: seq<int>, t: real, n: nat)
    requires Greedy(a, b, maxGap, choice) && maxGap >= 0.0 && n <= |a|
    requires (forall i :: 0 <= i < |a| ==> a[i].ts == t) && (forall j :: 0 <= j < |b| ==> b[j].ts == t)
    ensures forall i :: 0 <= i < n ==> choice[i] == if i < |b| then i else -1
  {
    if n == 0 {
    } else {
      SimultaneousChoice(a, b, maxGap, choice, t, n - 1);
      var used := Used(choice, n - 1);
      assert forall j :: 0 <= j < |b| ==> (j in used <==> j < n - 1) by {
        forall j | 0 <= j < |b| && j < n - 1 ensures j in used {
          assert choice[j] == j;
        }
      }
      var ts, c := a[n - 1].ts, choice[n - 1];
      assert forall j :: 0 <= j < |b| ==> Gap(b, j, ts) == 0.0;
      if n - 1 < |b| {
        assert n - 1 !in used && Gap(b, n - 1, ts) == 0.0;
      }
    }
  }

  function ZipTo(a: seq<Observation>, b: seq<Observation>, n: nat): (r: seq<(real, real)>)
    requires n <= |a| && n <= |b|
  {
    seq(n, i requires 0 <= i < n => (a[i].value, b[i].value))
  }

  lemma {:induction false} PairsOfIdentity(a: seq<Observation>, b: seq<Observation>, choice: seq<int>)
    requires |choice| == |a| && InRange(choice, |b|)
    requires forall i :: 0 <= i < |a| ==> choice[i] == if i < |b| then i else -1
    ensures Pairs(a, b, choice) == ZipTo(a, b, if |a| < |b| then |a| else |b|)
  {
    if a == [] {
    } else {
      PairsOfIdentity(a[..|a| - 1], b, choice[..|a| - 1]);
    }
  }

  /** The result is determined. */
  lemma MatchedIsUnique(a: seq<Observation>, b: seq<Observation>, maxGap: real, p: seq<(real, real)>, q: seq<(real,
                        real)>)
    requires Matched(a, b, maxGap, p) && Matched(a, b, maxGap, q)
    ensures p == q
  {
    var c :| Greedy(a, b, maxGap, c) && InRange(c, |b|) && p == Pairs(a, b, c);
    var d :| Greedy(a, b, maxGap, d) && InRange(d, |b|) && q == Pairs(a, b, d);
    GreedyIsUnique(a, b, maxGap, c, d, |a|);
    assert c == c[..|a|] && d == d[..|a|];
  }

  /** With one timestamp throughout, the result is the plain zip of the two series. */
  lemma SimultaneousIsZip(aVals: seq<Observation>, bVals: seq<Observation>, maxGap: real, pairs: seq<(real, real)>,
                          t: real)
    requires Matched(SortByTime(aVals), SortByTime(bVals), maxGap, pairs) && maxGap >= 0.0
    requires forall i :: 0 <= i < |aVals| ==> aVals[i].ts == t
    requires forall j :: 0 <= j < |bVals| ==> bVals[j].ts == t
    ensures pairs == ZipTo(aVals, bVals, if |aVals| < |bVals| then |aVals| else |bVals|)
  {
    SortOfEqualKeys(aVals, TimeOf, t);
    SortOfEqualKeys(bVals, TimeOf, t);
    var choice :|
      Greedy(aVals, bVals, maxGap, choice) && InRange(choice, |bVals|) && pairs == Pairs(aVals, bVals, choice);
    SimultaneousChoice(aVals, bVals, maxGap, choice, t, |aVals|);
    PairsOfIdentity(aVals, bVals, choice);
  }
}
