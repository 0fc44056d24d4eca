/** core/deliberation_engine.py: the pairwise similarity pass and the consensus after it. */
module DeliberationEngine {
  import opened Wrappers
  import opened Reals
  import opened Sequences
  import opened StableSort
  import opened FlowConsensus
  import opened Deliberation

  type Words = set<string>

  /** A perspective as the pairwise pass reads it: the text's words and the name's tokens. */
  datatype Entry = Entry(id: Id, perspective: string, words: Words, names: Words)

  // ----- Similarity -----

  function Jaccard(a: Words, b: Words): real {
    if a == {} && b == {} then 1.0
    else if a == {} || b == {} then 0.0
    else |a * b| as real / |a + b| as real
  }

  const KEYWORD_GROUPS: seq<Words> := [
    {"monitoring", "telemetry", "signal", "signals", "metric", "metrics"},
    {"risk", "failure", "incident", "anomaly", "degrade", "degradation"},
    {"latency", "throughput", "capacity", "bottleneck", "hotspot"},
    {"diagnosis", "triage", "mitigation", "containment", "recovery"},
    {"tradeoff", "trade-offs", "constraint", "constraints", "optimize", "optimization"}
  ]

  predicate Touch(group: Words, a: Words, b: Words) {
    a * group != {} && b * group != {}
  }

  /** How many of the groups both texts touch. */
  function Shared(groups: seq<Words>, a: Words, b: Words): nat {
    if groups == [] then 0
    else Shared(groups[..|groups| - 1], a, b) + if Touch(groups[|groups| - 1], a, b) then 1 else 0
  }

  function Overlap(a: Words, b: Words): real {
    |a * b| as real / (if |a + b| > 1 then |a + b| else 1) as real
  }

  /** Two groups in common are enough for the full group score. */
  function Blend(shared: nat, overlap: real): real {
    Min(1.0, 0.85 * Min(1.0, shared as real / 2.0) + 0.15 * overlap)
  }

  function Coupling(a: Words, b: Words, namesA: Words, namesB: Words): real {
    if a == {} || b == {} then 0.0
    else Blend(Shared(KEYWORD_GROUPS, a, b), Overlap(namesA, namesB))
  }

  lemma Fraction(n: nat, d: nat)
    requires n <= d && d > 0
    ensures 0.0 <= n as real / d as real <= 1.0
    ensures n as real / d as real == 1.0 <==> n == d
    ensures n as real / d as real == 0.0 <==> n == 0
  {
  }

  lemma OverlapRange(a: Words, b: Words)
    ensures 0.0 <= Overlap(a, b) <= 1.0 && Overlap(a, b) == Overlap(b, a)
    ensures Overlap(a, b) == 1.0 <==> a == b && a != {}
  {
    assert a * b == b * a && a + b == b + a;
    SubsetSize(a * b, a + b);
    if a + b == {} {
      assert |a * b| == 0;
    } else {
      assert |a + b| > 0 && (a * b == a + b ==> a == b);
      Fraction(|a * b|, |a + b|);
    }
  }

  lemma JaccardRange(a: Words, b: Words)
    ensures 0.0 <= Jaccard(a, b) <= 1.0 && Jaccard(a, b) == Jaccard(b, a)
    ensures Jaccard(a, b) == 1.0 <==> a == b
    ensures Jaccard(a, b) == 0.0 <==> a !! b && a + b != {}
  {
    assert a * b == b * a && a + b == b + a;
    if a != {} && b != {} {
      SubsetSize(a * b, a + b);
      assert |a + b| > 0 && (|a * b| == 0 <==> a * b == {});
      assert a * b == a + b ==> a == b;
      Fraction(|a * b|, |a + b|);
    }
  }

  /** The share of common words among all words, in counts. */
  lemma JaccardCounts(a: Words, b: Words)
    ensures a == {} && b == {} ==> Jaccard(a, b) == 1.0
    ensures a + b != {} ==> |a + b| > 0 && Jaccard(a, b) * |a + b| as real == |a * b| as real
  {
    if a + b != {} {
      assert |a + b| > 0;
      if a == {} || b == {} {
        assert a * b == {};
      }
    }
  }

  // ----- The distance between two texts -----

  /** The words in one of the two texts only. */
  function Apart(a: Words, b: Words): nat {
    |(a - b) + (b - a)|
  }

  lemma ApartCounts(a: Words, b: Words)
    ensures Apart(a, b) + |a * b| == |a + b| && 2 * |a + b| == |a| + |b| + Apart(a, b)
  {
    assert (a - b) + (b - a) + a * b == a + b && (a - b) + (b - a) !! a * b;
    assert (a - b) + a * b == a && (b - a) + a * b == b;
    assert |(a - b) + (b - a)| == |a - b| + |b - a|;
  }

  lemma UnionSize(a: Words, b: Words)
    ensures |a + b| <= |a| + |b|
  {
    assert a + b == a + (b - a) && |a + (b - a)| == |a| + |b - a|;
    SubsetSize(b - a, b);
  }

  lemma ApartTriangle(a: Words, b: Words, c: Words)
    ensures Apart(a, c) <= Apart(a, b) + Apart(b, c)
  {
    var ab, bc := (a - b) + (b - a), (b - c) + (c - b);
    assert (a - c) + (c - a) <= ab + bc;
    SubsetSize((a - c) + (c - a), ab + bc);
    UnionSize(ab, bc);
  }

  lemma Quotient(q: real, n: real, p: real)
    requires n > 0.0 && q * n == p
    ensures q == p / n
  {
  }

  lemma Complement(j: real, n: nat, common: nat, apart: nat)
    requires n > 0 && j * n as real == common as real && apart + common == n
    ensures 1.0 - j == apart as real / n as real
  {
    assert (1.0 - j) * n as real == apart as real;
    Quotient(1.0 - j, n as real, apart as real);
  }

  /** 1 - similarity, in counts. */
  lemma DistanceCounts(a: Words, b: Words)
    requires a + b != {}
    ensures |a + b| > 0 && 1.0 - Jaccard(a, b) == Apart(a, b) as real / |a + b| as real
  {
    hide Jaccard, Apart;
    JaccardCounts(a, b);
    ApartCounts(a, b);
    Complement(Jaccard(a, b), |a + b|, |a * b|, Apart(a, b));
  }

  lemma LargerDenominator(p: real, n: real, m: real)
    requires p >= 0.0 && 0.0 < n <= m
    ensures p / m <= p / n
  {
    var q := p / m;
    assert q * m == p && q >= 0.0;
    assert q * n <= q * m;
    assert q * n / n == q;
  }

  lemma AtMostQuotient(q: real, n: real, p: real)
    requires n > 0.0 && q * n <= p
    ensures q <= p / n
  {
    var r := p / n;
    assert r * n == p;
    if q > r {
      assert (q - r) * n > 0.0;
    }
  }

  /** Adding the same to numerator and denominator does not lower a fraction below 1. */
  lemma AddToBoth(p: real, n: real, s: real)
    requires 0.0 <= p <= n && n > 0.0 && s >= 0.0
    ensures p / n <= (p + s) / (n + s)
  {
    var q := p / n;
    assert q * n == p && q <= 1.0;
    assert q * s <= s;
    assert q * (n + s) <= p + s;
    AtMostQuotient(q, n + s, p + s);
  }

  lemma AddFractions(p: real, q: real, d: real)
    requires d > 0.0
    ensures (p + q) / d == p / d + q / d
  {
  }

  /** The triangle inequality for fractions whose denominators hold their numerators twice over. */
  lemma FractionTriangle(ab: real, bc: real, ac: real, a: real, b: real, c: real)
    requires ab >= 0.0 && bc >= 0.0 && ac >= 0.0 && ac <= ab + bc
    requires a + b + ab > 0.0 && b + c + bc > 0.0 && a + c + ac > 0.0
    requires b <= c + bc && b <= a + ab && ac <= a + c
    ensures ac / (a + c + ac) <= ab / (a + b + ab) + bc / (b + c + bc)
  {
    var s, d := ab + bc - ac, a + c + ab + bc;
    AddToBoth(ac, a + c + ac, s);
    AddFractions(ab, bc, d);
    LargerDenominator(ab, a + b + ab, d);
    LargerDenominator(bc, b + c + bc, d);
  }

  lemma HalfFraction(p: nat, u: nat, n: nat)
    requires 2 * u == n && n > 0
    ensures p as real / u as real == 2.0 * (p as real / n as real)
  {
    var q := p as real / n as real;
    assert q * n as real == p as real;
    assert 2.0 * q * u as real == p as real;
    Quotient(2.0 * q, u as real, p as real);
  }

  lemma DistanceOf(a: Words, b: Words) returns (n: nat)
    requires a + b != {}
    ensures n == |a| + |b| + Apart(a, b) > 0
    ensures 1.0 - Jaccard(a, b) == 2.0 * (Apart(a, b) as real / n as real)
  {
    n := |a| + |b| + Apart(a, b);
    ApartCounts(a, b);
    DistanceCounts(a, b);
    HalfFraction(Apart(a, b), |a + b|, n);
  }

  /** 1 - similarity satisfies the triangle inequality. */
  lemma JaccardTriangle(a: Words, b: Words, c: Words)
    ensures 1.0 - Jaccard(a, c) <= (1.0 - Jaccard(a, b)) + (1.0 - Jaccard(b, c))
  {
    JaccardRange(a, b);
    JaccardRange(b, c);
    JaccardRange(a, c);
    if a + b != {} && b + c != {} && a + c != {} {
      hide Jaccard, Apart;
      var ab := DistanceOf(a, b);
      var bc := DistanceOf(b, c);
      var ac := DistanceOf(a, c);
      ApartTriangle(a, b, c);
      ApartCounts(a, b);
      ApartCounts(b, c);
      ApartCounts(a, c);
      SubsetSize(b, a + b);
      SubsetSize(b, b + c);
      UnionSize(a, c);
      FractionTriangle(Apart(a, b) as real, Apart(b, c) as real, Apart(a, c) as real, |a| as real, |b| as real,
                       |c| as real);
    }
  }

  lemma {:induction false} SharedSymmetric(groups: seq<Words>, a: Words, b: Words)
    ensures Shared(groups, a, b) == Shared(groups, b, a) <= |groups|
    ensures Shared(groups, a, b) > 0 <==> exists i :: 0 <= i < |groups| && Touch(groups[i], a, b)
  {
    if groups == [] {
    } else {
      SharedSymmetric(groups[..|groups| - 1], a, b);
      if i :| 0 <= i < |groups| && Touch(groups[i], a, b) {
        assert i < |groups| - 1 ==> Touch(groups[..|groups| - 1][i], a, b);
      }
    }
  }

  /** Both texts have words, and some keyword group is touched by both. */
  ghost predicate ShareTopic(a: Words, b: Words) {
    a != {} && b != {} && exists i :: 0 <= i < |KEYWORD_GROUPS| && Touch(KEYWORD_GROUPS[i], a, b)
  }

  lemma BlendRange(shared: nat, overlap: real)
    requires 0.0 <= overlap <= 1.0
    ensures 0.0 <= Blend(shared, overlap) <= 1.0
    ensures Blend(shared, overlap) >= 0.35 <==> shared > 0
    ensures Blend(shared, overlap) < 0.15 <==> shared == 0 && overlap < 1.0
  {
    if shared > 0 {
      assert shared as real / 2.0 >= 0.5;
    }
  }

  /** One shared group decides whether the coupling reaches the support threshold; without
      one, the coupling reaches the contradiction threshold only for equal name tokens. */
  lemma CouplingRange(a: Words, b: Words, namesA: Words, namesB: Words)
    ensures var c := Coupling(a, b, namesA, namesB);
      && 0.0 <= c <= 1.0 && c == Coupling(b, a, namesB, namesA)
      && (c >= 0.35 <==> ShareTopic(a, b))
      && (c < 0.15 <==> !ShareTopic(a, b) && (a == {} || b == {} || namesA != namesB || namesA == {}))
  {
    SharedSymmetric(KEYWORD_GROUPS, a, b);
    OverlapRange(namesA, namesB);
    BlendRange(Shared(KEYWORD_GROUPS, a, b), Overlap(namesA, namesB));
  }

  // ----- The verdict on a pair -----

  datatype Verdict = Contradict(severity: real) | Support(weight: real) | Neither

  function Judge(a: Entry, b: Entry): Verdict {
    if a.perspective == b.perspective then Neither
    else
      var jaccard := Jaccard(a.words, b.words);
      var coupling := Coupling(a.words, b.words, a.names, b.names);
      var similarity := Max(jaccard, coupling);
      if similarity < 0.15 then Contradict(1.0 - similarity)
      else if jaccard > 0.5 || coupling >= 0.35 then Support(Max(jaccard, Min(0.8, coupling + 0.2)))
      else Neither
  }

  /** The verdict does not depend on the order of the pair.  Two perspectives of different
      names support each other exactly when most of their words agree or they share a topic;
      they contradict exactly when they have little in common, no topic, and, if both have
      words, not the same name tokens.  Severities and weights never need clamping, and no
      support is ignored for its weight. */
  lemma JudgeExactly(a: Entry, b: Entry)
    ensures Judge(a, b) == Judge(b, a)
    ensures Judge(a, b).Support? <==>
      a.perspective != b.perspective && (Jaccard(a.words, b.words) > 0.5 || ShareTopic(a.words, b.words))
    ensures Judge(a, b).Contradict? <==>
      && a.perspective != b.perspective && Jaccard(a.words, b.words) < 0.15 && !ShareTopic(a.words, b.words)
      && (a.words == {} || b.words == {} || a.names != b.names || a.names == {})
    ensures Judge(a, b).Support? ==> 0.2 < Judge(a, b).weight <= 1.0
    ensures Judge(a, b).Contradict? ==> 0.85 < Judge(a, b).severity <= 1.0
  {
    JaccardRange(a.words, b.words);
    CouplingRange(a.words, b.words, a.names, b.names);
    hide Jaccard, Coupling, ShareTopic;
  }

  /** The keyword groups that both texts touch. */
  ghost function Topics(a: Words, b: Words): set<nat> {
    set i: nat | i < |KEYWORD_GROUPS| && Touch(KEYWORD_GROUPS[i], a, b)
  }

  lemma {:induction false} SharedCounts(groups: seq<Words>, a: Words, b: Words)
    ensures Shared(groups, a, b) == |set i: nat | i < |groups| && Touch(groups[i], a, b)|
  {
    hide Touch;
    if groups == [] {
    } else {
      var n := |groups| - 1;
      SharedCounts(groups[..n], a, b);
      var before := set i: nat | i < n && Touch(groups[..n][i], a, b);
      assert (set i: nat | i < |groups| && Touch(groups[i], a, b)) ==
        before + if Touch(groups[n], a, b) then {n} else {};
    }
  }

  lemma TopicsCounts(a: Words, b: Words)
    ensures Shared(KEYWORD_GROUPS, a, b) == |Topics(a, b)|
    ensures ShareTopic(a, b) <==> |Topics(a, b)| > 0
    ensures a == {} || b == {} ==> |Topics(a, b)| == 0
  {
    SharedCounts(KEYWORD_GROUPS, a, b);
    if i :| 0 <= i < |KEYWORD_GROUPS| && Touch(KEYWORD_GROUPS[i], a, b) {
      assert i in Topics(a, b);
    }
    if |Topics(a, b)| > 0 {
      var i :| i in Topics(a, b);
    }
    if i: nat :| i in Topics(a, b) {
      assert a * KEYWORD_GROUPS[i] != {} && b * KEYWORD_GROUPS[i] != {};
    }
  }

  /** The common part of two sets as a fraction of all, 0 when both are empty. */
  ghost function Share(a: Words, b: Words): real {
    if a + b == {} then 0.0
    else
      assert |a + b| > 0;
      |a * b| as real / |a + b| as real
  }

  lemma OverlapIsShare(a: Words, b: Words)
    ensures Overlap(a, b) == Share(a, b)
  {
    if a + b == {} {
      assert a * b == {};
    } else {
      assert |a + b| > 0;
    }
  }

  /** What the keyword groups and the names add up to: the weight that they alone would give. */
  ghost function TopicWeight(a: Entry, b: Entry): real {
    var topics := |Topics(a.words, b.words)|;
    if topics >= 2 then 0.8
    else if topics == 1 then 0.625 + 0.15 * Share(a.names, b.names)
    else if a.words == {} || b.words == {} then 0.2
    else 0.2 + 0.15 * Share(a.names, b.names)
  }

  lemma CouplingWeight(a: Entry, b: Entry)
    ensures Min(0.8, Coupling(a.words, b.words, a.names, b.names) + 0.2) == TopicWeight(a, b)
    ensures !ShareTopic(a.words, b.words) ==>
      Coupling(a.words, b.words, a.names, b.names) == TopicWeight(a, b) - 0.2
  {
    TopicsCounts(a.words, b.words);
    OverlapIsShare(a.names, b.names);
    OverlapRange(a.names, b.names);
    hide Topics, ShareTopic, Share, Overlap, Shared;
  }

  lemma Threshold(j: real, n: real, p: real, t: real)
    requires n > 0.0 && j * n == p
    ensures (j > t <==> p > t * n) && (j < t <==> p < t * n)
  {
    assert p - t * n == (j - t) * n;
    if j > t {
      assert (j - t) * n > 0.0;
    } else if j < t {
      assert (t - j) * n > 0.0;
      assert (t - j) * n == -((j - t) * n);
    }
  }

  lemma OverHalf(j: real, common: nat, n: nat)
    requires n > 0 && j * n as real == common as real
    ensures j > 0.5 <==> 2 * common > n
    ensures j < 0.15 <==> 20 * common < 3 * n
    ensures j == common as real / n as real
  {
    Quotient(j, n as real, common as real);
    Threshold(j, n as real, common as real, 0.5);
    Threshold(j, n as real, common as real, 0.15);
    assert (2 * common) as real == 2.0 * common as real && (20 * common) as real == 20.0 * common as real;
    assert (3 * n) as real == 3.0 * n as real;
  }

  lemma JaccardThresholds(a: Words, b: Words)
    ensures Jaccard(a, b) > 0.5 <==> 2 * |a * b| > |a + b| || (a == {} && b == {})
    ensures Jaccard(a, b) < 0.15 <==> 20 * |a * b| < 3 * |a + b|
    ensures Jaccard(a, b) == if a == {} && b == {} then 1.0 else Share(a, b)
  {
    JaccardCounts(a, b);
    if a + b == {} {
      assert a == {} && b == {} && a * b == {};
    } else {
      hide Jaccard;
      OverHalf(Jaccard(a, b), |a * b|, |a + b|);
    }
  }

  /** The verdict in counts of words and of keyword groups.  Two perspectives of different names
      support each other exactly when more than half of their words are common, or neither has
      any, or both touch a keyword group.  They contradict each other exactly when less than
      three in twenty words are common, they touch no group together, and, if both have words,
      they do not have the same name tokens.  A support weighs the share of common words, or
      what the groups and the names give if that is more; a contradiction is as severe as that
      falls short of 1, without the 0.2 added for groups. */
  lemma JudgeInCounts(a: Entry, b: Entry)
    ensures var common, all, topics := |a.words * b.words|, |a.words + b.words|, |Topics(a.words, b.words)|;
      && (Judge(a, b).Support? <==>
            a.perspective != b.perspective && (2 * common > all || all == 0 || topics > 0))
      && (Judge(a, b).Contradict? <==>
            && a.perspective != b.perspective && 20 * common < 3 * all && topics == 0
            && (a.words == {} || b.words == {} || a.names != b.names || a.names == {}))
    ensures Judge(a, b).Support? ==>
      Judge(a, b).weight == if a.words + b.words == {} then 1.0 else Max(Share(a.words, b.words), TopicWeight(a, b))
    ensures Judge(a, b).Contradict? ==>
      Judge(a, b).severity == 1.0 - Max(Share(a.words, b.words), TopicWeight(a, b) - 0.2)
  {
    JudgeExactly(a, b);
    JaccardThresholds(a.words, b.words);
    JaccardRange(a.words, b.words);
    TopicsCounts(a.words, b.words);
    CouplingWeight(a, b);
    CouplingRange(a.words, b.words, a.names, b.names);
    assert |a.words + b.words| == 0 <==> a.words + b.words == {};
    assert a.words + b.words == {} <==> a.words == {} && b.words == {};
    hide Jaccard, Coupling, ShareTopic, Share, Topics, TopicWeight;
  }

  // ----- Deliberation -----

  datatype Perspective = Perspective(content: Option<string>, perspective: Option<string>)

  function ContentOf(p: Perspective): string {
    if p.content.Some? then p.content.value else ""
  }

  function NameOf(p: Perspective): string {
    if p.perspective.Some? then p.perspective.value else "unknown"
  }

  const FULL_LENGTH := 500

  /** Longer answers are trusted more, up to 500 characters. */
  function ConfidenceIn(content: string): real {
    if content == "" then 0.0 else Min(1.0, |content| as real / FULL_LENGTH as real)
  }

  /** It is zero only for an empty answer, grows with the length, and is full from 500 on. */
  lemma ConfidenceGrows(shorter: string, longer: string)
    requires |shorter| <= |longer|
    ensures 0.0 <= ConfidenceIn(shorter) <= ConfidenceIn(longer) <= 1.0
    ensures ConfidenceIn(shorter) == 0.0 <==> shorter == ""
    ensures ConfidenceIn(shorter) == 1.0 <==> |shorter| >= FULL_LENGTH
    ensures |shorter| < |longer| && |shorter| < FULL_LENGTH ==> ConfidenceIn(shorter) < ConfidenceIn(longer)
  {
  }

  function Claim(content: string): string {
    if |content| > FULL_LENGTH then content[..FULL_LENGTH] else content
  }

  // ----- The pass over pairs -----

  function Clash(x: Entry, y: Entry): seq<Contradiction> {
    var v := Judge(x, y);
    if v.Contradict? then [Contradiction(x.id, y.id, v.severity)] else []
  }

  /** One contradiction, with the two sides in the order compared and the severity judged. */
  lemma ClashExactly(x: Entry, y: Entry)
    ensures Judge(x, y).Contradict? ==>
      && |Clash(x, y)| == 1 && Clash(x, y)[0].hypothesisA == x.id && Clash(x, y)[0].hypothesisB == y.id
      && Clash(x, y)[0].severity == Judge(x, y).severity
    ensures !Judge(x, y).Contradict? ==> Clash(x, y) == []
  {
    hide Judge;
  }

  /** The contradictions of one hypothesis with the later ones below column, in order. */
  function RowClashes(entries: seq<Entry>, row: nat, column: nat): seq<Contradiction>
    requires row < |entries| && column <= |entries|
  {
    if column <= row + 1 then [] else RowClashes(entries, row, column - 1) + Clash(entries[row], entries[column - 1])
  }

  function Clashes(entries: seq<Entry>, rows: nat): seq<Contradiction>
    requires rows <= |entries|
  {
    if rows == 0 then [] else Clashes(entries, rows - 1) + RowClashes(entries, rows - 1, |entries|)
  }

  /** Hypotheses i and j have been compared once the pass over pairs has reached (row, column). */
  predicate Compared(i: nat, j: nat, row: nat, column: nat) {
    i < j && (i < row || (i == row && j < column))
  }

  ghost predicate PairJudged(supports: map<Pair, real>, x: Entry, y: Entry, compared: bool) {
    var v := Judge(x, y);
    && ((x.id, y.id) in supports <==> compared && v.Support?)
    && ((y.id, x.id) in supports <==> compared && v.Support?)
    && (compared && v.Support? ==> supports[(x.id, y.id)] == supports[(y.id, x.id)] == v.weight)
  }

  /** Exactly the compared pairs that support each other have edges, one each way, of equal weight. */
  ghost predicate SupportsJudged(supports: map<Pair, real>, entries: seq<Entry>, row: nat, column: nat) {
    && (forall e :: e in supports ==> e.0 != e.1)
    && (forall i, j :: 0 <= i < j < |entries| ==>
          PairJudged(supports, entries[i], entries[j], Compared(i, j, row, column)))
  }

  ghost predicate DistinctIds(entries: seq<Entry>) {
    forall i, j :: 0 <= i < j < |entries| ==> entries[i].id != entries[j].id
  }

  /** The step for one pair: both edges are set when the verdict is support. */
  lemma SupportStep(before: map<Pair, real>, after: map<Pair, real>, entries: seq<Entry>, row: nat, column: nat)
    requires row < column < |entries| && DistinctIds(entries) && SupportsJudged(before, entries, row, column)
    requires var x, y := entries[row], entries[column];
      after == if Judge(x, y).Support?
               then before[(x.id, y.id) := Judge(x, y).weight][(y.id, x.id) := Judge(x, y).weight] else before
    ensures SupportsJudged(after, entries, row, column + 1)
  {
    hide Judge;
    forall i, j | 0 <= i < j < |entries|
      ensures PairJudged(after, entries[i], entries[j], Compared(i, j, row, column + 1)) {
      assert PairJudged(before, entries[i], entries[j], Compared(i, j, row, column));
    }
  }

  /** The end of a row is the start of the next. */
  lemma SupportRow(supports: map<Pair, real>, entries: seq<Entry>, row: nat)
    requires row < |entries| && SupportsJudged(supports, entries, row, |entries|)
    ensures SupportsJudged(supports, entries, row + 1, row + 2)
  {
    hide PairJudged;
    forall i, j | 0 <= i < j < |entries|
      ensures PairJudged(supports, entries[i], entries[j], Compared(i, j, row + 1, row + 2)) {
      assert Compared(i, j, row, |entries|) == Compared(i, j, row + 1, row + 2);
    }
  }

  lemma SupportEnd(supports: map<Pair, real>, entries: seq<Entry>, column: nat)
    requires SupportsJudged(supports, entries, |entries|, column)
    ensures SupportsJudged(supports, entries, |entries|, |entries|)
  {
    hide PairJudged;
    forall i, j | 0 <= i < j < |entries|
      ensures PairJudged(supports, entries[i], entries[j], Compared(i, j, |entries|, |entries|)) {
      assert Compared(i, j, |entries|, column) == Compared(i, j, |entries|, |entries|);
    }
  }

  ghost predicate InRow(entries: seq<Entry>, row: nat, column: nat, c: Contradiction)
    requires row < |entries| && column <= |entries|
  {
    exists j :: row < j < column && c in Clash(entries[row], entries[j])
  }

  lemma {:induction false} RowClashesExactly(entries: seq<Entry>, row: nat, column: nat, c: Contradiction)
    requires row < |entries| && column <= |entries|
    ensures c in RowClashes(entries, row, column) <==> InRow(entries, row, column, c)
  {
    hide Clash;
    if column > row + 1 {
      RowClashesExactly(entries, row, column - 1, c);
      assert c in Clash(entries[row], entries[column - 1]) ==> row < column - 1 < column;
    }
  }

  /** A contradiction is recorded exactly for the pairs judged contradictory. */
  lemma {:induction false} ClashesExactly(entries: seq<Entry>, rows: nat, c: Contradiction)
    requires rows <= |entries|
    ensures c in Clashes(entries, rows) <==> exists i :: 0 <= i < rows && InRow(entries, i, |entries|, c)
  {
    hide Clash, RowClashes, InRow;
    if rows == 0 {
    } else {
      ClashesExactly(entries, rows - 1, c);
      RowClashesExactly(entries, rows - 1, |entries|, c);
    }
  }

  predicate Earlier(p: (nat, nat), q: (nat, nat)) {
    p.0 < q.0 || (p.0 == q.0 && p.1 < q.1)
  }

  /** found holds the clashes of the pairs at the given places, which are in order. */
  ghost predicate ClashesOf(entries: seq<Entry>, pairs: seq<(nat, nat)>, found: seq<Contradiction>) {
    && |pairs| == |found|
    && (forall k :: 0 <= k < |pairs| ==>
          pairs[k].0 < pairs[k].1 < |entries| && Clash(entries[pairs[k].0], entries[pairs[k].1]) == [found[k]])
    && forall k, m :: 0 <= k < m < |pairs| ==> Earlier(pairs[k], pairs[m])
  }

  lemma ClashesOneMore(entries: seq<Entry>, pairs: seq<(nat, nat)>, found: seq<Contradiction>, i: nat, j: nat)
    requires ClashesOf(entries, pairs, found) && i < j < |entries|
    requires forall k :: 0 <= k < |pairs| ==> Earlier(pairs[k], (i, j))
    ensures ClashesOf(entries, if Clash(entries[i], entries[j]) == [] then pairs else pairs + [(i, j)],
                      found + Clash(entries[i], entries[j]))
  {
    assert |Clash(entries[i], entries[j])| <= 1;
    hide Clash;
  }

  /** The contradictions found up to a place of the pass over pairs. */
  lemma {:induction false} RowClashesInOrder(entries: seq<Entry>, row: nat, column: nat, pairs: seq<(nat, nat)>,
                                             found: seq<Contradiction>) returns (more: seq<(nat, nat)>)
    requires row < |entries| && column <= |entries| && ClashesOf(entries, pairs, found)
    requires forall k :: 0 <= k < |pairs| ==> pairs[k].0 < row
    ensures ClashesOf(entries, more, found + RowClashes(entries, row, column))
    ensures forall k :: 0 <= k < |more| ==> Earlier(more[k], (row, if column <= row then row + 1 else column))
  {
    hide Clash, ClashesOf;
    if column <= row + 1 {
      more := pairs;
      assert found + RowClashes(entries, row, column) == found;
    } else {
      var before := RowClashesInOrder(entries, row, column - 1, pairs, found);
      var all := found + RowClashes(entries, row, column - 1);
      ClashesOneMore(entries, before, all, row, column - 1);
      var last := Clash(entries[row], entries[column - 1]);
      assert found + RowClashes(entries, row, column) == all + last;
      more := if last == [] then before else before + [(row, column - 1)];
    }
  }

  /** The contradictions are listed row by row, and within a row column by column. */
  lemma {:induction false} ClashesInOrder(entries: seq<Entry>, rows: nat) returns (pairs: seq<(nat, nat)>)
    requires rows <= |entries|
    ensures ClashesOf(entries, pairs, Clashes(entries, rows)) && forall k :: 0 <= k < |pairs| ==> pairs[k].0 < rows
  {
    if rows == 0 {
      pairs := [];
    } else {
      hide ClashesOf, RowClashes;
      pairs := ClashesInOrder(entries, rows - 1);
      pairs := RowClashesInOrder(entries, rows - 1, |entries|, pairs, Clashes(entries, rows - 1));
    }
  }

  // ----- What one deliberation leaves in the graph -----

  function MakeEntry(id: Id, p: Perspective, words: string -> Words, names: string -> Words): Entry {
    Entry(id, NameOf(p), words(ContentOf(p)), names(NameOf(p)))
  }

  function MakeHypothesis(id: Id, p: Perspective): Hypothesis {
    Hypothesis(id, Claim(ContentOf(p)), NameOf(p), ConfidenceIn(ContentOf(p)))
  }

  function Entries(ps: seq<Perspective>, ids: seq<Id>, words: string -> Words,
                   names: string -> Words): (entries: seq<Entry>)
    requires |ids| == |ps|
    ensures |entries| == |ps| && forall i :: 0 <= i < |ps| ==> entries[i].id == ids[i]
  {
    seq(|ps|, i requires 0 <= i < |ps| => MakeEntry(ids[i], ps[i], words, names))
  }

  /** The hypothesis made of an answer: its first 500 characters, confident in proportion to
      its length up to that many; a missing answer is empty and a missing name "unknown". */
  lemma HypothesisOf(id: Id, p: Perspective)
    ensures var h := MakeHypothesis(id, p);
      var content := if p.content.Some? then p.content.value else "";
      var length := if |content| < 500 then |content| else 500;
      && h.id == id && h.claim <= content && |h.claim| == length && h.confidence * 500.0 == length as real
      && h.perspective == if p.perspective.Some? then p.perspective.value else "unknown"
  {
  }

  /** What is compared of an answer: the words of all of it, and the tokens of its name. */
  lemma EntriesExactly(ps: seq<Perspective>, ids: seq<Id>, words: string -> Words, names: string -> Words, i: nat)
    requires |ids| == |ps| && i < |ps|
    ensures var e := Entries(ps, ids, words, names)[i];
      var name := if ps[i].perspective.Some? then ps[i].perspective.value else "unknown";
      && e.id == ids[i] && e.perspective == name && e.names == names(name)
      && e.words == words(if ps[i].content.Some? then ps[i].content.value else "")
  {
  }

  ghost predicate Posed(b: Board, ps: seq<Perspective>, ids: seq<Id>)
    requires |ids| == |ps|
  {
    && b.order == ids
    && forall i :: 0 <= i < |ps| ==> ids[i] in b.hypotheses && b.hypotheses[ids[i]] == MakeHypothesis(ids[i], ps[i])
  }

  /** x supports y exactly when they are judged to support each other, with the weight judged. */
  ghost predicate Joined(supports: map<Pair, real>, x: Entry, y: Entry, different: bool) {
    var v := Judge(x, y);
    && ((x.id, y.id) in supports <==> different && v.Support?)
    && ((x.id, y.id) in supports ==> supports[(x.id, y.id)] == v.weight)
  }

  /** Two different hypotheses are joined exactly when they are judged to support each other. */
  ghost predicate SupportsAreVerdicts(b: Board, entries: seq<Entry>) {
    && Symmetric(b.supports)
    && forall i, j :: 0 <= i < |entries| && 0 <= j < |entries| ==>
         Joined(b.supports, entries[i], entries[j], i != j)
  }

  lemma JudgedSupports(b: Board, entries: seq<Entry>)
    requires ValidBoard(b) && |b.order| == |entries| && (forall i :: 0 <= i < |entries| ==> entries[i].id == b.order[i])
    requires SupportsJudged(b.supports, entries, |entries|, |entries|)
    ensures SupportsAreVerdicts(b, entries)
  {
    var n := |entries|;
    forall i, j | 0 <= i < n && 0 <= j < n
      ensures Joined(b.supports, entries[i], entries[j], i != j)
      ensures (entries[i].id, entries[j].id) in b.supports <==> (entries[j].id, entries[i].id) in b.supports {
      JudgeExactly(entries[i], entries[j]);
      hide Judge;
      if i < j {
        assert PairJudged(b.supports, entries[i], entries[j], Compared(i, j, n, n));
      } else if j < i {
        assert PairJudged(b.supports, entries[j], entries[i], Compared(j, i, n, n));
      }
    }
    forall e | e in b.supports ensures (e.1, e.0) in b.supports {
      assert e.0 in Elements(b.order) && e.1 in Elements(b.order);
      var i, j :| 0 <= i < n && b.order[i] == e.0 && 0 <= j < n && b.order[j] == e.1;
      assert (entries[i].id, entries[j].id) == e;
    }
  }

  /** No other perspective supports this one. */
  ghost predicate Alone(entries: seq<Entry>, i: nat)
    requires i < |entries|
  {
    forall j :: 0 <= j < |entries| && j != i ==> !Judge(entries[i], entries[j]).Support?
  }

  lemma IsolatedAreAlone(b: Board, entries: seq<Entry>, i: nat)
    requires ValidBoard(b) && |b.order| == |entries| && (forall k :: 0 <= k < |entries| ==> entries[k].id == b.order[k])
    requires SupportsAreVerdicts(b, entries) && i < |entries|
    ensures IsIsolated(b, entries[i].id) <==> Alone(entries, i)
  {
    hide Judge;
    var u := entries[i].id;
    if IsIsolated(b, u) {
      forall j | 0 <= j < |entries| && j != i ensures !Judge(entries[i], entries[j]).Support? {
        assert Joined(b.supports, entries[i], entries[j], i != j);
        assert (entries[i].id, entries[j].id) !in b.supports;
      }
    } else {
      var e :| e in b.supports && (e.0 == u || e.1 == u);
      var v := if e.0 == u then e.1 else e.0;
      assert (u, v) in b.supports && v in Elements(b.order);
      var j :| 0 <= j < |entries| && b.order[j] == v;
      assert (entries[i].id, entries[j].id) in b.supports;
      assert Joined(b.supports, entries[i], entries[j], i != j);
    }
  }

  datatype Outcome = Outcome(consensus: Consensus, ranked: seq<Ranked>, contradictions: seq<Contradiction>)

  /** The consensus of one deliberation.  If some perspective stands alone, the value of the
      flow is the total confidence of those that do and the winner is the first of them with
      the greatest confidence, or nobody when none has any; otherwise it is the top of the
      ranking. */
  lemma ConsensusOfVerdicts(b: Board, entries: seq<Entry>, c: Consensus)
    requires ValidBoard(b) && |b.order| == |entries| > 0
    requires forall i :: 0 <= i < |entries| ==> entries[i].id == b.order[i]
    requires SupportsAreVerdicts(b, entries) && IsConsensus(b, c)
    ensures forall i :: 0 <= i < |entries| ==> (entries[i].id in Roots(b) <==> Alone(entries, i))
    ensures Roots(b) == [] <==> forall i :: 0 <= i < |entries| ==> !Alone(entries, i)
    ensures SymmetricOutcome(b, c)
  {
    hide IsConsensus, SymmetricOutcome, Judge, Joined, Symmetric;
    assert Symmetric(b.supports);
    SymmetricConsensus(b, c);
    forall i | 0 <= i < |entries| ensures entries[i].id in Roots(b) <==> Alone(entries, i) {
      IsolatedAreAlone(b, entries, i);
    }
    if Roots(b) != [] {
      var u := Roots(b)[0];
      assert IsIsolated(b, u) && u in b.order;
      hide Roots, IsIsolated, ValidBoard, SupportsAreVerdicts, Alone;
      var i :| 0 <= i < |b.order| && b.order[i] == u;
      assert entries[i].id in Roots(b);
    }
  }

  datatype Resolution = Resolution(contradiction: Contradiction, winner: Hypothesis)

  /** The side of a contradiction with the higher confidence, the first one on a tie; a
      contradiction with a missing side is skipped. */
  function Resolve(hypotheses: map<Id, Hypothesis>, c: Contradiction): (r: seq<Resolution>)
  {
    if c.hypothesisA !in hypotheses || c.hypothesisB !in hypotheses then []
    else
      var a, b := hypotheses[c.hypothesisA], hypotheses[c.hypothesisB];
      [Resolution(c, if a.confidence >= b.confidence then a else b)]
  }

  function Resolutions(hypotheses: map<Id, Hypothesis>, cs: seq<Contradiction>): seq<Resolution> {
    if cs == [] then []
    else Resolutions(hypotheses, cs[..|cs| - 1]) + Resolve(hypotheses, cs[|cs| - 1])
  }

  /** A contradiction with both sides known is resolved in favour of the more confident one, or
      of the first on a tie; one with an unknown side is skipped. */
  lemma ResolveExactly(hypotheses: map<Id, Hypothesis>, c: Contradiction)
    ensures Resolve(hypotheses, c) == [] <==> c.hypothesisA !in hypotheses || c.hypothesisB !in hypotheses
    ensures c.hypothesisA in hypotheses && c.hypothesisB in hypotheses ==>
      var a, b := hypotheses[c.hypothesisA], hypotheses[c.hypothesisB];
      && (b.confidence <= a.confidence ==> Resolve(hypotheses, c) == [Resolution(c, a)])
      && (b.confidence > a.confidence ==> Resolve(hypotheses, c) == [Resolution(c, b)])
  {
  }

  lemma {:induction false} ResolutionsConcat(hypotheses: map<Id, Hypothesis>, cs: seq<Contradiction>,
                                             more: seq<Contradiction>)
    ensures Resolutions(hypotheses, cs + more) == Resolutions(hypotheses, cs) + Resolutions(hypotheses, more)
  {
    hide Resolve;
    if more == [] {
      assert cs + more == cs;
    } else {
      assert (cs + more)[..|cs + more| - 1] == cs + more[..|more| - 1];
      ResolutionsConcat(hypotheses, cs, more[..|more| - 1]);
    }
  }

  /** When both sides of every contradiction are known none is skipped, and no winner is less
      confident than either side. */
  lemma {:induction false} ResolutionsAreFair(hypotheses: map<Id, Hypothesis>, cs: seq<Contradiction>)
    requires forall c :: c in cs ==> c.hypothesisA in hypotheses && c.hypothesisB in hypotheses
    ensures |Resolutions(hypotheses, cs)| == |cs|
    ensures forall i :: 0 <= i < |cs| ==>
      var r, a, b := Resolutions(hypotheses, cs)[i], cs[i].hypothesisA, cs[i].hypothesisB;
      && cs[i] in cs && r.contradiction == cs[i] && r.winner in {hypotheses[a], hypotheses[b]}
      && r.winner.confidence >= hypotheses[a].confidence && r.winner.confidence >= hypotheses[b].confidence
  {
    if cs == [] {
    } else {
      var rest, last := cs[..|cs| - 1], cs[|cs| - 1];
      assert cs == rest + [last];
      assert forall i :: 0 <= i < |rest| ==> rest[i] == cs[i] && cs[i] in cs;
      assert last in cs;
      ResolutionsAreFair(hypotheses, rest);
    }
  }

  lemma IdIsFresh(b: Board, ids: seq<Id>, i: nat)
    requires ValidBoard(b) && NoDup(ids) && i < |ids| && b.order == ids[..i]
    ensures ids[i] !in b.hypotheses
  {
    assert ids[i] !in Elements(ids[..i]);
  }

  lemma PoseStep(before: Board, after: Board, ps: seq<Perspective>, ids: seq<Id>, i: nat)
    requires |ids| == |ps| && i < |ps| && Posed(before, ps[..i], ids[..i]) && ids[i] !in before.hypotheses
    requires after.order == before.order + [ids[i]]
    requires after.hypotheses == before.hypotheses[ids[i] :=
      Hypothesis(ids[i], Claim(ContentOf(ps[i])), NameOf(ps[i]), Clamp(0.0, 1.0, ConfidenceIn(ContentOf(ps[i]))))]
    ensures Posed(after, ps[..i + 1], ids[..i + 1])
  {
    assert ids[..i + 1] == ids[..i] + [ids[i]] && ps[..i + 1] == ps[..i] + [ps[i]];
    forall k | 0 <= k < i
      ensures ids[k] in before.hypotheses && before.hypotheses[ids[k]] == MakeHypothesis(ids[k], ps[k]) {
      assert ids[..i][k] == ids[k] && ps[..i][k] == ps[k];
    }
  }

  // ----- The engine -----

  lemma NothingJudged(entries: seq<Entry>)
    ensures SupportsJudged(map[], entries, 0, 1)
  {
  }

  lemma {:induction false} SevereKeepsAll(cs: seq<Contradiction>, threshold: real)
    requires forall c :: c in cs ==> c.severity >= threshold
    ensures Severe(cs, threshold) == cs
  {
    if cs == [] {
    } else {
      var rest, last := cs[..|cs| - 1], cs[|cs| - 1];
      assert cs == rest + [last] && last in cs;
      forall c | c in rest ensures c.severity >= threshold {
        assert c in cs;
      }
      SevereKeepsAll(rest, threshold);
    }
  }

  /** Every recorded contradiction is above the default threshold. */
  lemma {:induction false} AllAreSevere(entries: seq<Entry>, rows: nat)
    requires rows <= |entries|
    ensures Severe(Clashes(entries, rows), 0.3) == Clashes(entries, rows)
  {
    forall c | c in Clashes(entries, rows) ensures c.severity >= 0.3 {
      ClashesExactly(entries, rows, c);
      var i :| 0 <= i < rows && InRow(entries, i, |entries|, c);
      var j :| i < j < |entries| && c in Clash(entries[i], entries[j]);
      JudgeExactly(entries[i], entries[j]);
    }
    SevereKeepsAll(Clashes(entries, rows), 0.3);
  }

  class Engine {
    const graph: DeliberationGraph
    const words: string -> Words
    const names: string -> Words

    ghost predicate Valid()
      reads this, graph
    {
      graph.Valid()
    }

    constructor (words: string -> Words, names: string -> Words)
      ensures Valid() && fresh(graph) && graph.Contents() == Board([], map[], map[], [])
      ensures this.words == words && this.names == names
    {
      graph := new DeliberationGraph();
      this.words, this.names := words, names;
    }

    /** The first phase: one hypothesis for each perspective. */
    method Pose(ps: seq<Perspective>, ids: seq<Id>)
      requires |ids| == |ps| && NoDup(ids)
      modifies graph
      ensures Valid() && Posed(graph.Contents(), ps, ids)
      ensures graph.supports == map[] && graph.contradictions == []
    {
      graph.Clear();
      for i := 0 to |ps|
        invariant Valid() && graph.supports == map[] && graph.contradictions == []
        invariant Posed(graph.Contents(), ps[..i], ids[..i])
      {
        var content := ContentOf(ps[i]);
        IdIsFresh(graph.Contents(), ids, i);
        ghost var before := graph.Contents();
        hide ValidBoard, Posed, MakeHypothesis, NoDup;
        var h := graph.AddHypothesis(ids[i], Claim(content), NameOf(ps[i]), ConfidenceIn(content));
        PoseStep(before, graph.Contents(), ps, ids, i);
      }
      assert ps[..|ps|] == ps && ids[..|ids|] == ids;
    }

    /** The comparison of one pair. */
    method Compare(x: Entry, y: Entry)
      requires Valid() && x.id in graph.hypotheses && y.id in graph.hypotheses
      modifies graph
      ensures Valid() && graph.order == old(graph.order) && graph.hypotheses == old(graph.hypotheses)
      ensures graph.contradictions == old(graph.contradictions) + Clash(x, y)
      ensures var v := Judge(x, y);
        graph.supports == if v.Support? then old(graph.supports)[(x.id, y.id) := v.weight][(y.id, x.id) := v.weight]
                          else old(graph.supports)
    {
      hide Jaccard, Coupling, ShareTopic, ValidBoard, Max, Min, DeliberationGraph.Valid;
      JudgeExactly(x, y);
      if x.perspective == y.perspective {
        return;
      }
      var jaccard := Jaccard(x.words, y.words);
      var coupling := Coupling(x.words, y.words, x.names, y.names);
      var similarity := Max(jaccard, coupling);
      if similarity < 0.15 {
        var c := graph.AddContradiction(x.id, y.id, 1.0 - similarity);
      } else if jaccard > 0.5 || coupling >= 0.35 {
        var weight := Max(jaccard, Min(0.8, coupling + 0.2));
        graph.AddSupport(x.id, y.id, weight);
        graph.AddSupport(y.id, x.id, weight);
      }
    }

    /** The second phase: every pair, row by row. */
    method CompareAll(entries: seq<Entry>)
      requires Valid() && graph.supports == map[] && graph.contradictions == []
      requires DistinctIds(entries) && forall i :: 0 <= i < |entries| ==> entries[i].id in graph.hypotheses
      modifies graph
      ensures Valid() && graph.order == old(graph.order) && graph.hypotheses == old(graph.hypotheses)
      ensures SupportsJudged(graph.supports, entries, |entries|, |entries|)
      ensures graph.contradictions == Clashes(entries, |entries|)
    {
      hide Judge, Clash, ValidBoard, SupportsJudged, DeliberationGraph.Valid;
      var n := |entries|;
      NothingJudged(entries);
      for i := 0 to n
        invariant Valid() && graph.order == old(graph.order) && graph.hypotheses == old(graph.hypotheses)
        invariant SupportsJudged(graph.supports, entries, i, i + 1)
        invariant graph.contradictions == Clashes(entries, i)
      {
        for j := i + 1 to n
          invariant Valid() && graph.order == old(graph.order) && graph.hypotheses == old(graph.hypotheses)
          invariant SupportsJudged(graph.supports, entries, i, j)
          invariant graph.contradictions == Clashes(entries, i) + RowClashes(entries, i, j)
        {
          ghost var before := graph.supports;
          Compare(entries[i], entries[j]);
          SupportStep(before, graph.supports, entries, i, j);
        }
        SupportRow(graph.supports, entries, i);
      }
      SupportEnd(graph.supports, entries, n + 1);
    }

    method Deliberate(ps: seq<Perspective>, ids: seq<Id>, solver: Network -> (real, Flow)) returns (outcome: Outcome)
      requires |ids| == |ps| && NoDup(ids) && IsSolver(solver)
      modifies graph
      ensures Valid() && Posed(graph.Contents(), ps, ids)
      ensures SupportsAreVerdicts(graph.Contents(), Entries(ps, ids, words, names))
      ensures outcome.contradictions == graph.contradictions == Clashes(Entries(ps, ids, words, names), |ps|)
      ensures IsConsensus(graph.Contents(), outcome.consensus)
      ensures Known(graph.Contents()) && outcome.ranked == Sort(Scored(graph.Contents()), Descending)
    {
      var entries := Entries(ps, ids, words, names);
      Pose(ps, ids);
      CompareAll(entries);
      JudgedSupports(graph.Contents(), entries);
      var consensus := graph.MaxFlowConsensus(solver);
      var ranked := graph.RankHypotheses();
      var found := graph.DetectContradictions(0.3);
      AllAreSevere(entries, |entries|);
      outcome := Outcome(consensus, ranked, found);
    }

    /** Without an argument, the contradictions of the graph are resolved. */
    method ResolveContradictions(contradictions: Option<seq<Contradiction>>) returns (resolutions: seq<Resolution>)
      ensures resolutions ==
        Resolutions(graph.hypotheses, if contradictions.Some? then contradictions.value else graph.contradictions)
    {
      var cs := if contradictions.Some? then contradictions.value else graph.contradictions;
      resolutions := [];
      for i := 0 to |cs|
        invariant resolutions == Resolutions(graph.hypotheses, cs[..i])
      {
        assert cs[..i + 1][..i] == cs[..i];
        var c := cs[i];
        if c.hypothesisA !in graph.hypotheses || c.hypothesisB !in graph.hypotheses {
          continue;
        }
        var a, b := graph.hypotheses[c.hypothesisA], graph.hypotheses[c.hypothesisB];
        resolutions := resolutions + [Resolution(c, if a.confidence >= b.confidence then a else b)];
      }
      assert cs[..|cs|] == cs;
    }
  }
}
