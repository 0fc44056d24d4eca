/** The bounded log of observed values behind set_variable. */
module ObservationLog {
  import opened Sequences
  import opened ObservationMatching

  datatype Entry = Entry(ts: real, variable: string, value: real)

  const LOG_LIMIT := 5000
  const LOG_KEPT := 2500

  /** Appending; a log grown past the limit keeps its most recent entries only. */
  function Logged(log: seq<Entry>, e: Entry): seq<Entry> {
    var longer := log + [e];
    if |longer| > LOG_LIMIT then longer[|longer| - LOG_KEPT..] else longer
  }

  /** The log after a whole history of observations. */
  function LogOf(history: seq<Entry>): seq<Entry> {
    if history == [] then [] else Logged(LogOf(history[..|history| - 1]), history[|history| - 1])
  }

  /** log is the end of the history: within the limit, and all of it or at least as many
      entries as trimming keeps. */
  ghost predicate Recent(history: seq<Entry>, log: seq<Entry>) {
    && |log| <= |history| && |log| <= LOG_LIMIT && (|log| == |history| || |log| >= LOG_KEPT)
    && log == history[|history| - |log|..]
  }

  lemma LoggedIsRecent(history: seq<Entry>, log: seq<Entry>, e: Entry)
    requires Recent(history, log)
    ensures Recent(history + [e], Logged(log, e))
  {
    var longer, whole := log + [e], history + [e];
    assert longer == whole[|whole| - |longer|..];
  }

  /** However long the history, the log is its recent end. */
  lemma {:induction false} LogIsRecent(history: seq<Entry>)
    ensures Recent(history, LogOf(history))
  {
    if history == [] {
    } else {
      hide Recent, Logged;
      var before, e := history[..|history| - 1], history[|history| - 1];
      LogIsRecent(before);
      LoggedIsRecent(before, LogOf(before), e);
      assert history == before + [e];
    }
  }

  lemma LoggedLength(log: seq<Entry>, e: Entry)
    ensures |Logged(log, e)| == if |log| < LOG_LIMIT then |log| + 1 else LOG_KEPT
  {
  }

  /** The log is full at 5000 entries; the next one leaves 2500 of them, so its length goes
      through the numbers from 2500 to 5000 again and again. */
  lemma {:induction false} LogLength(history: seq<Entry>)
    ensures |LogOf(history)| ==
      if |history| <= 5000 then |history| else 2500 + (|history| - 5001) % 2501
  {
    if history == [] {
    } else {
      hide Logged;
      LogLength(history[..|history| - 1]);
      LoggedLength(LogOf(history[..|history| - 1]), history[|history| - 1]);
    }
  }

  /** The observations of one variable, in the order logged. */
  function Series(log: seq<Entry>, variable: string): seq<Observation> {
    if log == [] then []
    else
      var e := log[|log| - 1];
      Series(log[..|log| - 1], variable) + if e.variable == variable then [Observation(e.ts, e.value)] else []
  }

  lemma {:induction false} SeriesIsFiltered(log: seq<Entry>, variable: string)
    ensures var kept := Filter(log, (e: Entry) => e.variable == variable);
      |Series(log, variable)| == |kept|
      && forall k :: 0 <= k < |kept| ==> Series(log, variable)[k] == Observation(kept[k].ts, kept[k].value)
  {
    if log == [] {
    } else {
      SeriesIsFiltered(log[..|log| - 1], variable);
    }
  }

  /** Its k-th observation is the k-th logged entry of the variable. */
  lemma SeriesInOrder(log: seq<Entry>, variable: string) returns (pos: seq<nat>)
    ensures Lists(pos, log, (e: Entry) => e.variable == variable) && |Series(log, variable)| == |pos|
    ensures forall k :: 0 <= k < |pos| ==>
      pos[k] < |log| && Series(log, variable)[k] == Observation(log[pos[k]].ts, log[pos[k]].value)
  {
    SeriesIsFiltered(log, variable);
    pos := FilterInOrder(log, (e: Entry) => e.variable == variable);
  }

  method ExtractSeries(log: seq<Entry>, variable: string) returns (series: seq<Observation>)
    ensures series == Series(log, variable)
  {
    series := [];
    for i := 0 to |log|
      invariant series == Series(log[..i], variable)
    {
      assert log[..i + 1][..i] == log[..i];
      if log[i].variable == variable {
        series := series + [Observation(log[i].ts, log[i].value)];
      }
    }
    assert log[..|log|] == log;
  }
}
