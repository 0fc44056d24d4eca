/** Sequences without repetition, and sets listed as such sequences. */
module Sequences {
  ghost predicate NoDup<T(!new)>(s: seq<T>) {
    forall i, j :: 0 <= i < j < |s| ==> s[i] != s[j]
  }

  function Elements<T>(s: seq<T>): set<T> {
    set x | x in s
  }

  lemma NoDupAppend<T(!new)>(s: seq<T>, x: T)
    requires NoDup(s) && x !in s
    ensures NoDup(s + [x]) && Elements(s + [x]) == Elements(s) + {x}
  {
  }

  lemma {:induction false} NoDupCardinality<T(!new)>(s: seq<T>)
    requires NoDup(s)
    ensures |Elements(s)| == |s|
  {
    if s == [] {
    } else {
      var t := s[..|s| - 1];
      NoDupCardinality(t);
      assert s == t + [s[|s| - 1]];
      assert Elements(s) == Elements(t) + {s[|s| - 1]};
    }
  }

  lemma {:induction false} SubsetSize<T>(x: set<T>, y: set<T>)
    requires x <= y
    ensures |x| <= |y|
    ensures |x| == |y| ==> x == y
    decreases x
  {
    if x == {} {
    } else {
      var e :| e in x;
      SubsetSize(x - {e}, y - {e});
    }
  }

  // ----- Filtering -----

  function Filter<T>(s: seq<T>, keep: T -> bool): seq<T> {
    if s == [] then []
    else Filter(s[..|s| - 1], keep) + if keep(s[|s| - 1]) then [s[|s| - 1]] else []
  }

  /** pos lists the positions of the elements to keep, in ascending order. */
  ghost predicate Lists<T>(pos: seq<nat>, s: seq<T>, keep: T -> bool) {
    && (forall i, j :: 0 <= i < j < |pos| ==> pos[i] < pos[j])
    && (forall k :: 0 <= k < |pos| ==> pos[k] < |s| && keep(s[pos[k]]))
    && (forall i: nat :: i < |s| && keep(s[i]) ==> i in pos)
  }

  /** picked holds the elements at the given positions. */
  ghost predicate Picked<T>(pos: seq<nat>, s: seq<T>, picked: seq<T>) {
    |picked| == |pos| && forall k :: 0 <= k < |pos| ==> pos[k] < |s| && picked[k] == s[pos[k]]
  }

  lemma ListsOneMore<T>(pos: seq<nat>, s: seq<T>, x: T, keep: T -> bool)
    requires Lists(pos, s, keep)
    ensures Lists(if keep(x) then pos + [|s|] else pos, s + [x], keep)
  {
    var longer := s + [x];
    var next := if keep(x) then pos + [|s|] else pos;
    forall i: nat | i < |longer| && keep(longer[i]) ensures i in next {
      if i < |s| {
        assert longer[i] == s[i] && i in pos;
      } else {
        assert next[|pos|] == i;
      }
    }
  }

  lemma PickedOneMore<T>(pos: seq<nat>, s: seq<T>, picked: seq<T>, x: T)
    requires Picked(pos, s, picked)
    ensures Picked(pos, s + [x], picked) && Picked(pos + [|s|], s + [x], picked + [x])
  {
  }

  /** Filtering yields the elements to keep, all of them, in order. */
  lemma {:induction false} FilterInOrder<T>(s: seq<T>, keep: T -> bool) returns (pos: seq<nat>)
    ensures Lists(pos, s, keep) && Picked(pos, s, Filter(s, keep))
  {
    if s == [] {
      pos := [];
    } else {
      var rest, x := s[..|s| - 1], s[|s| - 1];
      pos := FilterInOrder(rest, keep);
      hide Lists, Picked;
      assert rest + [x] == s;
      ListsOneMore(pos, rest, x, keep);
      PickedOneMore(pos, rest, Filter(rest, keep), x);
      pos := if keep(x) then pos + [|rest|] else pos;
    }
  }

  /** The elements of a set in some order: what a query, or iterating a dictionary, yields
      when the order is not specified. */
  method Rows<T(==, !new)>(selected: set<T>) returns (rows: seq<T>)
    ensures NoDup(rows) && forall x :: x in rows <==> x in selected
  {
    rows := [];
    var left := selected;
    while left != {}
      invariant NoDup(rows) && left <= selected
      invariant forall x :: x in rows <==> x in selected && x !in left
      decreases left
    {
      var x :| x in left;
      rows, left := rows + [x], left - {x};
    }
  }
}
