/** Finite sums of reals. */
module Sums {
  ghost function Sum<T(!new)>(s: set<T>, f: T -> real): real {
    if s == {} then 0.0
    else
      var x :| x in s;
      f(x) + Sum(s - {x}, f)
  }

  lemma {:induction false} SumPick<T(!new)>(s: set<T>, f: T -> real, x: T)
    requires x in s
    ensures Sum(s, f) == f(x) + Sum(s - {x}, f)
    decreases s
  {
    var y :| y in s && Sum(s, f) == f(y) + Sum(s - {y}, f);
    if y != x {
      SumPick(s - {y}, f, x);
      SumPick(s - {x}, f, y);
      assert s - {y} - {x} == s - {x} - {y};
    }
  }

  lemma {:induction false} SumSame<T(!new)>(s: set<T>, f: T -> real, g: T -> real)
    requires forall x :: x in s ==> f(x) == g(x)
    ensures Sum(s, f) == Sum(s, g)
    decreases s
  {
    if s == {} {
    } else {
      var x :| x in s;
      SumPick(s, f, x);
      SumPick(s, g, x);
      SumSame(s - {x}, f, g);
    }
  }

  lemma {:induction false} SumLe<T(!new)>(s: set<T>, f: T -> real, g: T -> real)
    requires forall x :: x in s ==> f(x) <= g(x)
    ensures Sum(s, f) <= Sum(s, g)
    ensures Sum(s, f) == Sum(s, g) ==> forall x :: x in s ==> f(x) == g(x)
    decreases s
  {
    if s == {} {
    } else {
      var x :| x in s;
      SumPick(s, f, x);
      SumPick(s, g, x);
      SumLe(s - {x}, f, g);
    }
  }

  lemma {:induction false} SumBounded<T(!new)>(s: set<T>, f: T -> real, c: real)
    requires forall x :: x in s ==> f(x) <= c
    ensures Sum(s, f) <= |s| as real * c
    decreases s
  {
    if s == {} {
    } else {
      var x :| x in s;
      SumPick(s, f, x);
      SumBounded(s - {x}, f, c);
      assert |s - {x}| == |s| - 1;
    }
  }

  lemma {:induction false} SumUnion<T(!new)>(s: set<T>, t: set<T>, f: T -> real)
    requires s !! t
    ensures Sum(s + t, f) == Sum(s, f) + Sum(t, f)
    decreases s
  {
    if s == {} {
      assert s + t == t;
    } else {
      var x :| x in s;
      SumPick(s, f, x);
      SumPick(s + t, f, x);
      assert s + t - {x} == (s - {x}) + t;
      SumUnion(s - {x}, t, f);
    }
  }

  lemma {:induction false} SumPlus<T(!new)>(s: set<T>, f: T -> real, g: T -> real, h: T -> real)
    requires forall x :: x in s ==> h(x) == f(x) + g(x)
    ensures Sum(s, h) == Sum(s, f) + Sum(s, g)
    decreases s
  {
    if s == {} {
    } else {
      var x :| x in s;
      SumPick(s, f, x);
      SumPick(s, g, x);
      SumPick(s, h, x);
      SumPlus(s - {x}, f, g, h);
    }
  }

  lemma {:induction false} ZeroSum<T(!new)>(s: set<T>)
    ensures Sum<T>(s, _ => 0.0) == 0.0
    decreases s
  {
    if s == {} {
    } else {
      var x :| x in s;
      SumPick(s, _ => 0.0, x);
      ZeroSum(s - {x});
    }
  }

  lemma SumZero<T(!new)>(s: set<T>, f: T -> real)
    requires forall x :: x in s ==> f(x) == 0.0
    ensures Sum(s, f) == 0.0
  {
    SumLe(s, f, _ => 0.0);
    SumLe(s, _ => 0.0, f);
    ZeroSum(s);
  }

  ghost function Group<T(!new), U>(s: set<T>, key: T -> U, u: U): set<T> {
    set x | x in s && key(x) == u
  }

  /** Summing group by group: each element counts in the group of its key. */
  lemma {:induction false} SumGroups<T(!new), U(!new)>(s: set<T>, keys: set<U>, key: T -> U, f: T -> real, g: U -> real)
    requires forall x :: x in s ==> key(x) in keys
    requires forall u :: u in keys ==> g(u) == Sum(Group(s, key, u), f)
    ensures Sum(keys, g) == Sum(s, f)
    decreases keys
  {
    if keys == {} {
      assert s == {};
    } else {
      var u :| u in keys;
      var group := Group(s, key, u);
      var rest := s - group;
      forall v | v in keys - {u} ensures g(v) == Sum(Group(rest, key, v), f) {
        assert Group(s, key, v) == Group(rest, key, v);
      }
      SumGroups(rest, keys - {u}, key, f, g);
      SumPick(keys, g, u);
      SumUnion(group, rest, f);
      assert group + rest == s;
    }
  }

  /** Elements outside a subset that contribute nothing can be added. */
  lemma SumExtend<T(!new)>(s: set<T>, t: set<T>, f: T -> real)
    requires s <= t && forall x :: x in t - s ==> f(x) == 0.0
    ensures Sum(t, f) == Sum(s, f)
  {
    SumUnion(s, t - s, f);
    SumZero(t - s, f);
    assert s + (t - s) == t;
  }
}
