/** The order of strings by code points: that of sorted() and of ORDER BY on text. */
module StringOrder {

  predicate Precedes(a: string, b: string) {
    if b == [] then false
    else if a == [] then true
    else a[0] < b[0] || (a[0] == b[0] && Precedes(a[1..], b[1..]))
  }

  predicate Least(keys: set<string>, k: string) {
    k in keys && forall j :: j in keys ==> j == k || Precedes(k, j)
  }

  lemma {:induction false} PrecedesNotItself(a: string)
    ensures !Precedes(a, a)
  {
    if a == [] {
    } else {
      PrecedesNotItself(a[1..]);
    }
  }

  lemma {:induction false} PrecedesIsTotal(a: string, b: string)
    ensures a == b || Precedes(a, b) || Precedes(b, a)
    ensures !(Precedes(a, b) && Precedes(b, a)) && !Precedes(a, a)
  {
    if a == [] || b == [] {
      PrecedesNotItself(a);
    } else {
      PrecedesIsTotal(a[1..], b[1..]);
      PrecedesNotItself(a);
      assert a == [a[0]] + a[1..] && b == [b[0]] + b[1..];
    }
  }

  lemma {:induction false} PrecedesIsTransitive(a: string, b: string, c: string)
    requires Precedes(a, b) && Precedes(b, c)
    ensures Precedes(a, c)
  {
    if a != [] && a[0] == b[0] == c[0] {
      PrecedesIsTransitive(a[1..], b[1..], c[1..]);
    }
  }

  lemma {:induction false} LeastExists(keys: set<string>)
    requires keys != {}
    ensures exists k :: Least(keys, k)
    decreases keys
  {
    hide Precedes;
    var k :| k in keys;
    var rest := keys - {k};
    assert keys == rest + {k};
    if rest == {} {
      assert Least(keys, k);
    } else {
      LeastExists(rest);
      var j :| Least(rest, j);
      PrecedesIsTotal(k, j);
      if Precedes(j, k) {
        assert Least(keys, j);
      } else {
        forall i | i in keys && i != k ensures Precedes(k, i) {
          if i != j {
            PrecedesIsTransitive(k, j, i);
          }
        }
        assert Least(keys, k);
      }
    }
  }

  lemma LeastIsUnique(keys: set<string>)
    ensures forall j, k :: Least(keys, j) && Least(keys, k) ==> j == k
  {
    hide Precedes;
    forall j, k | Least(keys, j) && Least(keys, k) ensures j == k {
      PrecedesIsTotal(j, k);
    }
  }

  /** The strings of a set in ascending order. */
  function Ascending(keys: set<string>): (r: seq<string>)
    ensures forall k :: k in r <==> k in keys
    ensures forall i, j :: 0 <= i < j < |r| ==> Precedes(r[i], r[j])
    decreases keys
  {
    if keys == {} then []
    else
      LeastExists(keys);
      LeastIsUnique(keys);
      var k :| Least(keys, k);
      [k] + Ascending(keys - {k})
  }
}
