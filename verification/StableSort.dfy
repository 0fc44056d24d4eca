/** Python's sorted(): a stable sort by a real-valued key. */
module StableSort {
  function Insert<T>(x: T, s: seq<T>, key: T -> real): seq<T> {
    if s == [] || key(x) <= key(s[0]) then [x] + s else [s[0]] + Insert(x, s[1..], key)
  }

  function Sort<T>(s: seq<T>, key: T -> real): seq<T> {
    if s == [] then [] else Insert(s[0], Sort(s[1..], key), key)
  }

  /** The elements with key k, in order. */
  function At<T>(s: seq<T>, key: T -> real, k: real): seq<T> {
    if s == [] then [] else if key(s[0]) == k then [s[0]] + At(s[1..], key, k) else At(s[1..], key, k)
  }

  ghost predicate Ascending<T>(s: seq<T>, key: T -> real) {
    forall i, j :: 0 <= i < j < |s| ==> key(s[i]) <= key(s[j])
  }

  lemma {:induction false} InsertMembers<T>(x: T, s: seq<T>, key: T -> real)
    ensures |Insert(x, s, key)| == |s| + 1
    ensures forall y :: y in Insert(x, s, key) <==> y == x || y in s
  {
    if s != [] && key(s[0]) < key(x) {
      InsertMembers(x, s[1..], key);
      assert s == [s[0]] + s[1..];
    }
  }

  lemma {:induction false} InsertBound<T>(x: T, s: seq<T>, key: T -> real, low: real)
    requires low <= key(x) && forall i :: 0 <= i < |s| ==> low <= key(s[i])
    ensures forall i :: 0 <= i < |Insert(x, s, key)| ==> low <= key(Insert(x, s, key)[i])
  {
    if s != [] && key(s[0]) < key(x) {
      InsertBound(x, s[1..], key, low);
    }
  }

  lemma {:induction false} InsertSorted<T>(x: T, s: seq<T>, key: T -> real)
    requires Ascending(s, key)
    ensures Ascending(Insert(x, s, key), key)
    ensures forall k :: At(Insert(x, s, key), key, k) == if key(x) == k then [x] + At(s, key, k) else At(s, key, k)
  {
    if s != [] && key(s[0]) < key(x) {
      var rest := Insert(x, s[1..], key);
      InsertSorted(x, s[1..], key);
      InsertBound(x, s[1..], key, key(s[0]));
      assert ([s[0]] + rest)[1..] == rest;
    } else {
      assert ([x] + s)[1..] == s;
    }
  }

  /** The result is ascending, and elements with the same key keep their order. */
  lemma {:induction false} SortIsStable<T>(s: seq<T>, key: T -> real)
    ensures Ascending(Sort(s, key), key) && |Sort(s, key)| == |s|
    ensures forall x :: x in Sort(s, key) <==> x in s
    ensures forall k :: At(Sort(s, key), key, k) == At(s, key, k)
  {
    if s == [] {
    } else {
      SortIsStable(s[1..], key);
      InsertSorted(s[0], Sort(s[1..], key), key);
      InsertMembers(s[0], Sort(s[1..], key), key);
      assert s == [s[0]] + s[1..];
    }
  }

  lemma {:induction false} SortOfEqualKeys<T>(s: seq<T>, key: T -> real, k: real)
    requires forall i :: 0 <= i < |s| ==> key(s[i]) == k
    ensures Sort(s, key) == s
  {
    if s == [] {
    } else {
      SortOfEqualKeys(s[1..], key, k);
    }
  }

  /** The first element of the result is the first of those with the least key. */
  lemma {:induction false} HeadIsFirstLeast<T>(s: seq<T>, key: T -> real) returns (i: nat)
    requires s != []
    ensures i < |s| && Sort(s, key) != [] && Sort(s, key)[0] == s[i]
    ensures forall k :: 0 <= k < |s| ==> if k < i then key(s[k]) > key(s[i]) else key(s[k]) >= key(s[i])
  {
    if |s| == 1 {
      i := 0;
    } else {
      var j := HeadIsFirstLeast(s[1..], key);
      i := if key(s[0]) <= key(s[j + 1]) then 0 else j + 1;
      forall k | 0 <= k < |s| ensures if k < i then key(s[k]) > key(s[i]) else key(s[k]) >= key(s[i]) {
        assert k > 0 ==> s[k] == s[1..][k - 1];
      }
    }
  }
}
