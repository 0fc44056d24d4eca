/** get_subtree: the tree of a goal's descendants, as far as its queries list them. */
module GoalTree {
  import opened Wrappers
  import opened Sequences
  import opened Digraph
  import opened GoalStore

  /** The default limit of list_goals. */
  const LIST_LIMIT := 100

  datatype Tree = Tree(root: GoalId, children: seq<Tree>)

  function ChildrenOf(s: Store, p: GoalId): set<GoalId> {
    set g | g in s.goals && s.goals[g].parent == Some(p)
  }

  /** The answers of list_goals(parent_id): all children, or as many as the limit allows. */
  type Listing = GoalId -> seq<GoalId>

  ghost predicate IsListing(s: Store, list: Listing) {
    forall p :: NoDup(list(p)) && Elements(list(p)) <= ChildrenOf(s, p)
             && |list(p)| == if |ChildrenOf(s, p)| < LIST_LIMIT then |ChildrenOf(s, p)| else LIST_LIMIT
  }

  lemma ChildBelow(s: Store, p: GoalId, c: GoalId)
    requires Acyclic(ParentEdges(s.goals)) && c in ChildrenOf(s, p)
    ensures c in Descendants(s, p) && c != p && p !in Descendants(s, c)
    ensures Descendants(s, c) <= Descendants(s, p) && (p in s.goals ==> Descendants(s, c) < Descendants(s, p))
  {
    var E := ParentEdges(s.goals);
    assert (c, p) in E;
    ReachSelf(E, c);
    ReachEdge(E, c, c, p);
    forall g | g in Descendants(s, c) ensures g in Descendants(s, p) {
      ReachTrans(E, g, c, p);
    }
    if Reach(E, p, c) {
      ReachTrans(E, p, c, p);
      assert false;
    }
    if p in s.goals {
      ReachSelf(E, p);
    }
  }

  ghost function Subtrees(s: Store, list: Listing, id: GoalId, ids: seq<GoalId>): (trees: seq<Tree>)
    requires Acyclic(ParentEdges(s.goals)) && IsListing(s, list) && id in s.goals
    requires forall c :: c in ids ==> c in ChildrenOf(s, id)
    ensures |trees| == |ids|
    decreases Descendants(s, id), 0, |ids|
  {
    if ids == [] then []
    else
      assert ids[0] in ids;
      ChildBelow(s, id, ids[0]);
      [Subtree(s, list, ids[0])] + Subtrees(s, list, id, ids[1..])
  }

  /** The recursion ends because the parent relation is acyclic. */
  ghost function Subtree(s: Store, list: Listing, id: GoalId): (t: Tree)
    requires Acyclic(ParentEdges(s.goals)) && IsListing(s, list) && id in s.goals
    ensures t.root == id
    decreases Descendants(s, id)
  {
    Tree(id, Subtrees(s, list, id, list(id)))
  }

  lemma {:induction false} SubtreeAt(s: Store, list: Listing, id: GoalId, ids: seq<GoalId>, i: nat)
    requires Acyclic(ParentEdges(s.goals)) && IsListing(s, list) && id in s.goals && i < |ids|
    requires forall c :: c in ids ==> c in ChildrenOf(s, id)
    ensures ids[i] in s.goals && Subtrees(s, list, id, ids)[i] == Subtree(s, list, ids[i])
  {
    assert ids[i] in ids;
    if i == 0 {
    } else {
      SubtreeAt(s, list, id, ids[1..], i - 1);
    }
  }

  lemma SubtreesOf(s: Store, list: Listing, id: GoalId, trees: seq<Tree>)
    requires Acyclic(ParentEdges(s.goals)) && IsListing(s, list) && id in s.goals && |trees| == |list(id)|
    requires forall i :: 0 <= i < |trees| ==> list(id)[i] in s.goals && trees[i] == Subtree(s, list, list(id)[i])
    ensures Tree(id, trees) == Subtree(s, list, id)
  {
    var ids := list(id);
    forall c | c in ids ensures c in ChildrenOf(s, id) {
      assert c in Elements(ids);
    }
    forall i | 0 <= i < |ids| ensures trees[i] == Subtrees(s, list, id, ids)[i] {
      SubtreeAt(s, list, id, ids, i);
    }
  }

  /** The goals in a tree. */
  function Goals(t: Tree): set<GoalId> {
    {t.root} + set c, g | c in t.children && g in Goals(c) :: g
  }

  lemma GoalsOf(s: Store, list: Listing, id: GoalId, g: GoalId)
    requires Acyclic(ParentEdges(s.goals)) && IsListing(s, list) && id in s.goals
    ensures g in Goals(Subtree(s, list, id)) <==>
      g == id || exists i :: 0 <= i < |list(id)| && list(id)[i] in s.goals && g in Goals(Subtree(s, list, list(id)[i]))
  {
    var ids, t := list(id), Subtree(s, list, id);
    forall i | 0 <= i < |ids|
      ensures ids[i] in ChildrenOf(s, id)
      ensures t.children[i] == Subtree(s, list, ids[i]) && t.children[i] in t.children {
      assert ids[i] in Elements(ids);
      SubtreeAt(s, list, id, ids, i);
    }
    forall c | c in t.children ensures exists i :: 0 <= i < |ids| && c == t.children[i] {
    }
  }

  /** Every goal of the tree descends from its root, and each but the root is listed among its
      parent's children. */
  lemma {:induction false} SubtreeIsListed(s: Store, list: Listing, id: GoalId, g: GoalId)
    requires Acyclic(ParentEdges(s.goals)) && IsListing(s, list) && id in s.goals && g in Goals(Subtree(s, list, id))
    ensures g in Descendants(s, id)
    ensures g != id ==> g in s.goals && s.goals[g].parent.Some? && g in list(s.goals[g].parent.value)
    decreases Descendants(s, id)
  {
    GoalsOf(s, list, id, g);
    if g == id {
      ReachSelf(ParentEdges(s.goals), id);
    } else {
      var i :| 0 <= i < |list(id)| && list(id)[i] in s.goals && g in Goals(Subtree(s, list, list(id)[i]));
      var c := list(id)[i];
      assert c in Elements(list(id));
      ChildBelow(s, id, c);
      SubtreeIsListed(s, list, c, g);
    }
  }

  /** A descendant other than the goal itself descends from one of its children. */
  lemma DescendantOfChild(s: Store, id: GoalId, g: GoalId) returns (c: GoalId)
    requires g in Descendants(s, id) && g != id
    ensures c in ChildrenOf(s, id) && g in Descendants(s, c)
  {
    var E := ParentEdges(s.goals);
    var w :| Walk(E, g, w, id);
    assert |w| >= 2;
    c := w[|w| - 2];
    var t := w[..|w| - 1];
    forall i | 0 <= i < |t| - 1 ensures (t[i], t[i + 1]) in E {
      assert t[i] == w[i] && t[i + 1] == w[i + 1];
    }
    assert (w[|w| - 2], w[|w| - 2 + 1]) in E;
    assert Walk(E, g, t, c);
  }

  lemma AllListed(s: Store, list: Listing, p: GoalId)
    requires IsListing(s, list)
    ensures Elements(list(p)) == ChildrenOf(s, p) <==> |ChildrenOf(s, p)| <= LIST_LIMIT
  {
    NoDupCardinality(list(p));
    SubsetSize(Elements(list(p)), ChildrenOf(s, p));
  }

  lemma {:induction false} SubtreeIsFull(s: Store, list: Listing, id: GoalId, g: GoalId)
    requires Acyclic(ParentEdges(s.goals)) && IsListing(s, list) && id in s.goals && g in Descendants(s, id)
    requires forall x :: x in Descendants(s, id) ==> |ChildrenOf(s, x)| <= LIST_LIMIT
    ensures g in Goals(Subtree(s, list, id))
    decreases Descendants(s, id)
  {
    GoalsOf(s, list, id, g);
    if g == id {
    } else {
      var c := DescendantOfChild(s, id, g);
      ReachSelf(ParentEdges(s.goals), id);
      AllListed(s, list, id);
      ChildBelow(s, id, c);
      SubtreeIsFull(s, list, c, g);
      assert c in Elements(list(id));
    }
  }

  lemma UnlistedIsMissing(s: Store, list: Listing, id: GoalId, x: GoalId, c: GoalId)
    requires Acyclic(ParentEdges(s.goals)) && IsListing(s, list) && id in s.goals
    requires x in Descendants(s, id) && c in ChildrenOf(s, x) && c !in list(x)
    ensures c in Descendants(s, id) && c !in Goals(Subtree(s, list, id))
  {
    ChildBelow(s, x, c);
    var E := ParentEdges(s.goals);
    ReachTrans(E, c, x, id);
    if c in Goals(Subtree(s, list, id)) {
      SubtreeIsListed(s, list, id, c);
    }
  }

  /** The tree holds descendants only, and all of them exactly when none has more children
      than one query lists. */
  lemma SubtreeIsDescendants(s: Store, list: Listing, id: GoalId)
    requires GoalStore.Valid(s) && IsListing(s, list) && id in s.goals
    ensures Goals(Subtree(s, list, id)) <= Descendants(s, id)
    ensures Goals(Subtree(s, list, id)) == Descendants(s, id) <==>
      forall x :: x in Descendants(s, id) ==> |ChildrenOf(s, x)| <= LIST_LIMIT
  {
    var held := Goals(Subtree(s, list, id));
    forall g | g in held ensures g in Descendants(s, id) {
      SubtreeIsListed(s, list, id, g);
    }
    if x :| x in Descendants(s, id) && |ChildrenOf(s, x)| > LIST_LIMIT {
      AllListed(s, list, x);
      var c :| c in ChildrenOf(s, x) && c !in Elements(list(x));
      UnlistedIsMissing(s, list, id, x, c);
    } else {
      forall g | g in Descendants(s, id) ensures g in held {
        SubtreeIsFull(s, list, id, g);
      }
    }
  }
}
