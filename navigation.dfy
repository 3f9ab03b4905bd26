/**
 * Moving through the tree in key order: the least and greatest nodes of a
 * subtree, and the next and previous nodes of the whole tree, as
 * `TreeMinimum`, `TreeMaximum`, `TreeSuccessor` and `TreePredecessor` find
 * them by walking the links.
 */
module Navigation {
  import opened Arena
  import opened Attachment
  import opened Removal

  /** m is the node with the least key in n's subtree. */
  ghost predicate LeastIn(sub: seq<set<nat>>, key: seq<int>, n: nat, m: nat)
    requires n < |sub| && m < |key|
  {
    m in sub[n] && forall j {:trigger j in sub[n]} :: j in sub[n] && j != m && j < |key| ==> key[m] < key[j]
  }

  /** m is the node with the greatest key in n's subtree. */
  ghost predicate GreatestIn(sub: seq<set<nat>>, key: seq<int>, n: nat, m: nat)
    requires n < |sub| && m < |key|
  {
    m in sub[n] && forall j {:trigger j in sub[n]} :: j in sub[n] && j != m && j < |key| ==> key[j] < key[m]
  }

  /**
   * The loop state of `TreeMinimum` below n: m lies in n's subtree, and every
   * node of that subtree outside m's has a greater key than m.
   */
  ghost predicate LeftSpine(t: Links, live: set<nat>, sub: seq<set<nat>>, key: seq<int>, n: nat, m: nat)
    requires Shaped(t, live, sub) && |key| == |t.left| && n in live
  {
    && m in live && m in sub[n]
    && forall j {:trigger j in sub[n]} :: j in sub[n] && j !in sub[m] ==> key[m] < key[j]
  }

  /** The loop state of `TreeMaximum` below n, the mirror of `LeftSpine`. */
  ghost predicate RightSpine(t: Links, live: set<nat>, sub: seq<set<nat>>, key: seq<int>, n: nat, m: nat)
    requires Shaped(t, live, sub) && |key| == |t.left| && n in live
  {
    && m in live && m in sub[n]
    && forall j {:trigger j in sub[n]} :: j in sub[n] && j !in sub[m] ==> key[j] < key[m]
  }

  /** A subtree's root starts the walk to its least node. */
  lemma SpineStart(t: Links, live: set<nat>, sub: seq<set<nat>>, key: seq<int>, n: nat)
    requires Shaped(t, live, sub) && |key| == |t.left| && n in live
    ensures LeftSpine(t, live, sub, key, n, n) && RightSpine(t, live, sub, key, n, n)
  {
    assert NestedAt(t, sub, n);
  }

  /** Stepping to the left child keeps the walk's state, and the current subtree shrinks. */
  lemma LeftSpineStep(t: Links, live: set<nat>, sub: seq<set<nat>>, key: seq<int>, n: nat, m: nat)
    requires Shaped(t, live, sub) && |key| == |t.left| && Ordered(t, live, sub, key) && n in live
    requires LeftSpine(t, live, sub, key, n, m) && t.left[m] != NIL
    ensures LeftSpine(t, live, sub, key, n, t.left[m]) && sub[t.left[m]] < sub[m]
  {
    var l := t.left[m];
    assert NestedAt(t, sub, m) && OrderedAt(t, sub, key, m);
    assert NestedAt(t, sub, l);
    SubtreeClosed(t, live, sub, n, m);
  }

  /** Stepping to the right child keeps the walk's state, and the current subtree shrinks. */
  lemma RightSpineStep(t: Links, live: set<nat>, sub: seq<set<nat>>, key: seq<int>, n: nat, m: nat)
    requires Shaped(t, live, sub) && |key| == |t.left| && Ordered(t, live, sub, key) && n in live
    requires RightSpine(t, live, sub, key, n, m) && t.right[m] != NIL
    ensures RightSpine(t, live, sub, key, n, t.right[m]) && sub[t.right[m]] < sub[m]
  {
    var r := t.right[m];
    assert NestedAt(t, sub, m) && OrderedAt(t, sub, key, m);
    assert NestedAt(t, sub, r);
    SubtreeClosed(t, live, sub, n, m);
  }

  /** Where the walk finds no left child, it stands at the least node of n's subtree. */
  lemma LeftSpineEnd(t: Links, live: set<nat>, sub: seq<set<nat>>, key: seq<int>, n: nat, m: nat)
    requires Shaped(t, live, sub) && |key| == |t.left| && Ordered(t, live, sub, key) && n in live
    requires LeftSpine(t, live, sub, key, n, m) && t.left[m] == NIL
    ensures LeastIn(sub, key, n, m)
  {
    assert NestedAt(t, sub, m) && OrderedAt(t, sub, key, m);
  }

  /** Where the walk finds no right child, it stands at the greatest node of n's subtree. */
  lemma RightSpineEnd(t: Links, live: set<nat>, sub: seq<set<nat>>, key: seq<int>, n: nat, m: nat)
    requires Shaped(t, live, sub) && |key| == |t.left| && Ordered(t, live, sub, key) && n in live
    requires RightSpine(t, live, sub, key, n, m) && t.right[m] == NIL
    ensures GreatestIn(sub, key, n, m)
  {
    assert NestedAt(t, sub, m) && OrderedAt(t, sub, key, m);
  }

  /** s holds the least key above n's among the live nodes. */
  ghost predicate NextIn(live: set<nat>, key: seq<int>, n: nat, s: nat)
    requires n < |key|
  {
    && s in live && s < |key| && key[n] < key[s]
    && forall j {:trigger j in live} :: j in live && j < |key| && key[n] < key[j] ==> key[s] <= key[j]
  }

  /** p holds the greatest key below n's among the live nodes. */
  ghost predicate PrevIn(live: set<nat>, key: seq<int>, n: nat, p: nat)
    requires n < |key|
  {
    && p in live && p < |key| && key[p] < key[n]
    && forall j {:trigger j in live} :: j in live && j < |key| && key[j] < key[n] ==> key[j] <= key[p]
  }

  /** No live node has a key above n's. */
  ghost predicate TopIn(live: set<nat>, key: seq<int>, n: nat)
    requires n < |key|
  {
    forall j {:trigger j in live} :: j in live && j < |key| ==> key[j] <= key[n]
  }

  /** No live node has a key below n's. */
  ghost predicate BottomIn(live: set<nat>, key: seq<int>, n: nat)
    requires n < |key|
  {
    forall j {:trigger j in live} :: j in live && j < |key| ==> key[n] <= key[j]
  }

  /** A live node outside n's subtree has a key below the whole subtree or above the whole subtree. */
  lemma {:induction false} Apart(t: Links, live: set<nat>, sub: seq<set<nat>>, key: seq<int>, n: nat, j: nat)
    requires Shaped(t, live, sub) && |key| == |t.left| && Ordered(t, live, sub, key)
    requires n in live && j in live && j !in sub[n]
    ensures || (forall i {:trigger i in sub[n]} :: i in sub[n] ==> key[j] < key[i])
            || (forall i {:trigger i in sub[n]} :: i in sub[n] ==> key[i] < key[j])
    decreases live - sub[n]
  {
    ClimbShrinks(t, live, sub, n);
    var p := t.parent[n];
    assert NestedAt(t, sub, p) && OrderedAt(t, sub, key, p);
    if j !in sub[p] {
      Apart(t, live, sub, key, p, j);
    }
  }

  /** With a right subtree, n's successor is the least node of that subtree. */
  lemma SuccessorBelow(t: Links, live: set<nat>, sub: seq<set<nat>>, key: seq<int>, n: nat, m: nat)
    requires Shaped(t, live, sub) && |key| == |t.left| && Ordered(t, live, sub, key)
    requires n in live && t.right[n] != NIL && m < |key| && LeastIn(sub, key, t.right[n], m)
    ensures NextIn(live, key, n, m)
  {
    assert NestedAt(t, sub, n) && OrderedAt(t, sub, key, n);
    forall j | j in live && j !in sub[n]
      ensures key[n] < key[j] ==> key[m] <= key[j]
    {
      Apart(t, live, sub, key, n, j);
    }
  }

  /** With a left subtree, n's predecessor is the greatest node of that subtree. */
  lemma PredecessorBelow(t: Links, live: set<nat>, sub: seq<set<nat>>, key: seq<int>, n: nat, m: nat)
    requires Shaped(t, live, sub) && |key| == |t.left| && Ordered(t, live, sub, key)
    requires n in live && t.left[n] != NIL && m < |key| && GreatestIn(sub, key, t.left[n], m)
    ensures PrevIn(live, key, n, m)
  {
    assert NestedAt(t, sub, n) && OrderedAt(t, sub, key, n);
    forall j | j in live && j !in sub[n]
      ensures key[j] < key[n] ==> key[j] <= key[m]
    {
      Apart(t, live, sub, key, n, j);
    }
  }

  /** A node without a right subtree is the greatest of its own subtree. */
  lemma GreatestStart(t: Links, live: set<nat>, sub: seq<set<nat>>, key: seq<int>, n: nat)
    requires Shaped(t, live, sub) && |key| == |t.left| && Ordered(t, live, sub, key)
    requires n in live && t.right[n] == NIL
    ensures GreatestIn(sub, key, n, n)
  {
    assert NestedAt(t, sub, n) && OrderedAt(t, sub, key, n);
  }

  /** A node without a left subtree is the least of its own subtree. */
  lemma LeastStart(t: Links, live: set<nat>, sub: seq<set<nat>>, key: seq<int>, n: nat)
    requires Shaped(t, live, sub) && |key| == |t.left| && Ordered(t, live, sub, key)
    requires n in live && t.left[n] == NIL
    ensures LeastIn(sub, key, n, n)
  {
    assert NestedAt(t, sub, n) && OrderedAt(t, sub, key, n);
  }

  /** Climbing from a right child c keeps n the greatest node of the current subtree. */
  lemma ClimbGreatest(t: Links, live: set<nat>, sub: seq<set<nat>>, key: seq<int>, c: nat, n: nat)
    requires Shaped(t, live, sub) && |key| == |t.left| && Ordered(t, live, sub, key)
    requires c in live && n < |key| && t.parent[c] != NIL && t.right[t.parent[c]] == c && GreatestIn(sub, key, c, n)
    ensures t.parent[c] in live && GreatestIn(sub, key, t.parent[c], n)
    ensures live - sub[t.parent[c]] < live - sub[c]
  {
    ClimbShrinks(t, live, sub, c);
    var p := t.parent[c];
    assert NestedAt(t, sub, p) && OrderedAt(t, sub, key, p);
  }

  /** Climbing from a left child c keeps n the least node of the current subtree. */
  lemma ClimbLeast(t: Links, live: set<nat>, sub: seq<set<nat>>, key: seq<int>, c: nat, n: nat)
    requires Shaped(t, live, sub) && |key| == |t.left| && Ordered(t, live, sub, key)
    requires c in live && n < |key| && t.parent[c] != NIL && t.left[t.parent[c]] == c && LeastIn(sub, key, c, n)
    ensures t.parent[c] in live && LeastIn(sub, key, t.parent[c], n)
    ensures live - sub[t.parent[c]] < live - sub[c]
  {
    ClimbShrinks(t, live, sub, c);
    var p := t.parent[c];
    assert NestedAt(t, sub, p) && OrderedAt(t, sub, key, p);
  }

  /**
   * Where the climb from n stops at c, the greatest node of c's subtree:
   * at the root n holds the greatest key, and below a parent that c is not
   * the right child of, that parent is n's successor.
   */
  lemma SuccessorAbove(t: Links, live: set<nat>, sub: seq<set<nat>>, key: seq<int>, n: nat, c: nat)
    requires Shaped(t, live, sub) && |key| == |t.left| && Ordered(t, live, sub, key)
    requires c in live && n < |key| && GreatestIn(sub, key, c, n)
    requires t.parent[c] == NIL || t.right[t.parent[c]] != c
    ensures t.parent[c] == NIL ==> TopIn(live, key, n)
    ensures t.parent[c] != NIL ==> NextIn(live, key, n, t.parent[c])
  {
    var p := t.parent[c];
    if p != NIL {
      assert p in live && t.left[p] == c;
      assert NestedAt(t, sub, p) && OrderedAt(t, sub, key, p);
      forall j | j in live && j !in sub[p]
        ensures key[n] < key[j] ==> key[p] <= key[j]
      {
        Apart(t, live, sub, key, p, j);
      }
    }
  }

  /**
   * Where the climb from n stops at c, the least node of c's subtree: at the
   * root n holds the least key, and below a parent that c is not the left
   * child of, that parent is n's predecessor.
   */
  lemma PredecessorAbove(t: Links, live: set<nat>, sub: seq<set<nat>>, key: seq<int>, n: nat, c: nat)
    requires Shaped(t, live, sub) && |key| == |t.left| && Ordered(t, live, sub, key)
    requires c in live && n < |key| && LeastIn(sub, key, c, n)
    requires t.parent[c] == NIL || t.left[t.parent[c]] != c
    ensures t.parent[c] == NIL ==> BottomIn(live, key, n)
    ensures t.parent[c] != NIL ==> PrevIn(live, key, n, t.parent[c])
  {
    var p := t.parent[c];
    if p != NIL {
      assert p in live && t.right[p] == c;
      assert NestedAt(t, sub, p) && OrderedAt(t, sub, key, p);
      forall j | j in live && j !in sub[p]
        ensures key[j] < key[n] ==> key[j] <= key[p]
      {
        Apart(t, live, sub, key, p, j);
      }
    }
  }
}
