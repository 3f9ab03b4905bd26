/**
 * The walk of `Clear`, which frees every node of the tree without a stack:
 * from the least node it descends to the least node of each right subtree,
 * then climbs while it comes up from a right child, freeing each node it
 * leaves, and frees the node it stops at too. The predicates below say
 * which nodes are still allocated (`alive`) at each point of that walk, and
 * the lemmas show that the walk frees every child before its parent, never
 * frees a node twice and never reads a node it has freed.
 */
module Teardown {
  import opened Arena
  import opened Attachment
  import opened Removal
  import opened Navigation
  import opened RedBlackRules
  import opened Indexing

  /** The nodes that order lists. */
  ghost function Elems(order: seq<nat>): (s: set<nat>)
    ensures forall x :: x in s <==> x in order
  {
    set x | x in order
  }

  /** order frees each node once, and every node after all the other nodes of its subtree. */
  ghost predicate PostOrder(sub: seq<set<nat>>, order: seq<nat>)
  {
    && (forall i, j {:trigger order[i], order[j]} :: 0 <= i < j < |order| ==> order[i] != order[j])
    && (forall i {:trigger order[i]} :: 0 <= i < |order| ==> order[i] < |sub|)
    && (forall i, m {:trigger m in sub[order[i]]} :: 0 <= i < |order| && m in sub[order[i]] && m != order[i] ==> m in order[..i])
  }

  /** Freed nodes take their whole subtrees with them. */
  ghost predicate Freed(t: Links, live: set<nat>, sub: seq<set<nat>>, alive: set<nat>)
    requires Shaped(t, live, sub)
  {
    alive <= live && forall j {:trigger j in live} :: j in live && j !in alive ==> sub[j] !! alive
  }

  /**
   * What the walk owes to the ancestors of now: an ancestor reached from
   * its right side has its left subtree freed, and one reached from its
   * left side has its right subtree still allocated.
   */
  ghost predicate Pending(t: Links, live: set<nat>, sub: seq<set<nat>>, alive: set<nat>, now: nat)
    requires Shaped(t, live, sub)
  {
    && (forall a {:trigger a in live, t.right[a]} :: a in live && now in sub[t.right[a]] ==> sub[t.left[a]] !! alive)
    && (forall a {:trigger a in live, t.left[a]} :: a in live && now in sub[t.left[a]] ==> sub[t.right[a]] <= alive)
  }

  /** The state at the head of the walk's outer loop: now's left subtree is freed, its right subtree is not yet touched. */
  ghost predicate AtNode(t: Links, live: set<nat>, sub: seq<set<nat>>, alive: set<nat>, now: nat)
    requires Shaped(t, live, sub)
  {
    && now in live && now in alive
    && sub[t.left[now]] !! alive && sub[t.right[now]] <= alive
    && Pending(t, live, sub, alive, now)
  }

  /** The state of the climb: both subtrees of now are freed, and now is next. */
  ghost predicate Climbing(t: Links, live: set<nat>, sub: seq<set<nat>>, alive: set<nat>, now: nat)
    requires Shaped(t, live, sub)
  {
    && now in live && now in alive
    && sub[t.left[now]] !! alive && sub[t.right[now]] !! alive
    && Pending(t, live, sub, alive, now)
  }

  /** A subtree below a holds the whole subtree of each of its nodes. */
  lemma SubtreeWithin(t: Links, live: set<nat>, sub: seq<set<nat>>, a: nat, n: nat)
    requires Shaped(t, live, sub) && (a == NIL || a in live)
    ensures n in sub[a] ==> sub[n] <= sub[a]
  {
    if n in sub[a] {
      SubtreeClosed(t, live, sub, a, n);
    }
  }

  /** Two nodes above the same node lie one below the other. */
  lemma {:induction false} Comparable(t: Links, live: set<nat>, sub: seq<set<nat>>, a: nat, b: nat, m: nat)
    requires Shaped(t, live, sub) && a in live && b in live && m in sub[a] && m in sub[b]
    ensures a in sub[b] || b in sub[a]
    decreases sub[a]
  {
    assert NestedAt(t, sub, a);
    if b !in sub[a] && m != a {
      var c := if m in sub[t.left[a]] then t.left[a] else t.right[a];
      assert c != NIL && c in live && t.parent[c] == a && m in sub[c] && NestedAt(t, sub, c);
      assert c in sub[a] && a !in sub[c];
      Comparable(t, live, sub, c, b, m);
      SubtreeWithin(t, live, sub, a, c);
      ParentInSubtree(t, live, sub, b, c);
    }
  }

  /** The walk starts at the least node of the whole tree with nothing freed. */
  lemma WalkStart(t: Links, live: set<nat>, sub: seq<set<nat>>, key: seq<int>, m: nat)
    requires Shaped(t, live, sub) && |key| == |t.left| && Ordered(t, live, sub, key)
    requires t.root != NIL && m < |key| && LeastIn(sub, key, t.root, m) && t.left[m] == NIL
    ensures Freed(t, live, sub, live) && AtNode(t, live, sub, live, m)
  {
    forall a | a in live
      ensures m !in sub[t.right[a]]
    {
      assert NestedAt(t, sub, a) && OrderedAt(t, sub, key, a);
    }
  }

  /**
   * Descending from now to the least node m of its right subtree keeps the
   * outer loop's state, and m's subtree is smaller than now's.
   */
  lemma Descend(t: Links, live: set<nat>, sub: seq<set<nat>>, key: seq<int>, alive: set<nat>, now: nat, m: nat)
    requires Shaped(t, live, sub) && |key| == |t.left| && Ordered(t, live, sub, key)
    requires Freed(t, live, sub, alive) && AtNode(t, live, sub, alive, now)
    requires t.right[now] != NIL && m < |key| && LeastIn(sub, key, t.right[now], m) && t.left[m] == NIL
    ensures AtNode(t, live, sub, alive, m) && sub[m] < sub[now]
  {
    var r := t.right[now];
    assert NestedAt(t, sub, now) && NestedAt(t, sub, m);
    SubtreeClosed(t, live, sub, r, m);
    forall a | a in sub[r]
      ensures m !in sub[t.right[a]]
    {
      assert NestedAt(t, sub, a) && OrderedAt(t, sub, key, a);
    }
    forall a | a in sub[t.left[now]]
      ensures m !in sub[a]
    {
      SubtreeWithin(t, live, sub, t.left[now], a);
    }
    forall a | a in live && a !in sub[now] && m in sub[a]
      ensures now in sub[t.left[a]] || now in sub[t.right[a]]
      ensures now in sub[t.left[a]] ==> m in sub[t.left[a]]
      ensures now in sub[t.right[a]] ==> m in sub[t.right[a]]
    {
      Comparable(t, live, sub, a, now, m);
      assert NestedAt(t, sub, a);
      SubtreeWithin(t, live, sub, t.left[a], now);
      SubtreeWithin(t, live, sub, t.right[a], now);
    }
    forall a | a in sub[r]
      ensures sub[t.right[a]] <= alive
    {
      assert NestedAt(t, sub, a);
      SubtreeWithin(t, live, sub, r, a);
    }
  }

  /** Freeing now as the climb leaves a right child keeps the climb's state at the parent. */
  lemma ClimbStep(t: Links, live: set<nat>, sub: seq<set<nat>>, alive: set<nat>, now: nat)
    requires Shaped(t, live, sub) && Freed(t, live, sub, alive) && Climbing(t, live, sub, alive, now)
    requires t.parent[now] != NIL && t.right[t.parent[now]] == now
    ensures t.parent[now] in alive - {now}
    ensures Freed(t, live, sub, alive - {now}) && Climbing(t, live, sub, alive - {now}, t.parent[now])
  {
    var p := t.parent[now];
    assert NestedAt(t, sub, now) && NestedAt(t, sub, p);
    ClimbPending(t, live, sub, alive, now);
  }

  /**
   * Freeing now where the climb stops: at the root nothing is left, and
   * otherwise now was a left child and the outer loop resumes at its parent.
   */
  lemma ClimbExit(t: Links, live: set<nat>, sub: seq<set<nat>>, alive: set<nat>, now: nat)
    requires Shaped(t, live, sub) && Freed(t, live, sub, alive) && Climbing(t, live, sub, alive, now)
    requires t.parent[now] == NIL || t.right[t.parent[now]] != now
    ensures Freed(t, live, sub, alive - {now})
    ensures t.parent[now] == NIL ==> alive - {now} == {}
    ensures t.parent[now] != NIL ==> AtNode(t, live, sub, alive - {now}, t.parent[now])
  {
    var p := t.parent[now];
    assert NestedAt(t, sub, now);
    if p != NIL {
      assert NestedAt(t, sub, p);
      ClimbPending(t, live, sub, alive, now);
    }
  }

  /** Once now is freed, its parent p is still allocated and inherits what the walk owes p's ancestors. */
  lemma ClimbPending(t: Links, live: set<nat>, sub: seq<set<nat>>, alive: set<nat>, now: nat)
    requires Shaped(t, live, sub) && Freed(t, live, sub, alive) && Climbing(t, live, sub, alive, now)
    requires t.parent[now] != NIL
    ensures t.parent[now] in live && t.parent[now] in alive - {now}
    ensures Pending(t, live, sub, alive - {now}, t.parent[now])
  {
    var p := t.parent[now];
    assert p in live;
    assert NestedAt(t, sub, p);
    forall a | a in live
      ensures p in sub[t.left[a]] ==> now in sub[t.left[a]]
      ensures p in sub[t.right[a]] ==> now in sub[t.right[a]]
      ensures now !in sub[t.left[a]] || now !in sub[t.right[a]]
    {
      assert NestedAt(t, sub, a);
      SubtreeWithin(t, live, sub, t.left[a], p);
      SubtreeWithin(t, live, sub, t.right[a], p);
    }
  }

  /** The walk's record: order lists the freed nodes, in post-order, and alive the rest of the tree. */
  ghost predicate Walked(t: Links, live: set<nat>, sub: seq<set<nat>>, alive: set<nat>, order: seq<nat>)
    requires Shaped(t, live, sub)
  {
    Freed(t, live, sub, alive) && alive == live - Elems(order) && Elems(order) <= live && PostOrder(sub, order)
  }

  /** Freeing now in the climb, once the climb's lemmas have kept Freed, keeps the record. */
  lemma FreeNode(t: Links, live: set<nat>, sub: seq<set<nat>>, alive: set<nat>, order: seq<nat>, now: nat)
    requires Shaped(t, live, sub) && Walked(t, live, sub, alive, order) && Climbing(t, live, sub, alive, now)
    requires Freed(t, live, sub, alive - {now})
    ensures Walked(t, live, sub, alive - {now}, order + [now])
  {
    assert NestedAt(t, sub, now);
    PostOrderAppend(sub, order, now);
  }

  /** With every node freed and the sentinel as root, what is left is the empty red-black tree, which maps no key. */
  lemma Emptied<V>(t: Links, live: set<nat>, sub: seq<set<nat>>, key: seq<int>, val: seq<V>, color: seq<Color>, bh: seq<nat>,
                   t': Links, sub': seq<set<nat>>)
    requires RedBlack(t, live, sub, key, color, bh) && |val| == |key|
    requires t' == Links(t.left, t.right, t.parent, NIL) && sub' == seq(|sub|, _ => {})
    ensures RedBlack(t', {}, sub', key, color, bh) && IndexedBy(key, val, {}, map[]) && MapOf(map[], val) == map[]
  {
  }

  /** Appending a node whose subtree is otherwise already freed keeps the post-order. */
  lemma PostOrderAppend(sub: seq<set<nat>>, order: seq<nat>, now: nat)
    requires PostOrder(sub, order) && now < |sub| && now !in order
    requires forall m :: m in sub[now] && m != now ==> m in order
    ensures PostOrder(sub, order + [now])
  {
    var order' := order + [now];
    forall i, m | 0 <= i < |order'| && m in sub[order'[i]] && m != order'[i]
      ensures m in order'[..i]
    {
      if i < |order| {
        assert order'[..i] == order[..i];
      } else {
        assert order'[..i] == order;
      }
    }
  }
}
