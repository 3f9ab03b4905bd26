/**
 * The node arena of the red-black tree, as values.
 *
 * A tree's links are three sequences indexed by node id (left child, right
 * child, parent) and the root id; slot NIL (0) is the shared black sentinel
 * that stands for every absent child and for the root's parent. Beside the
 * links, ghost values describe the tree: `live` (the ids reachable from the
 * root), `sub` (the ids of the subtree under each node; empty for the
 * sentinel), `bh` (each node's black height) and the colours.
 *
 * Every invariant is stated node by node, and every quantifier over nodes
 * that reads a link fires on `n in live` together with the link it reads
 * (`t.left[n]`, `t.right[n]`, `t.parent[n]`), never on `n in live` alone,
 * so that facts about a node reach only the links a proof mentions.
 */
module Arena {

  datatype Color = Red | Black

  /** The number of black nodes a node of colour `c` adds to a path. */
  function Weight(c: Color): (w: nat)
    ensures w == 1 <==> c == Black
    ensures w <= 1
  {
    if c == Black then 1 else 0
  }

  /** The sentinel's slot. */
  const NIL: nat := 0

  /** The links of every slot, and the root. */
  datatype Links = Links(left: seq<nat>, right: seq<nat>, parent: seq<nat>, root: nat)

  /** Every link names a slot of the arena. */
  ghost predicate Closed(t: Links)
  {
    && 0 < |t.left| && |t.right| == |t.left| && |t.parent| == |t.left| && t.root < |t.left|
    && (forall i :: 0 <= i < |t.left| ==> t.left[i] < |t.left|)
    && (forall i :: 0 <= i < |t.right| ==> t.right[i] < |t.left|)
    && (forall i :: 0 <= i < |t.parent| ==> t.parent[i] < |t.left|)
  }

  /** The sentinel's children are itself, and every child of a live node is live or the sentinel. */
  ghost predicate Sized(t: Links, live: set<nat>, sub: seq<set<nat>>)
  {
    && Closed(t) && |sub| == |t.left|
    && t.left[NIL] == NIL && t.right[NIL] == NIL && sub[NIL] == {}
    && (forall n {:trigger n in live} :: n in live ==> 0 < n < |t.left|)
    && (forall n {:trigger n in live, t.left[n]} :: n in live ==> t.left[n] == NIL || t.left[n] in live)
    && (forall n {:trigger n in live, t.right[n]} :: n in live ==> t.right[n] == NIL || t.right[n] in live)
    && (t.root == NIL || t.root in live)
  }

  /** The root's subtree is the whole tree, and the root has no parent. */
  ghost predicate Rooted(t: Links, live: set<nat>, sub: seq<set<nat>>)
    requires Sized(t, live, sub)
  {
    sub[t.root] == live && (t.root != NIL ==> t.parent[t.root] == NIL)
  }

  /** Every subtree holds live nodes only. */
  ghost predicate Within(live: set<nat>, sub: seq<set<nat>>)
  {
    forall n, m {:trigger m in sub[n]} :: 0 <= n < |sub| && m in sub[n] ==> m in live
  }

  /** A node's subtree is the node and its children's subtrees, all three disjoint. */
  ghost predicate Nested(t: Links, live: set<nat>, sub: seq<set<nat>>)
    requires Sized(t, live, sub)
  {
    forall n {:trigger n in live, t.left[n]} {:trigger n in live, t.right[n]} :: n in live ==>
      && sub[n] == {n} + sub[t.left[n]] + sub[t.right[n]]
      && n !in sub[t.left[n]] && n !in sub[t.right[n]] && sub[t.left[n]] !! sub[t.right[n]]
  }

  /** Parent links agree with child links, and every live node but the root hangs from a live parent. */
  ghost predicate Linked(t: Links, live: set<nat>)
    requires Closed(t)
    requires forall n {:trigger n in live} :: n in live ==> n < |t.left|
  {
    && (forall n {:trigger n in live, t.left[n]} :: n in live && t.left[n] != NIL ==> t.parent[t.left[n]] == n)
    && (forall n {:trigger n in live, t.right[n]} :: n in live && t.right[n] != NIL ==> t.parent[t.right[n]] == n)
    && (forall n {:trigger n in live, t.parent[n]} :: n in live && n != t.root ==>
          t.parent[n] in live && (t.left[t.parent[n]] == n || t.right[t.parent[n]] == n))
  }

  /** The links form one binary tree over `live`, hanging from the root, with `sub` its subtrees. */
  ghost predicate Shaped(t: Links, live: set<nat>, sub: seq<set<nat>>)
  {
    && Sized(t, live, sub) && Rooted(t, live, sub) && Within(live, sub)
    && Nested(t, live, sub) && Linked(t, live)
  }

  /** One node's subtree is the node plus its children's subtrees, the three disjoint. */
  ghost predicate NestedAt(t: Links, sub: seq<set<nat>>, n: nat)
    requires Closed(t) && |sub| == |t.left| && n < |t.left|
  {
    && sub[n] == {n} + sub[t.left[n]] + sub[t.right[n]]
    && n !in sub[t.left[n]] && n !in sub[t.right[n]] && sub[t.left[n]] !! sub[t.right[n]]
  }

  /** Keys in n's left subtree are below n's key, and keys in its right subtree above it. */
  ghost predicate OrderedAt(t: Links, sub: seq<set<nat>>, key: seq<int>, n: nat)
    requires Closed(t) && |sub| == |t.left| && |key| == |t.left| && n < |t.left|
    requires forall i, m {:trigger m in sub[i]} :: 0 <= i < |sub| && m in sub[i] ==> m < |t.left|
  {
    && (forall m {:trigger m in sub[t.left[n]]} :: m in sub[t.left[n]] ==> key[m] < key[n])
    && (forall m {:trigger m in sub[t.right[n]]} :: m in sub[t.right[n]] ==> key[n] < key[m])
  }

  /** Binary-search-tree order holds at every live node. */
  ghost predicate Ordered(t: Links, live: set<nat>, sub: seq<set<nat>>, key: seq<int>)
    requires Shaped(t, live, sub) && |key| == |t.left|
  {
    forall n {:trigger n in live, t.left[n]} {:trigger n in live, t.right[n]} :: n in live ==> OrderedAt(t, sub, key, n)
  }

  /** Climbing from a live non-root node to its parent strictly shrinks the nodes outside the current subtree. */
  lemma ClimbShrinks(t: Links, live: set<nat>, sub: seq<set<nat>>, c: nat)
    requires Shaped(t, live, sub) && c in live && c != t.root
    ensures t.parent[c] in live && sub[c] < sub[t.parent[c]] && live - sub[t.parent[c]] < live - sub[c]
  {
    var p := t.parent[c];
    assert NestedAt(t, sub, p);
    assert p in sub[p] && p !in sub[c];
  }

  /** A node m below n lies on the side of n that its key says: left when smaller, right when larger. */
  lemma SearchStep(t: Links, live: set<nat>, sub: seq<set<nat>>, key: seq<int>, n: nat, m: nat)
    requires Shaped(t, live, sub) && |key| == |t.left| && Ordered(t, live, sub, key)
    requires n in live && (m == n || m in sub[n])
    ensures key[m] < key[n] ==> m in sub[t.left[n]]
    ensures key[n] < key[m] ==> m in sub[t.right[n]]
    ensures sub[t.left[n]] < sub[n] && sub[t.right[n]] < sub[n]
  {
    assert NestedAt(t, sub, n) && OrderedAt(t, sub, key, n);
  }

  /** x is a node with a right child y, and x, y, y's left child and x's parent are distinct where they must be. */
  ghost predicate LeftRotatable(t: Links, x: nat)
  {
    && Closed(t) && NIL < x < |t.left|
    && var y, g := t.right[x], t.parent[x];
      y != NIL && y != x && t.left[y] != x && t.left[y] != y && g != x && g != y
  }

  /** What `RotateLeft(t, x)` changes: only the links at x, y, y's old left child b and x's parent g, and the root. */
  ghost predicate LeftRotation(t: Links, x: nat, r: Links)
    requires LeftRotatable(t, x)
  {
    && Closed(r) && |r.left| == |t.left|
    && var y, b, g := t.right[x], t.left[t.right[x]], t.parent[x];
      && (forall n {:trigger r.left[n]} :: 0 <= n < |t.left| && n != y && (n != g || g == NIL) ==> r.left[n] == t.left[n])
      && (forall n {:trigger r.right[n]} :: 0 <= n < |t.left| && n != x && (n != g || g == NIL) ==> r.right[n] == t.right[n])
      && (forall n {:trigger r.parent[n]} :: 0 <= n < |t.left| && n != x && n != y && (n != b || b == NIL) ==> r.parent[n] == t.parent[n])
      && r.left[y] == x && r.right[x] == b && r.parent[x] == y && r.parent[y] == g
      && (b != NIL ==> r.parent[b] == x)
      && (g == NIL ==> r.root == y)
      && (g != NIL ==> r.root == t.root)
      && (g != NIL && t.left[g] == x ==> r.left[g] == y)
      && (g != NIL && t.left[g] != x ==> r.right[g] == y)
  }

  /**
   * The links after `LeftRotate(x)`: x's right child y takes x's place under
   * x's parent g (or as the root), x becomes y's left child, and y's old left
   * child b becomes x's right child.
   */
  function RotateLeft(t: Links, x: nat): (r: Links)
    requires LeftRotatable(t, x)
    ensures Closed(r) && |r.left| == |t.left|
  {
    var y := t.right[x];
    var right1 := t.right[x := t.left[y]];
    var parent1 := if right1[x] != NIL then t.parent[right1[x] := x] else t.parent;
    var parent2 := parent1[y := parent1[x]];
    var g := parent2[x];
    var root' := if g == NIL then y else t.root;
    var left1 := if g != NIL && t.left[g] == x then t.left[g := y] else t.left;
    var right2 := if g != NIL && t.left[g] != x then right1[g := y] else right1;
    Links(left1[y := x], right2, parent2[x := y], root')
  }

  /** `RotateLeft` relinks exactly x, y, b and g (or the root). */
  lemma RotateLeftFacts(t: Links, x: nat)
    requires LeftRotatable(t, x)
    ensures LeftRotation(t, x, RotateLeft(t, x))
  {
  }

  /** The subtree sets after `LeftRotate(x)`: y's is x's old one; x's loses y and y's right subtree. */
  ghost function RotateLeftSub(t: Links, sub: seq<set<nat>>, x: nat): seq<set<nat>>
    requires Closed(t) && |sub| == |t.left| && x < |t.left|
  {
    var y := t.right[x];
    sub[x := {x} + sub[t.left[x]] + sub[t.left[y]]][y := sub[x]]
  }

  /** Where x, its right child y and their relatives sit in a tree before `LeftRotate(x)`. */
  lemma RotateLeftSetting(t: Links, live: set<nat>, sub: seq<set<nat>>, x: nat)
    requires Shaped(t, live, sub) && x in live && t.right[x] != NIL
    ensures LeftRotatable(t, x)
    ensures var y, a, b, c, g := t.right[x], t.left[x], t.left[t.right[x]], t.right[t.right[x]], t.parent[x];
      && y in live && t.parent[y] == x && y != x && g != x && g != y && b != x && b != y
      && (g == NIL <==> x == t.root) && (g != NIL ==> g in live && (t.left[g] == x || t.right[g] == x))
      && y != t.root && (b != NIL ==> b != t.root && b in live && t.parent[b] == y)
      && a != x && a != y && c != x && c != y && (a != NIL ==> a != b && a in live && t.parent[a] == x)
      && (c != NIL ==> c != b && c in live && t.parent[c] == y)
      && sub[x] == {x} + sub[a] + {y} + sub[b] + sub[c]
      && x !in sub[a] && x !in sub[b] && x !in sub[c] && y !in sub[a] && y !in sub[b] && y !in sub[c]
      && sub[a] !! sub[b] && sub[a] !! sub[c] && sub[b] !! sub[c]
  {
    var y, a, b, c, g := t.right[x], t.left[x], t.left[t.right[x]], t.right[t.right[x]], t.parent[x];
    assert c in live || c == NIL;
    assert y in sub[y];
    if c != NIL {
      assert c in live;
      assert sub[c] == {c} + sub[t.left[c]] + sub[t.right[c]];
    }
    if g != NIL {
      assert x != t.root;
    }
    if x != t.root {
      assert g in live;
    }
  }

  /** Where x, its right child y and their relatives sit in a tree before `LeftRotate(x)`: links only. */
  lemma RotateLeftLinks(t: Links, live: set<nat>, sub: seq<set<nat>>, x: nat)
    requires Shaped(t, live, sub) && x in live && t.right[x] != NIL
    ensures LeftRotatable(t, x) && LeftRotation(t, x, RotateLeft(t, x))
    ensures var y, a, b, c, g := t.right[x], t.left[x], t.left[t.right[x]], t.right[t.right[x]], t.parent[x];
      && y in live && t.parent[y] == x && y != x && g != x && g != y && b != x && b != y
      && (g == NIL <==> x == t.root) && (g != NIL ==> g in live && (t.left[g] == x || t.right[g] == x))
      && y != t.root && (b != NIL ==> b != t.root && b in live && t.parent[b] == y)
      && a != x && a != y && c != x && c != y && (a != NIL ==> a != b && a in live && t.parent[a] == x)
      && (c != NIL ==> c != b && c in live && t.parent[c] == y)
  {
    RotateLeftSetting(t, live, sub, x);
    RotateLeftFacts(t, x);
  }


  /** Apart from x, y and x's parent, no node's links or subtree change, and no other node has x or y as a child. */
  lemma RotateLeftFrame(t: Links, live: set<nat>, sub: seq<set<nat>>, x: nat, n: nat)
    requires Shaped(t, live, sub) && x in live && t.right[x] != NIL
    requires n in live && n != x && n != t.right[x] && n != t.parent[x]
    ensures t.right[x] != x && t.parent[x] != x && t.parent[x] != t.right[x]
    ensures t.left[t.right[x]] != x && t.left[t.right[x]] != t.right[x]
    ensures t.left[n] != x && t.left[n] != t.right[x] && t.right[n] != x && t.right[n] != t.right[x]
    ensures RotateLeft(t, x).left[n] == t.left[n] && RotateLeft(t, x).right[n] == t.right[n]
    ensures RotateLeftSub(t, sub, x)[n] == sub[n]
  {
    RotateLeftSetting(t, live, sub, x);
    RotateLeftFacts(t, x);
    var y := t.right[x];
    assert t.left[n] != NIL ==> t.parent[t.left[n]] == n;
    assert t.right[n] != NIL ==> t.parent[t.right[n]] == n;
  }

  /** After `LeftRotate(x)` every link still names a live node or the sentinel, and the root still owns the whole tree. */
  lemma RotateLeftSized(t: Links, live: set<nat>, sub: seq<set<nat>>, x: nat)
    requires Shaped(t, live, sub) && x in live && t.right[x] != NIL
    ensures var r, sub' := RotateLeft(t, x), RotateLeftSub(t, sub, x);
      Sized(r, live, sub') && Rooted(r, live, sub') && Within(live, sub')
  {
    RotateLeftSetting(t, live, sub, x);
    RotateLeftFacts(t, x);
    var r, sub' := RotateLeft(t, x), RotateLeftSub(t, sub, x);
    var y, g := t.right[x], t.parent[x];
    forall n | n in live
      ensures r.left[n] == NIL || r.left[n] in live
      ensures r.right[n] == NIL || r.right[n] in live
    {
      if n != x && n != y && n != g {
        RotateLeftFrame(t, live, sub, x, n);
      }
    }
    if g != NIL {
      assert t.root != x && t.root != y;
    }
  }

  /** After `LeftRotate(x)`, x owns its old left subtree and y's old left subtree. */
  lemma RotateLeftNestedX(t: Links, live: set<nat>, sub: seq<set<nat>>, x: nat)
    requires Shaped(t, live, sub) && x in live && t.right[x] != NIL
    ensures t.right[x] != x && t.parent[x] != x && t.parent[x] != t.right[x]
    ensures t.left[t.right[x]] != x && t.left[t.right[x]] != t.right[x]
    ensures NestedAt(RotateLeft(t, x), RotateLeftSub(t, sub, x), x)
  {
    RotateLeftSetting(t, live, sub, x);
    RotateLeftFacts(t, x);
  }

  /** After `LeftRotate(x)`, y owns x's old subtree. */
  lemma RotateLeftNestedY(t: Links, live: set<nat>, sub: seq<set<nat>>, x: nat)
    requires Shaped(t, live, sub) && x in live && t.right[x] != NIL
    ensures t.right[x] != x && t.parent[x] != x && t.parent[x] != t.right[x]
    ensures t.left[t.right[x]] != x && t.left[t.right[x]] != t.right[x]
    ensures NestedAt(RotateLeft(t, x), RotateLeftSub(t, sub, x), t.right[x])
  {
    RotateLeftSetting(t, live, sub, x);
    RotateLeftFacts(t, x);
  }

  /** After `LeftRotate(x)`, x's old parent holds y where it held x. */
  lemma RotateLeftNestedG(t: Links, live: set<nat>, sub: seq<set<nat>>, x: nat)
    requires Shaped(t, live, sub) && x in live && t.right[x] != NIL && t.parent[x] != NIL
    ensures t.right[x] != x && t.parent[x] != x && t.parent[x] != t.right[x]
    ensures t.left[t.right[x]] != x && t.left[t.right[x]] != t.right[x]
    ensures NestedAt(RotateLeft(t, x), RotateLeftSub(t, sub, x), t.parent[x])
  {
    RotateLeftSetting(t, live, sub, x);
    RotateLeftFacts(t, x);
    var y, g := t.right[x], t.parent[x];
    assert NestedAt(t, sub, g);
    var o := if t.left[g] == x then t.right[g] else t.left[g];
    assert x in sub[x];
    assert o != x && o != y;
  }

  /** After `LeftRotate(x)` every subtree is still its root plus its children's disjoint subtrees. */
  lemma RotateLeftNested(t: Links, live: set<nat>, sub: seq<set<nat>>, x: nat)
    requires Shaped(t, live, sub) && x in live && t.right[x] != NIL
    ensures var r, sub' := RotateLeft(t, x), RotateLeftSub(t, sub, x);
      Sized(r, live, sub') && Nested(r, live, sub')
  {
    RotateLeftSized(t, live, sub, x);
    var r, sub' := RotateLeft(t, x), RotateLeftSub(t, sub, x);
    var y, g := t.right[x], t.parent[x];
    forall n | n in live
      ensures NestedAt(r, sub', n)
    {
      if n == x {
        RotateLeftNestedX(t, live, sub, x);
      } else if n == y {
        RotateLeftNestedY(t, live, sub, x);
      } else if n == g {
        RotateLeftNestedG(t, live, sub, x);
      } else {
        RotateLeftFrame(t, live, sub, x, n);
        assert NestedAt(t, sub, n);
      }
    }
  }

  /** After `LeftRotate(x)` every child's parent link points back at the node that holds it. */
  lemma RotateLeftChildLinks(t: Links, live: set<nat>, sub: seq<set<nat>>, x: nat, n: nat)
    requires Shaped(t, live, sub) && x in live && t.right[x] != NIL && n in live
    ensures t.right[x] != x && t.parent[x] != x && t.parent[x] != t.right[x]
    ensures t.left[t.right[x]] != x && t.left[t.right[x]] != t.right[x]
    ensures var r := RotateLeft(t, x);
      && (r.left[n] != NIL ==> r.parent[r.left[n]] == n)
      && (r.right[n] != NIL ==> r.parent[r.right[n]] == n)
  {
    RotateLeftSetting(t, live, sub, x);
    RotateLeftFacts(t, x);
    var y, b, g := t.right[x], t.left[t.right[x]], t.parent[x];
    if n == x || n == y {
    } else if n == g {
      var o := if t.left[g] == x then t.right[g] else t.left[g];
      assert NestedAt(t, sub, g);
      assert x in sub[x];
      assert o != x && o != y;
      if o != NIL {
        assert t.parent[o] == g;
        assert o != b;
      }
    } else {
      RotateLeftFrame(t, live, sub, x, n);
      assert t.left[n] != NIL ==> t.parent[t.left[n]] == n;
      assert t.right[n] != NIL ==> t.parent[t.right[n]] == n;
    }
  }

  /** After `LeftRotate(x)` every live node but the root still hangs from a live parent that holds it. */
  lemma RotateLeftParentLink(t: Links, live: set<nat>, sub: seq<set<nat>>, x: nat, n: nat)
    requires Shaped(t, live, sub) && x in live && t.right[x] != NIL && n in live
    ensures t.right[x] != x && t.parent[x] != x && t.parent[x] != t.right[x]
    ensures t.left[t.right[x]] != x && t.left[t.right[x]] != t.right[x]
    ensures var r := RotateLeft(t, x);
      n != r.root ==> r.parent[n] in live && (r.left[r.parent[n]] == n || r.right[r.parent[n]] == n)
  {
    RotateLeftSetting(t, live, sub, x);
    RotateLeftFacts(t, x);
    var y, a, b, c, g := t.right[x], t.left[x], t.left[t.right[x]], t.right[t.right[x]], t.parent[x];
    if n == x || n == y || n == b {
    } else if n != RotateLeft(t, x).root {
      assert n != t.root;
      var p := t.parent[n];
      assert p in live;
      if p == x {
        assert n == a;
      } else if p == y {
        assert n == c;
      } else if p == g {
        assert NestedAt(t, sub, g);
      } else {
        RotateLeftFrame(t, live, sub, x, p);
      }
    }
  }

  /** After `LeftRotate(x)` parent and child links agree. */
  lemma RotateLeftLinked(t: Links, live: set<nat>, sub: seq<set<nat>>, x: nat)
    requires Shaped(t, live, sub) && x in live && t.right[x] != NIL
    ensures var r, sub' := RotateLeft(t, x), RotateLeftSub(t, sub, x);
      Sized(r, live, sub') && Linked(r, live)
  {
    RotateLeftSized(t, live, sub, x);
    var r := RotateLeft(t, x);
    forall n | n in live
      ensures r.left[n] != NIL ==> r.parent[r.left[n]] == n
      ensures r.right[n] != NIL ==> r.parent[r.right[n]] == n
      ensures n != r.root ==> r.parent[n] in live && (r.left[r.parent[n]] == n || r.right[r.parent[n]] == n)
    {
      RotateLeftChildLinks(t, live, sub, x, n);
      RotateLeftParentLink(t, live, sub, x, n);
    }
  }

  /** `LeftRotate(x)` keeps the links a binary tree over the same nodes. */
  lemma RotateLeftShaped(t: Links, live: set<nat>, sub: seq<set<nat>>, x: nat)
    requires Shaped(t, live, sub) && x in live && t.right[x] != NIL
    ensures LeftRotatable(t, x) && LeftRotation(t, x, RotateLeft(t, x))
    ensures Shaped(RotateLeft(t, x), live, RotateLeftSub(t, sub, x))
  {
    RotateLeftSetting(t, live, sub, x);
    RotateLeftFacts(t, x);
    RotateLeftSized(t, live, sub, x);
    RotateLeftNested(t, live, sub, x);
    RotateLeftLinked(t, live, sub, x);
  }

  /** `LeftRotate(x)` keeps binary-search-tree order. */
  lemma RotateLeftOrdered(t: Links, live: set<nat>, sub: seq<set<nat>>, key: seq<int>, x: nat)
    requires Shaped(t, live, sub) && |key| == |t.left| && Ordered(t, live, sub, key)
    requires x in live && t.right[x] != NIL
    ensures t.right[x] != x && t.parent[x] != x && t.parent[x] != t.right[x]
    ensures t.left[t.right[x]] != x && t.left[t.right[x]] != t.right[x]
    ensures Shaped(RotateLeft(t, x), live, RotateLeftSub(t, sub, x))
    ensures Ordered(RotateLeft(t, x), live, RotateLeftSub(t, sub, x), key)
  {
    RotateLeftShaped(t, live, sub, x);
    var r, sub' := RotateLeft(t, x), RotateLeftSub(t, sub, x);
    forall n | n in live
      ensures OrderedAt(r, sub', key, n)
    {
      if n == x || n == t.right[x] {
        RotateLeftOrderedXY(t, live, sub, key, x);
      } else {
        RotateLeftOrderedAt(t, live, sub, key, x, n);
      }
    }
  }

  /** After `LeftRotate(x)`, order holds at x and at y. */
  lemma RotateLeftOrderedXY(t: Links, live: set<nat>, sub: seq<set<nat>>, key: seq<int>, x: nat)
    requires Shaped(t, live, sub) && |key| == |t.left| && Ordered(t, live, sub, key)
    requires x in live && t.right[x] != NIL
    ensures t.right[x] != x && t.parent[x] != x && t.parent[x] != t.right[x]
    ensures t.left[t.right[x]] != x && t.left[t.right[x]] != t.right[x]
    ensures Within(live, RotateLeftSub(t, sub, x))
    ensures OrderedAt(RotateLeft(t, x), RotateLeftSub(t, sub, x), key, x)
    ensures OrderedAt(RotateLeft(t, x), RotateLeftSub(t, sub, x), key, t.right[x])
  {
    RotateLeftSetting(t, live, sub, x);
    RotateLeftFacts(t, x);
    RotateLeftSized(t, live, sub, x);
    var y := t.right[x];
    assert OrderedAt(t, sub, key, x) && OrderedAt(t, sub, key, y);
    assert NestedAt(t, sub, y);
    assert y in sub[y];
  }

  /** Order at every node other than x and y survives `LeftRotate(x)`. */
  lemma RotateLeftOrderedAt(t: Links, live: set<nat>, sub: seq<set<nat>>, key: seq<int>, x: nat, n: nat)
    requires Shaped(t, live, sub) && |key| == |t.left| && Ordered(t, live, sub, key)
    requires x in live && t.right[x] != NIL && n in live && n != x && n != t.right[x]
    ensures t.right[x] != x && t.parent[x] != x && t.parent[x] != t.right[x]
    ensures t.left[t.right[x]] != x && t.left[t.right[x]] != t.right[x]
    ensures Within(live, RotateLeftSub(t, sub, x))
    ensures OrderedAt(RotateLeft(t, x), RotateLeftSub(t, sub, x), key, n)
  {
    RotateLeftSized(t, live, sub, x);
    assert OrderedAt(t, sub, key, n);
    if n == t.parent[x] {
      RotateLeftSetting(t, live, sub, x);
      RotateLeftFacts(t, x);
    } else {
      RotateLeftFrame(t, live, sub, x, n);
    }
  }

  /** x is a node with a left child y, and x, y, y's right child and x's parent are distinct where they must be. */
  ghost predicate RightRotatable(t: Links, x: nat)
  {
    && Closed(t) && NIL < x < |t.left|
    && var y, g := t.left[x], t.parent[x];
      y != NIL && y != x && t.right[y] != x && t.right[y] != y && g != x && g != y
  }

  /** What `RotateRight(t, x)` changes: only the links at x, y, y's old right child b and x's parent g, and the root. */
  ghost predicate RightRotation(t: Links, x: nat, r: Links)
    requires RightRotatable(t, x)
  {
    && Closed(r) && |r.left| == |t.left|
    && var y, b, g := t.left[x], t.right[t.left[x]], t.parent[x];
      && (forall n {:trigger r.right[n]} :: 0 <= n < |t.left| && n != y && (n != g || g == NIL) ==> r.right[n] == t.right[n])
      && (forall n {:trigger r.left[n]} :: 0 <= n < |t.left| && n != x && (n != g || g == NIL) ==> r.left[n] == t.left[n])
      && (forall n {:trigger r.parent[n]} :: 0 <= n < |t.left| && n != x && n != y && (n != b || b == NIL) ==> r.parent[n] == t.parent[n])
      && r.right[y] == x && r.left[x] == b && r.parent[x] == y && r.parent[y] == g
      && (b != NIL ==> r.parent[b] == x)
      && (g == NIL ==> r.root == y)
      && (g != NIL ==> r.root == t.root)
      && (g != NIL && t.left[g] == x ==> r.left[g] == y)
      && (g != NIL && t.left[g] != x ==> r.right[g] == y)
  }

  /**
   * The links after `RightRotate(x)`: x's left child y takes x's place under
   * x's parent g (or as the root), x becomes y's right child, and y's old right
   * child b becomes x's left child.
   */
  function RotateRight(t: Links, x: nat): (r: Links)
    requires RightRotatable(t, x)
    ensures Closed(r) && |r.left| == |t.left|
  {
    var y := t.left[x];
    var left1 := t.left[x := t.right[y]];
    var parent1 := if left1[x] != NIL then t.parent[left1[x] := x] else t.parent;
    var parent2 := parent1[y := parent1[x]];
    var g := parent2[x];
    var root' := if g == NIL then y else t.root;
    var left2 := if g != NIL && t.left[g] == x then left1[g := y] else left1;
    var right1 := if g != NIL && t.left[g] != x then t.right[g := y] else t.right;
    Links(left2, right1[y := x], parent2[x := y], root')
  }

  /** `RotateRight` relinks exactly x, y, b and g (or the root). */
  lemma RotateRightFacts(t: Links, x: nat)
    requires RightRotatable(t, x)
    ensures RightRotation(t, x, RotateRight(t, x))
  {
  }

  /** The subtree sets after `RightRotate(x)`: y's is x's old one; x's loses y and y's left subtree. */
  ghost function RotateRightSub(t: Links, sub: seq<set<nat>>, x: nat): seq<set<nat>>
    requires Closed(t) && |sub| == |t.left| && x < |t.left|
  {
    var y := t.left[x];
    sub[x := {x} + sub[t.right[x]] + sub[t.right[y]]][y := sub[x]]
  }

  /** Where x, its left child y and their relatives sit in a tree before `RightRotate(x)`. */
  lemma RotateRightSetting(t: Links, live: set<nat>, sub: seq<set<nat>>, x: nat)
    requires Shaped(t, live, sub) && x in live && t.left[x] != NIL
    ensures RightRotatable(t, x)
    ensures var y, a, b, c, g := t.left[x], t.right[x], t.right[t.left[x]], t.left[t.left[x]], t.parent[x];
      && y in live && t.parent[y] == x && y != x && g != x && g != y && b != x && b != y
      && (g == NIL <==> x == t.root) && (g != NIL ==> g in live && (t.right[g] == x || t.left[g] == x))
      && y != t.root && (b != NIL ==> b != t.root && b in live && t.parent[b] == y)
      && a != x && a != y && c != x && c != y && (a != NIL ==> a != b && a in live && t.parent[a] == x)
      && (c != NIL ==> c != b && c in live && t.parent[c] == y)
      && sub[x] == {x} + sub[a] + {y} + sub[b] + sub[c]
      && x !in sub[a] && x !in sub[b] && x !in sub[c] && y !in sub[a] && y !in sub[b] && y !in sub[c]
      && sub[a] !! sub[b] && sub[a] !! sub[c] && sub[b] !! sub[c]
  {
    var y, a, b, c, g := t.left[x], t.right[x], t.right[t.left[x]], t.left[t.left[x]], t.parent[x];
    assert c in live || c == NIL;
    assert y in sub[y];
    if c != NIL {
      assert c in live;
      assert sub[c] == {c} + sub[t.right[c]] + sub[t.left[c]];
    }
    if g != NIL {
      assert x != t.root;
    }
    if x != t.root {
      assert g in live;
    }
  }

  /** Where x, its left child y and their relatives sit in a tree before `RightRotate(x)`: links only. */
  lemma RotateRightLinks(t: Links, live: set<nat>, sub: seq<set<nat>>, x: nat)
    requires Shaped(t, live, sub) && x in live && t.left[x] != NIL
    ensures RightRotatable(t, x) && RightRotation(t, x, RotateRight(t, x))
    ensures var y, a, b, c, g := t.left[x], t.right[x], t.right[t.left[x]], t.left[t.left[x]], t.parent[x];
      && y in live && t.parent[y] == x && y != x && g != x && g != y && b != x && b != y
      && (g == NIL <==> x == t.root) && (g != NIL ==> g in live && (t.left[g] == x || t.right[g] == x))
      && y != t.root && (b != NIL ==> b != t.root && b in live && t.parent[b] == y)
      && a != x && a != y && c != x && c != y && (a != NIL ==> a != b && a in live && t.parent[a] == x)
      && (c != NIL ==> c != b && c in live && t.parent[c] == y)
  {
    RotateRightSetting(t, live, sub, x);
    RotateRightFacts(t, x);
  }


  /** Apart from x, y and x's parent, no node's links or subtree change, and no other node has x or y as a child. */
  lemma RotateRightFrame(t: Links, live: set<nat>, sub: seq<set<nat>>, x: nat, n: nat)
    requires Shaped(t, live, sub) && x in live && t.left[x] != NIL
    requires n in live && n != x && n != t.left[x] && n != t.parent[x]
    ensures t.left[x] != x && t.parent[x] != x && t.parent[x] != t.left[x]
    ensures t.right[t.left[x]] != x && t.right[t.left[x]] != t.left[x]
    ensures t.right[n] != x && t.right[n] != t.left[x] && t.left[n] != x && t.left[n] != t.left[x]
    ensures RotateRight(t, x).right[n] == t.right[n] && RotateRight(t, x).left[n] == t.left[n]
    ensures RotateRightSub(t, sub, x)[n] == sub[n]
  {
    RotateRightSetting(t, live, sub, x);
    RotateRightFacts(t, x);
    var y := t.left[x];
    assert t.right[n] != NIL ==> t.parent[t.right[n]] == n;
    assert t.left[n] != NIL ==> t.parent[t.left[n]] == n;
  }

  /** After `RightRotate(x)` every link still names a live node or the sentinel, and the root still owns the whole tree. */
  lemma RotateRightSized(t: Links, live: set<nat>, sub: seq<set<nat>>, x: nat)
    requires Shaped(t, live, sub) && x in live && t.left[x] != NIL
    ensures var r, sub' := RotateRight(t, x), RotateRightSub(t, sub, x);
      Sized(r, live, sub') && Rooted(r, live, sub') && Within(live, sub')
  {
    RotateRightSetting(t, live, sub, x);
    RotateRightFacts(t, x);
    var r, sub' := RotateRight(t, x), RotateRightSub(t, sub, x);
    var y, g := t.left[x], t.parent[x];
    forall n | n in live
      ensures r.right[n] == NIL || r.right[n] in live
      ensures r.left[n] == NIL || r.left[n] in live
    {
      if n != x && n != y && n != g {
        RotateRightFrame(t, live, sub, x, n);
      }
    }
    if g != NIL {
      assert t.root != x && t.root != y;
    }
  }

  /** After `RightRotate(x)`, x owns its old right subtree and y's old right subtree. */
  lemma RotateRightNestedX(t: Links, live: set<nat>, sub: seq<set<nat>>, x: nat)
    requires Shaped(t, live, sub) && x in live && t.left[x] != NIL
    ensures t.left[x] != x && t.parent[x] != x && t.parent[x] != t.left[x]
    ensures t.right[t.left[x]] != x && t.right[t.left[x]] != t.left[x]
    ensures NestedAt(RotateRight(t, x), RotateRightSub(t, sub, x), x)
  {
    RotateRightSetting(t, live, sub, x);
    RotateRightFacts(t, x);
  }

  /** After `RightRotate(x)`, y owns x's old subtree. */
  lemma RotateRightNestedY(t: Links, live: set<nat>, sub: seq<set<nat>>, x: nat)
    requires Shaped(t, live, sub) && x in live && t.left[x] != NIL
    ensures t.left[x] != x && t.parent[x] != x && t.parent[x] != t.left[x]
    ensures t.right[t.left[x]] != x && t.right[t.left[x]] != t.left[x]
    ensures NestedAt(RotateRight(t, x), RotateRightSub(t, sub, x), t.left[x])
  {
    RotateRightSetting(t, live, sub, x);
    RotateRightFacts(t, x);
  }

  /** After `RightRotate(x)`, x's old parent holds y where it held x. */
  lemma RotateRightNestedG(t: Links, live: set<nat>, sub: seq<set<nat>>, x: nat)
    requires Shaped(t, live, sub) && x in live && t.left[x] != NIL && t.parent[x] != NIL
    ensures t.left[x] != x && t.parent[x] != x && t.parent[x] != t.left[x]
    ensures t.right[t.left[x]] != x && t.right[t.left[x]] != t.left[x]
    ensures NestedAt(RotateRight(t, x), RotateRightSub(t, sub, x), t.parent[x])
  {
    RotateRightSetting(t, live, sub, x);
    RotateRightFacts(t, x);
    var y, g := t.left[x], t.parent[x];
    assert NestedAt(t, sub, g);
    var o := if t.right[g] == x then t.left[g] else t.right[g];
    assert x in sub[x];
    assert o != x && o != y;
  }

  /** After `RightRotate(x)` every subtree is still its root plus its children's disjoint subtrees. */
  lemma RotateRightNested(t: Links, live: set<nat>, sub: seq<set<nat>>, x: nat)
    requires Shaped(t, live, sub) && x in live && t.left[x] != NIL
    ensures var r, sub' := RotateRight(t, x), RotateRightSub(t, sub, x);
      Sized(r, live, sub') && Nested(r, live, sub')
  {
    RotateRightSized(t, live, sub, x);
    var r, sub' := RotateRight(t, x), RotateRightSub(t, sub, x);
    var y, g := t.left[x], t.parent[x];
    forall n | n in live
      ensures NestedAt(r, sub', n)
    {
      if n == x {
        RotateRightNestedX(t, live, sub, x);
      } else if n == y {
        RotateRightNestedY(t, live, sub, x);
      } else if n == g {
        RotateRightNestedG(t, live, sub, x);
      } else {
        RotateRightFrame(t, live, sub, x, n);
        assert NestedAt(t, sub, n);
      }
    }
  }

  /** After `RightRotate(x)` every child's parent link points back at the node that holds it. */
  lemma RotateRightChildLinks(t: Links, live: set<nat>, sub: seq<set<nat>>, x: nat, n: nat)
    requires Shaped(t, live, sub) && x in live && t.left[x] != NIL && n in live
    ensures t.left[x] != x && t.parent[x] != x && t.parent[x] != t.left[x]
    ensures t.right[t.left[x]] != x && t.right[t.left[x]] != t.left[x]
    ensures var r := RotateRight(t, x);
      && (r.right[n] != NIL ==> r.parent[r.right[n]] == n)
      && (r.left[n] != NIL ==> r.parent[r.left[n]] == n)
  {
    RotateRightSetting(t, live, sub, x);
    RotateRightFacts(t, x);
    var y, b, g := t.left[x], t.right[t.left[x]], t.parent[x];
    if n == x || n == y {
    } else if n == g {
      var o := if t.right[g] == x then t.left[g] else t.right[g];
      assert NestedAt(t, sub, g);
      assert x in sub[x];
      assert o != x && o != y;
      if o != NIL {
        assert t.parent[o] == g;
        assert o != b;
      }
    } else {
      RotateRightFrame(t, live, sub, x, n);
      assert t.right[n] != NIL ==> t.parent[t.right[n]] == n;
      assert t.left[n] != NIL ==> t.parent[t.left[n]] == n;
    }
  }

  /** After `RightRotate(x)` every live node but the root still hangs from a live parent that holds it. */
  lemma RotateRightParentLink(t: Links, live: set<nat>, sub: seq<set<nat>>, x: nat, n: nat)
    requires Shaped(t, live, sub) && x in live && t.left[x] != NIL && n in live
    ensures t.left[x] != x && t.parent[x] != x && t.parent[x] != t.left[x]
    ensures t.right[t.left[x]] != x && t.right[t.left[x]] != t.left[x]
    ensures var r := RotateRight(t, x);
      n != r.root ==> r.parent[n] in live && (r.right[r.parent[n]] == n || r.left[r.parent[n]] == n)
  {
    RotateRightSetting(t, live, sub, x);
    RotateRightFacts(t, x);
    var y, a, b, c, g := t.left[x], t.right[x], t.right[t.left[x]], t.left[t.left[x]], t.parent[x];
    if n == x || n == y || n == b {
    } else if n != RotateRight(t, x).root {
      assert n != t.root;
      var p := t.parent[n];
      assert p in live;
      if p == x {
        assert n == a;
      } else if p == y {
        assert n == c;
      } else if p == g {
        assert NestedAt(t, sub, g);
      } else {
        RotateRightFrame(t, live, sub, x, p);
      }
    }
  }

  /** After `RightRotate(x)` parent and child links agree. */
  lemma RotateRightLinked(t: Links, live: set<nat>, sub: seq<set<nat>>, x: nat)
    requires Shaped(t, live, sub) && x in live && t.left[x] != NIL
    ensures var r, sub' := RotateRight(t, x), RotateRightSub(t, sub, x);
      Sized(r, live, sub') && Linked(r, live)
  {
    RotateRightSized(t, live, sub, x);
    var r := RotateRight(t, x);
    forall n | n in live
      ensures r.right[n] != NIL ==> r.parent[r.right[n]] == n
      ensures r.left[n] != NIL ==> r.parent[r.left[n]] == n
      ensures n != r.root ==> r.parent[n] in live && (r.right[r.parent[n]] == n || r.left[r.parent[n]] == n)
    {
      RotateRightChildLinks(t, live, sub, x, n);
      RotateRightParentLink(t, live, sub, x, n);
    }
  }

  /** `RightRotate(x)` keeps the links a binary tree over the same nodes. */
  lemma RotateRightShaped(t: Links, live: set<nat>, sub: seq<set<nat>>, x: nat)
    requires Shaped(t, live, sub) && x in live && t.left[x] != NIL
    ensures RightRotatable(t, x) && RightRotation(t, x, RotateRight(t, x))
    ensures Shaped(RotateRight(t, x), live, RotateRightSub(t, sub, x))
  {
    RotateRightSetting(t, live, sub, x);
    RotateRightFacts(t, x);
    RotateRightSized(t, live, sub, x);
    RotateRightNested(t, live, sub, x);
    RotateRightLinked(t, live, sub, x);
  }

  /** `RightRotate(x)` keeps binary-search-tree order. */
  lemma RotateRightOrdered(t: Links, live: set<nat>, sub: seq<set<nat>>, key: seq<int>, x: nat)
    requires Shaped(t, live, sub) && |key| == |t.left| && Ordered(t, live, sub, key)
    requires x in live && t.left[x] != NIL
    ensures t.left[x] != x && t.parent[x] != x && t.parent[x] != t.left[x]
    ensures t.right[t.left[x]] != x && t.right[t.left[x]] != t.left[x]
    ensures Shaped(RotateRight(t, x), live, RotateRightSub(t, sub, x))
    ensures Ordered(RotateRight(t, x), live, RotateRightSub(t, sub, x), key)
  {
    RotateRightShaped(t, live, sub, x);
    var r, sub' := RotateRight(t, x), RotateRightSub(t, sub, x);
    forall n | n in live
      ensures OrderedAt(r, sub', key, n)
    {
      if n == x || n == t.left[x] {
        RotateRightOrderedXY(t, live, sub, key, x);
      } else {
        RotateRightOrderedAt(t, live, sub, key, x, n);
      }
    }
  }

  /** After `RightRotate(x)`, order holds at x and at y. */
  lemma RotateRightOrderedXY(t: Links, live: set<nat>, sub: seq<set<nat>>, key: seq<int>, x: nat)
    requires Shaped(t, live, sub) && |key| == |t.left| && Ordered(t, live, sub, key)
    requires x in live && t.left[x] != NIL
    ensures t.left[x] != x && t.parent[x] != x && t.parent[x] != t.left[x]
    ensures t.right[t.left[x]] != x && t.right[t.left[x]] != t.left[x]
    ensures Within(live, RotateRightSub(t, sub, x))
    ensures OrderedAt(RotateRight(t, x), RotateRightSub(t, sub, x), key, x)
    ensures OrderedAt(RotateRight(t, x), RotateRightSub(t, sub, x), key, t.left[x])
  {
    RotateRightSetting(t, live, sub, x);
    RotateRightFacts(t, x);
    RotateRightSized(t, live, sub, x);
    var y := t.left[x];
    assert OrderedAt(t, sub, key, x) && OrderedAt(t, sub, key, y);
    assert NestedAt(t, sub, y);
    assert y in sub[y];
  }

  /** Order at every node other than x and y survives `RightRotate(x)`. */
  lemma RotateRightOrderedAt(t: Links, live: set<nat>, sub: seq<set<nat>>, key: seq<int>, x: nat, n: nat)
    requires Shaped(t, live, sub) && |key| == |t.left| && Ordered(t, live, sub, key)
    requires x in live && t.left[x] != NIL && n in live && n != x && n != t.left[x]
    ensures t.left[x] != x && t.parent[x] != x && t.parent[x] != t.left[x]
    ensures t.right[t.left[x]] != x && t.right[t.left[x]] != t.left[x]
    ensures Within(live, RotateRightSub(t, sub, x))
    ensures OrderedAt(RotateRight(t, x), RotateRightSub(t, sub, x), key, n)
  {
    RotateRightSized(t, live, sub, x);
    assert OrderedAt(t, sub, key, n);
    if n == t.parent[x] {
      RotateRightSetting(t, live, sub, x);
      RotateRightFacts(t, x);
    } else {
      RotateRightFrame(t, live, sub, x, n);
    }
  }
}
