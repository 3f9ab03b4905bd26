/**
 * An ordered map from integer keys to values, kept as a red-black tree whose
 * nodes live in an arena of parallel sequences indexed by node id. Slot NIL
 * is the shared black sentinel: every missing child and the root's parent
 * point at it, and it doubles as the end position of iteration.
 */
module RedBlackTrees {
  import opened Arena
  import opened RedBlackRules
  import opened Attachment
  import opened DeleteRules
  import opened Removal
  import opened Navigation
  import opened Indexing
  import opened Teardown

  /** A position in the tree: a node id, or NIL for the end. */
  datatype Iterator = Iterator(node: nat)

  /** The result of `At`: the value stored under the key, or the out-of-range failure. */
  datatype Lookup<V> = Found(value: V) | OutOfRange

  /**
   * One pass of `InsertFixup`'s loop when z's parent p is the left child of
   * its grandparent g: with a red uncle, recolour and move z up to g;
   * otherwise rotate z's parent up (if z is an inner child) and then g down.
   */
  method InsertFixupLeftCase(t: Links, c: seq<Color>, ghost live: set<nat>, ghost sub: seq<set<nat>>, key: seq<int>, ghost bh: seq<nat>, z: nat)
    returns (t': Links, c': seq<Color>, ghost sub': seq<set<nat>>, ghost bh': seq<nat>, z': nat)
    requires InsertState(t, live, sub, key, c, bh, z) && c[t.parent[z]] == Red
    requires t.parent[z] == t.left[t.parent[t.parent[z]]]
    ensures InsertState(t', live, sub', key, c', bh', z')
    ensures c'[t'.parent[z']] == Black || live - sub'[z'] < live - sub[z]
  {
    InsertSetting(t, live, sub, c, bh, z);
    var p := t.parent[z];
    var g := t.parent[p];
    var u := t.right[g];
    if c[u] == Red {
      InsertRecolorStep(t, live, sub, key, c, bh, z, p, g, u);
      c' := c[p := Black][u := Black][g := Red];
      t', sub', bh', z' := t, sub, bh[g := bh[g] + 1], g;
    } else {
      t', sub', z' := t, sub, z;
      if z == t.right[p] {
        InsertInnerLeftStep(t, live, sub, key, c, bh, z, p, g, u);
        z' := p;
        sub' := RotateLeftSub(t, sub, p);
        t' := RotateLeft(t, p);
      }
      InsertOuterLeftStep(t', live, sub', key, c, bh, z', t'.parent[z'], g, u);
      c' := c[t'.parent[z'] := Black][g := Red];
      bh' := bh;
      sub' := RotateRightSub(t', sub', g);
      t' := RotateRight(t', g);
    }
  }

  /**
   * One pass of `InsertFixup`'s loop when z's parent p is the right child of
   * its grandparent g: with a red uncle, recolour and move z up to g;
   * otherwise rotate z's parent up (if z is an inner child) and then g down.
   */
  method InsertFixupRightCase(t: Links, c: seq<Color>, ghost live: set<nat>, ghost sub: seq<set<nat>>, key: seq<int>, ghost bh: seq<nat>, z: nat)
    returns (t': Links, c': seq<Color>, ghost sub': seq<set<nat>>, ghost bh': seq<nat>, z': nat)
    requires InsertState(t, live, sub, key, c, bh, z) && c[t.parent[z]] == Red
    requires t.parent[z] != t.left[t.parent[t.parent[z]]]
    ensures InsertState(t', live, sub', key, c', bh', z')
    ensures c'[t'.parent[z']] == Black || live - sub'[z'] < live - sub[z]
  {
    InsertSetting(t, live, sub, c, bh, z);
    var p := t.parent[z];
    var g := t.parent[p];
    var u := t.left[g];
    if c[u] == Red {
      InsertRecolorStep(t, live, sub, key, c, bh, z, p, g, u);
      c' := c[p := Black][u := Black][g := Red];
      t', sub', bh', z' := t, sub, bh[g := bh[g] + 1], g;
    } else {
      t', sub', z' := t, sub, z;
      if z == t.left[p] {
        InsertInnerRightStep(t, live, sub, key, c, bh, z, p, g, u);
        z' := p;
        sub' := RotateRightSub(t, sub, p);
        t' := RotateRight(t, p);
      }
      InsertOuterRightStep(t', live, sub', key, c, bh, z', t'.parent[z'], g, u);
      c' := c[t'.parent[z'] := Black][g := Red];
      bh' := bh;
      sub' := RotateLeftSub(t', sub', g);
      t' := RotateLeft(t', g);
    }
  }

  /**
   * The loop of `InsertFixup` on the links and colours: while z's parent is
   * red, run the case for the side z's parent hangs on; then paint the root
   * black. The result is a red-black tree over the same nodes and keys.
   */
  method FixInsert(t0: Links, c0: seq<Color>, ghost live: set<nat>, ghost sub0: seq<set<nat>>, key: seq<int>, ghost bh0: seq<nat>, node: nat)
    returns (t: Links, c: seq<Color>, ghost sub: seq<set<nat>>, ghost bh: seq<nat>)
    requires InsertState(t0, live, sub0, key, c0, bh0, node)
    ensures RedBlack(t, live, sub, key, c, bh)
  {
    var z;
    t, c, sub, bh, z := t0, c0, sub0, bh0, node;
    while c[t.parent[z]] == Red
      invariant InsertState(t, live, sub, key, c, bh, z)
      decreases if c[t.parent[z]] == Red then 1 else 0, live - sub[z]
    {
      if t.parent[z] == t.left[t.parent[t.parent[z]]] {
        t, c, sub, bh, z := InsertFixupLeftCase(t, c, live, sub, key, bh, z);
      } else {
        t, c, sub, bh, z := InsertFixupRightCase(t, c, live, sub, key, bh, z);
      }
    }
    InsertFinish(t, live, sub, key, c, bh, z);
    c := c[t.root := Black];
  }

  /**
   * Case 1 of `DeleteFixup`, x a left child: a red sibling turns black, p
   * red, and the tree rotates left at p, so that x's new sibling is black.
   * A black sibling is left as it is.
   */
  method DeleteRedSiblingLeftCase(t: Links, c: seq<Color>, ghost live: set<nat>, ghost sub: seq<set<nat>>, key: seq<int>, ghost bh: seq<nat>, x: nat)
    returns (t': Links, c': seq<Color>, ghost sub': seq<set<nat>>, s: nat)
    requires DeleteState(t, live, sub, key, c, bh, x) && x != t.root && c[x] == Black && x == t.left[t.parent[x]]
    ensures DeleteState(t', live, sub', key, c', bh, x) && x != t'.root && LeftSibling(t', x, t.parent[x], s)
    ensures c'[s] == Black && sub'[x] == sub[x]
  {
    var p := t.parent[x];
    s := t.right[p];
    t', c', sub' := t, c, sub;
    if c[s] == Red {
      DeleteRedSiblingLeftStep(t, live, sub, key, c, bh, x, p, s);
      c' := c[s := Black][p := Red];
      sub' := RotateLeftSub(t, sub, p);
      t' := RotateLeft(t, p);
      s := t'.right[p];
    }
  }

  /**
   * Case 1 of `DeleteFixup`, x a right child: a red sibling turns black, p
   * red, and the tree rotates right at p, so that x's new sibling is black.
   * A black sibling is right as it is.
   */
  method DeleteRedSiblingRightCase(t: Links, c: seq<Color>, ghost live: set<nat>, ghost sub: seq<set<nat>>, key: seq<int>, ghost bh: seq<nat>, x: nat)
    returns (t': Links, c': seq<Color>, ghost sub': seq<set<nat>>, s: nat)
    requires DeleteState(t, live, sub, key, c, bh, x) && x != t.root && c[x] == Black && x != t.left[t.parent[x]]
    ensures DeleteState(t', live, sub', key, c', bh, x) && x != t'.root && RightSibling(t', x, t.parent[x], s)
    ensures c'[s] == Black && sub'[x] == sub[x]
  {
    var p := t.parent[x];
    s := t.left[p];
    t', c', sub' := t, c, sub;
    if c[s] == Red {
      DeleteRedSiblingRightStep(t, live, sub, key, c, bh, x, p, s);
      c' := c[s := Black][p := Red];
      sub' := RotateRightSub(t, sub, p);
      t' := RotateRight(t, p);
      s := t'.left[p];
    }
  }

  /**
   * One pass of `DeleteFixup`'s loop when x is the left child of p, with
   * sibling s: a red sibling is first rotated above p (case 1). Then, if
   * both of the sibling's children are black, the sibling turns red and x
   * moves up to p (case 2); otherwise a red inner nephew is first rotated
   * outward (case 3), and a rotation at p absorbs the extra black, after
   * which x is the root (case 4).
   */
  method DeleteFixupLeftCase(t: Links, c: seq<Color>, ghost live: set<nat>, ghost sub: seq<set<nat>>, key: seq<int>, ghost bh: seq<nat>, x: nat)
    returns (t': Links, c': seq<Color>, ghost sub': seq<set<nat>>, ghost bh': seq<nat>, x': nat)
    requires DeleteState(t, live, sub, key, c, bh, x) && x != t.root && c[x] == Black
    requires x == t.left[t.parent[x]]
    ensures DeleteState(t', live, sub', key, c', bh', x')
    ensures live - sub'[x'] < live - sub[x]
  {
    var p := t.parent[x];
    var s;
    t', c', sub', s := DeleteRedSiblingLeftCase(t, c, live, sub, key, bh, x);
    bh' := bh;
    if c'[t'.left[s]] == Black && c'[t'.right[s]] == Black {
      DeleteRecolorLeftStep(t', live, sub', key, c', bh, x, p, s);
      c' := c'[s := Red];
      bh' := bh[p := bh[s]];
      x' := p;
    } else {
      if c'[t'.right[s]] == Black {
        t', c', sub', s := DeleteInnerLeftCase(t', c', live, sub', key, bh, x, s);
      }
      t', c', sub', bh' := DeleteOuterLeftCase(t', c', live, sub', key, bh, x, s);
      x' := t'.root;
    }
  }

  /**
   * Case 3 of `DeleteFixup`, x a left child whose black sibling s has a red
   * left child and a black right one: s's left child turns black, s red,
   * and the tree rotates right at s, so that x's new sibling has a red
   * right child.
   */
  method DeleteInnerLeftCase(t: Links, c: seq<Color>, ghost live: set<nat>, ghost sub: seq<set<nat>>, key: seq<int>, ghost bh: seq<nat>, x: nat, s: nat)
    returns (t': Links, c': seq<Color>, ghost sub': seq<set<nat>>, s': nat)
    requires DeleteState(t, live, sub, key, c, bh, x) && x != t.root && c[x] == Black && LeftSibling(t, x, t.parent[x], s)
    requires c[s] == Black && c[t.left[s]] == Red && c[t.right[s]] == Black
    ensures DeleteState(t', live, sub', key, c', bh, x) && x != t'.root && LeftSibling(t', x, t.parent[x], s')
    ensures c'[s'] == Black && c'[t'.right[s']] == Red && sub'[x] == sub[x]
  {
    DeleteInnerLeftStep(t, live, sub, key, c, bh, x, t.parent[x], s);
    c' := c[t.left[s] := Black][s := Red];
    sub' := RotateRightSub(t, sub, s);
    t' := RotateRight(t, s);
    s' := t'.right[t.parent[x]];
  }

  /**
   * Case 4 of `DeleteFixup`, x a left child whose black sibling s has a red
   * right child: s takes p's colour, p and s's right child turn black, and
   * the tree rotates left at p. The extra black is absorbed, and the loop
   * ends at the root.
   */
  method DeleteOuterLeftCase(t: Links, c: seq<Color>, ghost live: set<nat>, ghost sub: seq<set<nat>>, key: seq<int>, ghost bh: seq<nat>, x: nat, s: nat)
    returns (t': Links, c': seq<Color>, ghost sub': seq<set<nat>>, ghost bh': seq<nat>)
    requires DeleteState(t, live, sub, key, c, bh, x) && x != t.root && c[x] == Black && LeftSibling(t, x, t.parent[x], s)
    requires c[s] == Black && c[t.right[s]] == Red
    ensures DeleteState(t', live, sub', key, c', bh', t'.root) && live - sub'[t'.root] < live - sub[x]
  {
    var p := t.parent[x];
    DeleteOuterLeftStep(t, live, sub, key, c, bh, x, p, s);
    c' := c[s := c[p]][p := Black][t.right[s] := Black];
    bh' := bh[p := bh[s]][s := bh[p]];
    sub' := RotateLeftSub(t, sub, p);
    t' := RotateLeft(t, p);
  }

  /** The mirror of `DeleteFixupLeftCase`, with x the right child of its parent. */
  method DeleteFixupRightCase(t: Links, c: seq<Color>, ghost live: set<nat>, ghost sub: seq<set<nat>>, key: seq<int>, ghost bh: seq<nat>, x: nat)
    returns (t': Links, c': seq<Color>, ghost sub': seq<set<nat>>, ghost bh': seq<nat>, x': nat)
    requires DeleteState(t, live, sub, key, c, bh, x) && x != t.root && c[x] == Black
    requires x != t.left[t.parent[x]]
    ensures DeleteState(t', live, sub', key, c', bh', x')
    ensures live - sub'[x'] < live - sub[x]
  {
    var p := t.parent[x];
    var s;
    t', c', sub', s := DeleteRedSiblingRightCase(t, c, live, sub, key, bh, x);
    bh' := bh;
    if c'[t'.right[s]] == Black && c'[t'.left[s]] == Black {
      DeleteRecolorRightStep(t', live, sub', key, c', bh, x, p, s);
      c' := c'[s := Red];
      bh' := bh[p := bh[s]];
      x' := p;
    } else {
      if c'[t'.left[s]] == Black {
        t', c', sub', s := DeleteInnerRightCase(t', c', live, sub', key, bh, x, s);
      }
      t', c', sub', bh' := DeleteOuterRightCase(t', c', live, sub', key, bh, x, s);
      x' := t'.root;
    }
  }

  /**
   * Case 3 of `DeleteFixup`, x a right child whose black sibling s has a red
   * right child and a black left one: s's right child turns black, s red,
   * and the tree rotates left at s, so that x's new sibling has a red
   * left child.
   */
  method DeleteInnerRightCase(t: Links, c: seq<Color>, ghost live: set<nat>, ghost sub: seq<set<nat>>, key: seq<int>, ghost bh: seq<nat>, x: nat, s: nat)
    returns (t': Links, c': seq<Color>, ghost sub': seq<set<nat>>, s': nat)
    requires DeleteState(t, live, sub, key, c, bh, x) && x != t.root && c[x] == Black && RightSibling(t, x, t.parent[x], s)
    requires c[s] == Black && c[t.right[s]] == Red && c[t.left[s]] == Black
    ensures DeleteState(t', live, sub', key, c', bh, x) && x != t'.root && RightSibling(t', x, t.parent[x], s')
    ensures c'[s'] == Black && c'[t'.left[s']] == Red && sub'[x] == sub[x]
  {
    DeleteInnerRightStep(t, live, sub, key, c, bh, x, t.parent[x], s);
    c' := c[t.right[s] := Black][s := Red];
    sub' := RotateLeftSub(t, sub, s);
    t' := RotateLeft(t, s);
    s' := t'.left[t.parent[x]];
  }

  /**
   * Case 4 of `DeleteFixup`, x a right child whose black sibling s has a red
   * left child: s takes p's colour, p and s's left child turn black, and
   * the tree rotates right at p. The extra black is absorbed, and the loop
   * ends at the root.
   */
  method DeleteOuterRightCase(t: Links, c: seq<Color>, ghost live: set<nat>, ghost sub: seq<set<nat>>, key: seq<int>, ghost bh: seq<nat>, x: nat, s: nat)
    returns (t': Links, c': seq<Color>, ghost sub': seq<set<nat>>, ghost bh': seq<nat>)
    requires DeleteState(t, live, sub, key, c, bh, x) && x != t.root && c[x] == Black && RightSibling(t, x, t.parent[x], s)
    requires c[s] == Black && c[t.left[s]] == Red
    ensures DeleteState(t', live, sub', key, c', bh', t'.root) && live - sub'[t'.root] < live - sub[x]
  {
    var p := t.parent[x];
    DeleteOuterRightStep(t, live, sub, key, c, bh, x, p, s);
    c' := c[s := c[p]][p := Black][t.left[s] := Black];
    bh' := bh[p := bh[s]][s := bh[p]];
    sub' := RotateRightSub(t, sub, p);
    t' := RotateRight(t, p);
  }

  /**
   * The loop of `DeleteFixup` on the links and colours: while x is black
   * and not the root, run the case for the side x hangs on; then paint x
   * black. The result is a red-black tree over the same nodes and keys.
   */
  method FixDelete(t0: Links, c0: seq<Color>, ghost live: set<nat>, ghost sub0: seq<set<nat>>, key: seq<int>, ghost bh0: seq<nat>, node: nat)
    returns (t: Links, c: seq<Color>, ghost sub: seq<set<nat>>, ghost bh: seq<nat>)
    requires DeleteState(t0, live, sub0, key, c0, bh0, node)
    ensures RedBlack(t, live, sub, key, c, bh)
  {
    var x;
    t, c, sub, bh, x := t0, c0, sub0, bh0, node;
    while x != t.root && c[x] == Black
      invariant DeleteState(t, live, sub, key, c, bh, x)
      decreases live - sub[x]
    {
      if x == t.left[t.parent[x]] {
        t, c, sub, bh, x := DeleteFixupLeftCase(t, c, live, sub, key, bh, x);
      } else {
        t, c, sub, bh, x := DeleteFixupRightCase(t, c, live, sub, key, bh, x);
      }
    }
    DeleteFinish(t, live, sub, key, c, bh, x);
    c := c[x := Black];
  }

  /** The keys of the map are exactly the keys of the live nodes, each found at its node. */
  lemma KeyNodes<V>(key: seq<int>, val: seq<V>, live: set<nat>, index: map<int, nat>)
    requires IndexedBy(key, val, live, index)
    ensures forall k {:trigger k in MapOf(index, val)} :: k in MapOf(index, val) ==> index[k] in live && key[index[k]] == k
    ensures forall n {:trigger n in live} :: n in live ==> key[n] in MapOf(index, val)
  {
  }

  /**
   * A red-black tree where the as-written predecessor goes wrong: the black
   * root 1 (key 1) has the red right child 2 (key 2). Node 2 has no left
   * child, so `TreePredecessorAsWritten` runs `TreeMaximum(nil_)` at 2
   * rather than climbing, yet node 1 holds the next smaller key.
   */
  lemma PredecessorCounterexample(t: Links, live: set<nat>, sub: seq<set<nat>>, key: seq<int>, color: seq<Color>, bh: seq<nat>)
    requires t == Links([0, 0, 0], [0, 2, 0], [0, 0, 1], 1) && live == {1, 2} && sub == [{}, {1, 2}, {2}]
    requires key == [0, 1, 2] && color == [Black, Black, Red] && bh == [0, 1, 1]
    ensures RedBlack(t, live, sub, key, color, bh) && t.left[2] == NIL && PrevIn(live, key, 2, 1)
  {
    CounterexampleOrdered(t, live, sub, key);
    CounterexamplePainted(t, live, sub, color, bh);
  }

  /** The links of the counterexample hang every node from the root, with sub their subtrees. */
  lemma CounterexampleSized(t: Links, live: set<nat>, sub: seq<set<nat>>)
    requires t == Links([0, 0, 0], [0, 2, 0], [0, 0, 1], 1) && live == {1, 2} && sub == [{}, {1, 2}, {2}]
    ensures Sized(t, live, sub) && Rooted(t, live, sub) && Within(live, sub)
  {
  }

  /** The links of the counterexample form a binary tree. */
  lemma CounterexampleShaped(t: Links, live: set<nat>, sub: seq<set<nat>>)
    requires t == Links([0, 0, 0], [0, 2, 0], [0, 0, 1], 1) && live == {1, 2} && sub == [{}, {1, 2}, {2}]
    ensures Shaped(t, live, sub)
  {
    CounterexampleSized(t, live, sub);
    assert NestedAt(t, sub, 1) && NestedAt(t, sub, 2);
  }

  /** The keys of the counterexample are in search-tree order. */
  lemma CounterexampleOrdered(t: Links, live: set<nat>, sub: seq<set<nat>>, key: seq<int>)
    requires t == Links([0, 0, 0], [0, 2, 0], [0, 0, 1], 1) && live == {1, 2} && sub == [{}, {1, 2}, {2}] && key == [0, 1, 2]
    ensures Shaped(t, live, sub) && |key| == |t.left| && Ordered(t, live, sub, key)
  {
    CounterexampleShaped(t, live, sub);
    assert OrderedAt(t, sub, key, 1) && OrderedAt(t, sub, key, 2);
  }

  /** The colours and black heights of the counterexample keep the red-black rules. */
  lemma CounterexamplePainted(t: Links, live: set<nat>, sub: seq<set<nat>>, color: seq<Color>, bh: seq<nat>)
    requires t == Links([0, 0, 0], [0, 2, 0], [0, 0, 1], 1) && live == {1, 2} && color == [Black, Black, Red] && bh == [0, 1, 1]
    ensures Painted(t, live, color, bh) && Heights(t, live, color, bh, NIL, true) && RedRule(t, live, color, NIL) && color[t.root] == Black
  {
    assert HeightsAt(t, color, bh, 1, NIL, true) && HeightsAt(t, color, bh, 2, NIL, true);
  }

  class RedBlackTree<V> {
    var key: seq<int>
    var val: seq<V>
    var color: seq<Color>
    var left: seq<nat>
    var right: seq<nat>
    var parent: seq<nat>
    var root: nat
    /** The value a missing key is given by `Subscript` (the value type's default). */
    const Default: V

    /** The nodes of the tree (the sentinel excluded). */
    ghost var Live: set<nat>
    /** The ids in each node's subtree; empty for the sentinel and for freed slots. */
    ghost var Sub: seq<set<nat>>
    /** The black height of each node. */
    ghost var Bh: seq<nat>
    /** The node holding each key. */
    ghost var Index: map<int, nat>

    function Linkage(): Links
      reads this`left, this`right, this`parent, this`root
    {
      Links(left, right, parent, root)
    }

    /** Keys and nodes correspond one to one, and every node has a value. */
    ghost predicate Indexed()
      reads this`key, this`val, this`Live, this`Index
    {
      IndexedBy(key, val, Live, Index)
    }

    /** A binary search tree over Live, colours aside. */
    ghost predicate SearchTree()
      reads this`left, this`right, this`parent, this`root, this`Live, this`Sub, this`key
    {
      Shaped(Linkage(), Live, Sub) && |key| == |left| && Ordered(Linkage(), Live, Sub, key)
    }

    /** A red-black search tree over Live whose keys Index locates. */
    ghost predicate Valid()
      reads this`left, this`right, this`parent, this`root, this`key, this`val, this`color
      reads this`Live, this`Sub, this`Bh, this`Index
    {
      RedBlack(Linkage(), Live, Sub, key, color, Bh) && Indexed()
    }

    /** The map the tree stands for. */
    ghost function Contents(): map<int, V>
      reads this`Index, this`val
    {
      MapOf(Index, val)
    }

    /** An empty tree: only the black sentinel. */
    constructor(default: V)
      ensures Valid() && Contents() == map[] && root == NIL && color[NIL] == Black
      ensures Default == default
    {
      key, val, color := [0], [default], [Black];
      left, right, parent, root := [NIL], [NIL], [NIL], NIL;
      Default := default;
      Live, Sub, Bh, Index := {}, [{}], [0], map[];
    }

    /**
     * Rotates left at x: x's right child y takes x's place, x becomes y's
     * left child, and y's old left subtree becomes x's right subtree.
     */
    method LeftRotate(x: nat)
      requires LeftRotatable(Linkage(), x) && |Sub| == |left|
      modifies this`left, this`right, this`parent, this`root, this`Sub
      ensures Linkage() == RotateLeft(old(Linkage()), x) && Sub == RotateLeftSub(old(Linkage()), old(Sub), x)
    {
      ghost var t := Linkage();
      var l, r, p, top := left, right, parent, root;
      var y := right[x];
      r := r[x := l[y]];
      if r[x] != NIL {
        p := p[r[x] := x];
      }
      p := p[y := p[x]];
      if p[x] == NIL {
        top := y;
      } else if l[p[x]] == x {
        l := l[p[x] := y];
      } else {
        r := r[p[x] := y];
      }
      l := l[y := x];
      p := p[x := y];
      left, right, parent, root := l, r, p, top;
      Sub := RotateLeftSub(t, Sub, x);
    }

    /**
     * Rotates right at x: x's left child y takes x's place, x becomes y's
     * right child, and y's old right subtree becomes x's left subtree.
     */
    method RightRotate(x: nat)
      requires RightRotatable(Linkage(), x) && |Sub| == |left|
      modifies this`left, this`right, this`parent, this`root, this`Sub
      ensures Linkage() == RotateRight(old(Linkage()), x) && Sub == RotateRightSub(old(Linkage()), old(Sub), x)
    {
      ghost var t := Linkage();
      var l, r, p, top := left, right, parent, root;
      var y := left[x];
      l := l[x := r[y]];
      if l[x] != NIL {
        p := p[l[x] := x];
      }
      p := p[y := p[x]];
      if p[x] == NIL {
        top := y;
      } else if l[p[x]] == x {
        l := l[p[x] := y];
      } else {
        r := r[p[x] := y];
      }
      r := r[y := x];
      p := p[x := y];
      left, right, parent, root := l, r, p, top;
      Sub := RotateRightSub(t, Sub, x);
    }

    /**
     * The descent of `Insert` and `operator[]`: the link where the search for
     * k stops, which holds k's node when k is present and is empty otherwise.
     */
    method Descend(k: int) returns (s: Slot)
      requires Valid()
      ensures SlotIn(Linkage(), Live, s) && Fits(Linkage(), Live, Sub, key, s, k)
      ensures Target(Linkage(), s) == NIL <==> k !in Contents()
      ensures Target(Linkage(), s) != NIL ==> Target(Linkage(), s) == Index[k]
    {
      s := RootSlot;
      while Target(Linkage(), s) != NIL
        invariant SlotIn(Linkage(), Live, s) && Fits(Linkage(), Live, Sub, key, s, k)
        invariant Target(Linkage(), s) == NIL || Target(Linkage(), s) in Live
        invariant k in Index ==> Index[k] in Sub[Target(Linkage(), s)]
        decreases Sub[Target(Linkage(), s)]
      {
        var now := Target(Linkage(), s);
        if k == key[now] {
          return;
        }
        DescendStep(Linkage(), Live, Sub, key, s, k, if k in Index then Index[k] else now);
        if k < key[now] {
          s := LeftOf(now);
        } else {
          s := RightOf(now);
        }
      }
    }

    /**
     * Hangs a new red node holding (k, v) at the empty link s where k belongs,
     * then restores the red-black rules; the map gains k.
     */
    method AddLeaf(s: Slot, k: int, v: V) returns (node: nat)
      requires Valid() && SlotIn(Linkage(), Live, s) && Fits(Linkage(), Live, Sub, key, s, k)
      requires Target(Linkage(), s) == NIL && k !in Index
      modifies this
      ensures Valid() && Contents() == old(Contents())[k := v]
      ensures node in Live && key[node] == k && val[node] == v && Index[k] == node
      ensures Live == old(Live) + {node} && key == old(key) + [k] && val == old(val) + [v]
    {
      node := Graft(s, k, v);
      InsertFixup(node);
    }

    /**
     * Hangs a new red node holding (k, v) at s and records it: the index
     * gains k, and the tree awaits `InsertFixup` at the new node.
     */
    method Graft(s: Slot, k: int, v: V) returns (node: nat)
      requires RedBlack(Linkage(), Live, Sub, key, color, Bh) && SlotIn(Linkage(), Live, s) && Fits(Linkage(), Live, Sub, key, s, k)
      requires Target(Linkage(), s) == NIL && Indexed() && k !in Index
      modifies this`key, this`val, this`color, this`left, this`right, this`parent, this`root
      modifies this`Live, this`Sub, this`Bh, this`Index
      ensures InsertState(Linkage(), Live, Sub, key, color, Bh, node) && Indexed()
      ensures Contents() == old(Contents())[k := v]
      ensures node in Live && key[node] == k && val[node] == v && Index[k] == node
      ensures Live == old(Live) + {node} && key == old(key) + [k] && val == old(val) + [v]
    {
      node := Hang(s, k, v);
      Live, Index, Sub, Bh := Live + {node}, Index[k := node], AttachSub(Sub, s), Bh + [1];
      AttachState(old(Linkage()), old(Live), old(Sub), old(key), old(color), old(Bh), s, k, Linkage(), Live, Sub, key, color, Bh);
      IndexAdd(old(key), old(val), old(Live), old(Index), k, v, key, val, Live, Index);
    }

    /** Stores (k, v) in a new red node with sentinel children, linked in at s. */
    method Hang(s: Slot, k: int, v: V) returns (node: nat)
      requires Closed(Linkage()) && |key| == |left| && (!s.RootSlot? ==> s.owner < |left|)
      modifies this`key, this`val, this`color, this`left, this`right, this`parent, this`root
      ensures node == old(|key|) && Linkage() == Attach(old(Linkage()), s)
      ensures key == old(key) + [k] && val == old(val) + [v] && color == old(color) + [Red]
    {
      node := |key|;
      key, val, color := key + [k], val + [v], color + [Red];
      left, right, parent := left + [NIL], right + [NIL], parent + [SlotParent(s)];
      match s {
        case RootSlot => root := node;
        case LeftOf(n) => left := left[n := node];
        case RightOf(n) => right := right[n := node];
      }
    }

    /**
     * Inserts (k, v) unless k is present: returns k's node and whether it was
     * added. A present key leaves the tree untouched.
     */
    method Insert(k: int, v: V) returns (it: Iterator, inserted: bool)
      requires Valid()
      modifies this
      ensures Valid()
      ensures inserted <==> k !in old(Contents())
      ensures !inserted ==> unchanged(this)
      ensures Contents() == if inserted then old(Contents())[k := v] else old(Contents())
      ensures it.node in Live && key[it.node] == k && Index[k] == it.node
      ensures old(Live) <= Live && old(key) <= key && old(val) <= val
    {
      var s := Descend(k);
      if Target(Linkage(), s) != NIL {
        return Iterator(Target(Linkage(), s)), false;
      }
      var node := AddLeaf(s, k, v);
      return Iterator(node), true;
    }

    /**
     * `operator[]`: the value under k; an absent k is first inserted with the
     * default value.
     */
    method Subscript(k: int) returns (v: V)
      requires Valid()
      modifies this
      ensures Valid()
      ensures k in old(Contents()) ==> unchanged(this) && v == old(Contents())[k]
      ensures k !in old(Contents()) ==> Contents() == old(Contents())[k := Default] && v == Default
      ensures k in Contents() && Contents()[k] == v
      ensures old(Live) <= Live && old(key) <= key && old(val) <= val
    {
      var s := Descend(k);
      if Target(Linkage(), s) != NIL {
        return val[Target(Linkage(), s)];
      }
      var node := AddLeaf(s, k, Default);
      return val[node];
    }

    /**
     * Restores the red-black rules after a red node z was hung as a leaf:
     * while z's parent is red, recolour (red uncle) or rotate (black uncle),
     * then paint the root black.
     */
    method InsertFixup(node: nat)
      requires InsertState(Linkage(), Live, Sub, key, color, Bh, node) && Indexed()
      modifies this`color, this`left, this`right, this`parent, this`root, this`Sub, this`Bh
      ensures Valid() && Contents() == old(Contents())
    {
      var t, c, sub, bh := FixInsert(Linkage(), color, Live, Sub, key, Bh, node);
      Store(t, c, sub, bh);
    }

    /** Writes back the links and colours a fixup computed. */
    method Store(t: Links, c: seq<Color>, ghost sub: seq<set<nat>>, ghost bh: seq<nat>)
      requires RedBlack(t, Live, sub, key, c, bh) && Indexed()
      modifies this`color, this`left, this`right, this`parent, this`root, this`Sub, this`Bh
      ensures Valid() && Contents() == old(Contents())
    {
      left, right, parent, root, color := t.left, t.right, t.parent, t.root, c;
      Sub, Bh := sub, bh;
    }

    /**
     * Puts v in u's place under u's parent (or as the root); v's parent link
     * names u's parent, also when v is the sentinel.
     */
    method Transplant(u: nat, v: nat)
      requires Closed(Linkage()) && u < |left| && v < |left|
      modifies this`left, this`right, this`parent, this`root
      ensures Linkage() == Transplanted(old(Linkage()), u, v)
    {
      if parent[u] == NIL {
        root := v;
      } else if u == left[parent[u]] {
        left := left[parent[u] := v];
      } else {
        right := right[parent[u] := v];
      }
      parent := parent[v := parent[u]];
    }

    /** The node with the least key in n's subtree, found by following left links; the sentinel for the sentinel. */
    method TreeMinimum(n: nat) returns (m: nat)
      requires SearchTree() && (n == NIL || n in Live)
      ensures n == NIL ==> m == NIL
      ensures n != NIL ==> m in Live && LeastIn(Sub, key, n, m) && left[m] == NIL
    {
      m := n;
      if n != NIL {
        SpineStart(Linkage(), Live, Sub, key, n);
      }
      while left[m] != NIL
        invariant n == NIL ==> m == NIL
        invariant n != NIL ==> LeftSpine(Linkage(), Live, Sub, key, n, m)
        decreases Sub[m]
      {
        LeftSpineStep(Linkage(), Live, Sub, key, n, m);
        m := left[m];
      }
      if n != NIL {
        LeftSpineEnd(Linkage(), Live, Sub, key, n, m);
      }
    }

    /** The node with the greatest key in n's subtree, found by following right links; the sentinel for the sentinel. */
    method TreeMaximum(n: nat) returns (m: nat)
      requires SearchTree() && (n == NIL || n in Live)
      ensures n == NIL ==> m == NIL
      ensures n != NIL ==> m in Live && GreatestIn(Sub, key, n, m) && right[m] == NIL
    {
      m := n;
      if n != NIL {
        SpineStart(Linkage(), Live, Sub, key, n);
      }
      while right[m] != NIL
        invariant n == NIL ==> m == NIL
        invariant n != NIL ==> RightSpine(Linkage(), Live, Sub, key, n, m)
        decreases Sub[m]
      {
        RightSpineStep(Linkage(), Live, Sub, key, n, m);
        m := right[m];
      }
      if n != NIL {
        RightSpineEnd(Linkage(), Live, Sub, key, n, m);
      }
    }

    /** The node with the next larger key after n's, or the sentinel when n holds the greatest key. */
    method TreeSuccessor(n: nat) returns (s: nat)
      requires SearchTree() && n in Live
      ensures s == NIL ==> TopIn(Live, key, n)
      ensures s != NIL ==> NextIn(Live, key, n, s)
    {
      if right[n] != NIL {
        s := TreeMinimum(right[n]);
        SuccessorBelow(Linkage(), Live, Sub, key, n, s);
        return;
      }
      GreatestStart(Linkage(), Live, Sub, key, n);
      var c := n;
      s := parent[c];
      while s != NIL && right[s] == c
        invariant c in Live && s == parent[c] && GreatestIn(Sub, key, c, n)
        decreases Live - Sub[c]
      {
        ClimbGreatest(Linkage(), Live, Sub, key, c, n);
        c := s;
        s := parent[c];
      }
      SuccessorAbove(Linkage(), Live, Sub, key, n, c);
    }

    /**
     * The node with the next smaller key before n's, or the sentinel when n
     * holds the least key: the mirror of `TreeSuccessor`, comparing links
     * with the sentinel.
     */
    method TreePredecessor(n: nat) returns (p: nat)
      requires SearchTree() && n in Live
      ensures p == NIL ==> BottomIn(Live, key, n)
      ensures p != NIL ==> PrevIn(Live, key, n, p)
    {
      if left[n] != NIL {
        p := TreeMaximum(left[n]);
        PredecessorBelow(Linkage(), Live, Sub, key, n, p);
        return;
      }
      LeastStart(Linkage(), Live, Sub, key, n);
      var c := n;
      p := parent[c];
      while p != NIL && left[p] == c
        invariant c in Live && p == parent[c] && LeastIn(Sub, key, c, n)
        decreases Live - Sub[c]
      {
        ClimbLeast(Linkage(), Live, Sub, key, c, n);
        c := p;
        p := parent[c];
      }
      PredecessorAbove(Linkage(), Live, Sub, key, n, c);
    }

    /**
     * `TreePredecessor` as written: its first test asks whether the left
     * link is null, which the sentinel never is, so every node goes to the
     * greatest node below its left link. A node without a left subtree runs
     * `TreeMaximum(nil_)`, which in the source reads the sentinel's
     * uninitialised right link; with the sentinel links of this model it
     * yields the sentinel.
     */
    method TreePredecessorAsWritten(n: nat) returns (p: nat)
      requires SearchTree() && n in Live
      ensures left[n] == NIL ==> p == NIL
      ensures left[n] != NIL ==> PrevIn(Live, key, n, p)
    {
      p := TreeMaximum(left[n]);
      if left[n] != NIL {
        PredecessorBelow(Linkage(), Live, Sub, key, n, p);
      }
    }

    /** The position of the least key, which is End() exactly when the map is empty. */
    method Begin() returns (it: Iterator)
      requires Valid()
      ensures it.node == NIL <==> Contents() == map[]
      ensures it.node != NIL ==> it.node in Live && forall k :: k in Contents() ==> key[it.node] <= k
    {
      var m := TreeMinimum(root);
      KeyNodes(key, val, Live, Index);
      assert forall k :: k in Contents() ==> Index[k] in Live;
      if m == NIL {
        assert Live == Sub[root] == {};
      } else {
        assert key[m] in Contents();
        forall k | k in Contents()
          ensures key[m] <= k
        {
          assert Index[k] in Sub[root];
        }
      }
      it := Iterator(m);
    }

    /** The position past the greatest key: the sentinel, which holds no key of the map. */
    function End(): (it: Iterator)
      reads this`Live
      requires NIL !in Live
      ensures it.node !in Live
    {
      Iterator(NIL)
    }

    /** `++`: the position of the next larger key, or End() past the greatest. */
    method Next(it: Iterator) returns (next: Iterator)
      requires Valid() && it.node in Live
      ensures next.node == NIL <==> forall k :: k in Contents() ==> k <= key[it.node]
      ensures next.node != NIL ==> next.node in Live && key[it.node] < key[next.node]
      ensures next.node != NIL ==> forall k :: k in Contents() && key[it.node] < k ==> key[next.node] <= k
    {
      var s := TreeSuccessor(it.node);
      KeyNodes(key, val, Live, Index);
      if s == NIL {
        forall k | k in Contents()
          ensures k <= key[it.node]
        {
          assert Index[k] in Live;
        }
      } else {
        assert key[s] in Contents();
        forall k | k in Contents() && key[it.node] < k
          ensures key[s] <= k
        {
          assert Index[k] in Live;
        }
      }
      next := Iterator(s);
    }

    /** `--` on a node: the position of the next smaller key, or End() before the least. */
    method Prev(it: Iterator) returns (prev: Iterator)
      requires Valid() && it.node in Live
      ensures prev.node == NIL <==> forall k :: k in Contents() ==> key[it.node] <= k
      ensures prev.node != NIL ==> prev.node in Live && key[prev.node] < key[it.node]
      ensures prev.node != NIL ==> forall k :: k in Contents() && k < key[it.node] ==> k <= key[prev.node]
    {
      var p := TreePredecessor(it.node);
      KeyNodes(key, val, Live, Index);
      if p == NIL {
        forall k | k in Contents()
          ensures key[it.node] <= k
        {
          assert Index[k] in Live;
        }
      } else {
        assert key[p] in Contents();
        forall k | k in Contents() && k < key[it.node]
          ensures k <= key[p]
        {
          assert Index[k] in Live;
        }
      }
      prev := Iterator(p);
    }

    /**
     * Restores the red-black rules after a black node left the tree, x
     * being the node that took its position: while x is black and not the
     * root, recolour or rotate around x's sibling, then paint x black.
     */
    method DeleteFixup(node: nat)
      requires DeleteState(Linkage(), Live, Sub, key, color, Bh, node) && Indexed()
      modifies this`color, this`left, this`right, this`parent, this`root, this`Sub, this`Bh
      ensures Valid() && Contents() == old(Contents())
    {
      var t, c, sub, bh := FixDelete(Linkage(), color, Live, Sub, key, Bh, node);
      Store(t, c, sub, bh);
    }

    /**
     * y, z's successor, leaves its position to its right child and takes
     * z's right child; when y is z's right child, only y's right child's
     * parent link is set.
     */
    method Detach(z: nat, y: nat)
      requires Closed(Linkage()) && z < |left| && y < |left|
      modifies this`left, this`right, this`parent, this`root
      ensures Linkage() == Detached(old(Linkage()), z, y)
    {
      var x := right[y];
      if parent[y] == z {
        parent := parent[x := y];
      } else {
        Transplant(y, x);
        right := right[y := right[z]];
        parent := parent[right[y] := y];
      }
    }

    /**
     * Unlinks z, which has two children, for its successor y: y leaves its
     * position to its right child (or, as z's right child, keeps it), then
     * takes z's place, z's left child and z's colour.
     */
    method Replace(z: nat, y: nat)
      requires Closed(Linkage()) && z < |left| && y < |left| && |color| == |left|
      requires left[z] != NIL && right[z] != NIL
      modifies this`left, this`right, this`parent, this`root, this`color
      ensures Linkage() == Unlinked(old(Linkage()), z, y) && color == Recolored(old(color), z, y)
    {
      Detach(z, y);
      Transplant(z, y);
      left := left[y := left[z]];
      parent := parent[left[y] := y];
      color := color[y := color[z]];
    }

    /** Forgets node z and its key: the index then covers exactly the other nodes, and the map loses the key. */
    ghost method UnrecordKey(z: nat)
      requires Indexed() && z in Live
      modifies this`Live, this`Index
      ensures Live == old(Live) - {z} && Index == old(Index) - {key[z]}
      ensures Indexed() && Contents() == old(Contents()) - {key[z]}
    {
      IndexRemove(key, val, Live, Index, z);
      Live, Index := Live - {z}, Index - {key[z]};
    }

    /**
     * Takes z out of the links: a node with an empty side gives way to its
     * other child; otherwise its successor y leaves its own position to its
     * right child x and takes z's place and colour. Returns y, the node x
     * that moved into the vacated position, and whether y was black.
     */
    method Unlink(z: nat) returns (y: nat, x: nat, yBlack: bool)
      requires SearchTree() && |color| == |left| && z in Live
      modifies this`left, this`right, this`parent, this`root, this`color
      ensures y < |left| && Replacement(old(Linkage()), Live, Sub, key, z, y)
      ensures Linkage() == Unlinked(old(Linkage()), z, y) && color == Recolored(old(color), z, y)
      ensures x == Moved(old(Linkage()), z, y) && yBlack == (old(color)[y] == Black)
    {
      y := z;
      yBlack := color[y] == Black;
      if left[z] == NIL {
        x := right[z];
        Transplant(z, x);
      } else if right[z] == NIL {
        x := left[z];
        Transplant(z, x);
      } else {
        y := TreeMinimum(right[z]);
        yBlack := color[y] == Black;
        x := right[y];
        Replace(z, y);
      }
    }

    /**
     * Unlinks z and computes the subtree sets and black heights for the
     * remaining nodes: the result awaits `DeleteFixup` at x when the node
     * that left its position was black, and is a red-black tree otherwise.
     */
    method Excise(z: nat) returns (x: nat, yBlack: bool, ghost sub: seq<set<nat>>, ghost bh: seq<nat>)
      requires Valid() && z in Live
      modifies this`left, this`right, this`parent, this`root, this`color
      ensures yBlack ==> DeleteState(Linkage(), Live - {z}, sub, key, color, bh, x)
      ensures !yBlack ==> RedBlack(Linkage(), Live - {z}, sub, key, color, bh)
    {
      ghost var t0, c0 := Linkage(), color;
      var y;
      y, x, yBlack := Unlink(z);
      sub, bh := RemoveSub(Sub, z, y), Bh[y := Bh[z]];
      UnlinkState(t0, Live, Sub, key, c0, Bh, z, y, Linkage(), Live - {z}, sub, color, bh);
    }

    /**
     * Removes the node at pos: a node with an empty side gives way to its
     * other child; otherwise its successor y leaves its own position to its
     * right child and takes the node's place and colour. When the node that
     * left its position was black, `DeleteFixup` repairs the heights.
     */
    method Delete(pos: Iterator)
      requires Valid() && pos.node in Live
      modifies this
      ensures Valid()
      ensures Contents() == old(Contents()) - {old(key[pos.node])}
      ensures Live == old(Live) - {pos.node} && key == old(key) && val == old(val)
    {
      var x, yBlack, sub, bh := Excise(pos.node);
      Settle(pos.node, x, yBlack, sub, bh);
    }

    /**
     * Finishes `Delete` once z is unlinked: forgets z and its key, takes the
     * new subtree sets and black heights, and runs `DeleteFixup` at x when
     * the node that left its position was black.
     */
    method Settle(z: nat, x: nat, yBlack: bool, ghost sub: seq<set<nat>>, ghost bh: seq<nat>)
      requires Indexed() && z in Live
      requires yBlack ==> DeleteState(Linkage(), Live - {z}, sub, key, color, bh, x)
      requires !yBlack ==> RedBlack(Linkage(), Live - {z}, sub, key, color, bh)
      modifies this`left, this`right, this`parent, this`root, this`color
      modifies this`Live, this`Sub, this`Bh, this`Index
      ensures Valid() && Contents() == old(Contents()) - {key[z]} && Live == old(Live) - {z}
    {
      UnrecordKey(z);
      Sub, Bh := sub, bh;
      if yBlack {
        DeleteFixup(x);
      }
    }

    /**
     * The walk of `Clear` without a stack: from the least node, descend to
     * the least node of each right subtree, then climb and free. Returns the
     * nodes in the order they are freed, each after the rest of its subtree;
     * `alive` is the set not yet freed, and every node the walk reads is in it.
     */
    method Release() returns (order: seq<nat>)
      requires SearchTree() && root != NIL
      ensures PostOrder(Sub, order) && Elems(order) == Live
    {
      ghost var t := Linkage();
      order := [];
      ghost var alive := Live;
      var now := TreeMinimum(root);
      WalkStart(t, Live, Sub, key, now);
      while now != NIL
        invariant Walked(t, Live, Sub, alive, order)
        invariant now != NIL ==> AtNode(t, Live, Sub, alive, now)
        invariant now == NIL ==> alive == {}
        decreases alive
      {
        now := DescendRight(now, alive);
        now, alive, order := ClimbAndFree(now, alive, order);
      }
    }

    /** The inner descent of `Clear`: to the least node of now's right subtree, again and again, until there is none. */
    method DescendRight(now: nat, ghost alive: set<nat>) returns (m: nat)
      requires SearchTree() && Freed(Linkage(), Live, Sub, alive) && AtNode(Linkage(), Live, Sub, alive, now)
      ensures Climbing(Linkage(), Live, Sub, alive, m)
    {
      ghost var t := Linkage();
      m := now;
      while right[m] != NIL
        invariant AtNode(t, Live, Sub, alive, m)
        decreases Sub[m]
      {
        var n := TreeMinimum(right[m]);
        Teardown.Descend(t, Live, Sub, key, alive, m, n);
        m := n;
      }
    }

    /**
     * The climb of `Clear`: frees now and moves to its parent while now is
     * its parent's right child, then frees the node where the climb stops
     * and returns that node's parent, where the walk resumes.
     */
    method ClimbAndFree(now: nat, ghost alive: set<nat>, order: seq<nat>)
      returns (p: nat, ghost alive': set<nat>, order': seq<nat>)
      requires SearchTree() && Walked(Linkage(), Live, Sub, alive, order) && Climbing(Linkage(), Live, Sub, alive, now)
      ensures Walked(Linkage(), Live, Sub, alive', order') && alive' < alive
      ensures p == NIL ==> alive' == {}
      ensures p != NIL ==> AtNode(Linkage(), Live, Sub, alive', p)
    {
      ghost var t := Linkage();
      var c := now;
      alive', order' := alive, order;
      p := parent[c];
      while p != NIL && right[p] == c
        invariant Walked(t, Live, Sub, alive', order') && Climbing(t, Live, Sub, alive', c) && p == parent[c]
        invariant alive' <= alive && (c != now ==> alive' < alive)
        decreases alive'
      {
        ClimbStep(t, Live, Sub, alive', c);
        FreeNode(t, Live, Sub, alive', order', c);
        alive', order' := alive' - {c}, order' + [c];
        c := p;
        p := parent[c];
      }
      ClimbExit(t, Live, Sub, alive', c);
      FreeNode(t, Live, Sub, alive', order', c);
      alive', order' := alive' - {c}, order' + [c];
    }

    /** Frees every node and leaves the empty tree: only the sentinel, as root. */
    method Clear()
      requires Valid()
      modifies this`root, this`Live, this`Sub, this`Index
      ensures Valid() && Contents() == map[] && root == NIL
    {
      if root != NIL {
        var freed := Release();
        root := NIL;
      }
      Live, Sub, Index := {}, seq(|Sub|, _ => {}), map[];
      Emptied(old(Linkage()), old(Live), old(Sub), key, val, color, Bh, Linkage(), Sub);
    }

    /** The position of the node holding k, or End() when k is absent. */
    method Find(k: int) returns (it: Iterator)
      requires Valid()
      ensures it.node != NIL <==> k in Contents()
      ensures it.node != NIL ==> it.node in Live && key[it.node] == k && Contents()[k] == val[it.node]
    {
      var now := root;
      while now != NIL
        invariant now == NIL || now in Live
        invariant k in Index ==> Index[k] in Sub[now]
        decreases Sub[now]
      {
        SearchStep(Linkage(), Live, Sub, key, now, if k in Index then Index[k] else now);
        if key[now] == k {
          break;
        } else if key[now] < k {
          now := right[now];
        } else {
          now := left[now];
        }
      }
      it := Iterator(now);
    }

    /** The value stored under k, or the out-of-range failure when k is absent. */
    method At(k: int) returns (r: Lookup<V>)
      requires Valid()
      ensures r == if k in Contents() then Found(Contents()[k]) else OutOfRange
    {
      var now := root;
      while now != NIL
        invariant now == NIL || now in Live
        invariant k in Index ==> Index[k] in Sub[now]
        decreases Sub[now]
      {
        SearchStep(Linkage(), Live, Sub, key, now, if k in Index then Index[k] else now);
        if key[now] == k {
          return Found(val[now]);
        } else if key[now] < k {
          now := right[now];
        } else {
          now := left[now];
        }
      }
      return OutOfRange;
    }
  }
}
