/**
 * Unlinking a node from the tree, as `Delete` does before `DeleteFixup`.
 *
 * A node z with at most one child is replaced by that child (the
 * sentinel when it has none). A node with two children is replaced by its
 * successor y, the minimum of its right subtree: y is first replaced by its
 * own right child (unless y is z's right child), then y takes z's
 * place, z's children and z's colour. Either way the node that moves
 * into the vacated link, x, is where `DeleteFixup` starts when the node
 * that left the tree's structure (z, or y) was black.
 */
module Removal {
  import opened Arena
  import opened RedBlackRules
  import opened DeleteRules
  import opened Attachment

  /**
   * The links after `Transplant(u, v)`: v takes u's place under u's parent
   * (or as the root), and v's parent link names u's parent, also when v is
   * the sentinel.
   */
  function Transplanted(t: Links, u: nat, v: nat): (r: Links)
    requires Closed(t) && u < |t.left| && v < |t.left|
    ensures Closed(r) && |r.left| == |t.left|
  {
    var g := t.parent[u];
    var t1 :=
      if g == NIL then t.(root := v)
      else if u == t.left[g] then t.(left := t.left[g := v])
      else t.(right := t.right[g := v]);
    t1.(parent := t1.parent[v := g])
  }

  /** `Transplant(u, v)` relinks only u's parent's link to u (or the root) and v's parent link. */
  lemma TransplantFacts(t: Links, u: nat, v: nat)
    requires Closed(t) && u < |t.left| && v < |t.left|
    ensures var r, g := Transplanted(t, u, v), t.parent[u];
      && r.parent[v] == g
      && (forall n {:trigger r.parent[n]} :: 0 <= n < |t.left| && n != v ==> r.parent[n] == t.parent[n])
      && (forall n {:trigger r.left[n]} :: 0 <= n < |t.left| && (n != g || g == NIL || t.left[g] != u) ==> r.left[n] == t.left[n])
      && (forall n {:trigger r.right[n]} :: 0 <= n < |t.left| && (n != g || g == NIL || t.left[g] == u) ==> r.right[n] == t.right[n])
      && (g == NIL ==> r.root == v) && (g != NIL ==> r.root == t.root)
      && (g != NIL && t.left[g] == u ==> r.left[g] == v)
      && (g != NIL && t.left[g] != u ==> r.right[g] == v)
  {
  }

  /** The node that moves into the vacated link: z's only child (or the sentinel), or else y's right child. */
  function Moved(t: Links, z: nat, y: nat): (x: nat)
    requires Closed(t) && z < |t.left| && y < |t.left|
    ensures x < |t.left|
  {
    if t.left[z] == NIL then t.right[z]
    else if t.right[z] == NIL then t.left[z]
    else t.right[y]
  }

  /**
   * The links after y, z's successor, has left its position to its right
   * child x and taken z's right child, before it takes z's place; when y is
   * z's right child, only x's parent link changes.
   */
  function Detached(t: Links, z: nat, y: nat): (r: Links)
    requires Closed(t) && z < |t.left| && y < |t.left|
    ensures Closed(r) && |r.left| == |t.left|
  {
    var x := t.right[y];
    if t.parent[y] == z then t.(parent := t.parent[x := y])
    else
      var t2 := Transplanted(t, y, x);
      var t3 := t2.(right := t2.right[y := t2.right[z]]);
      t3.(parent := t3.parent[t3.right[y] := y])
  }

  /**
   * The links after `Delete` has unlinked z, y being the node that leaves
   * its own position (z itself when z has at most one child).
   */
  function Unlinked(t: Links, z: nat, y: nat): (r: Links)
    requires Closed(t) && z < |t.left| && y < |t.left|
    ensures Closed(r) && |r.left| == |t.left|
  {
    if t.left[z] == NIL then Transplanted(t, z, t.right[z])
    else if t.right[z] == NIL then Transplanted(t, z, t.left[z])
    else
      var t1 := Detached(t, z, y);
      var t4 := Transplanted(t1, z, y);
      var t5 := t4.(left := t4.left[y := t4.left[z]]);
      t5.(parent := t5.parent[t5.left[y] := y])
  }

  /**
   * y is the node `Delete` takes out of its position: z itself when z
   * has an empty side, and otherwise the node with the least key in z's
   * right subtree, which has no left child.
   */
  ghost predicate Replacement(t: Links, live: set<nat>, sub: seq<set<nat>>, key: seq<int>, z: nat, y: nat)
    requires Shaped(t, live, sub) && |key| == |t.left| && z in live
  {
    if t.left[z] == NIL || t.right[z] == NIL then y == z
    else
      && y in sub[t.right[z]] && t.left[y] == NIL
      && forall m {:trigger m in sub[t.right[z]]} :: m in sub[t.right[z]] && m != y ==> key[y] < key[m]
  }

  /** The subtree sets after unlinking: z's is gone, y's is z's without z, and every other loses z or y. */
  ghost function RemoveSub(sub: seq<set<nat>>, z: nat, y: nat): (sub': seq<set<nat>>)
    requires z < |sub|
    ensures |sub'| == |sub|
  {
    seq(|sub|, i requires 0 <= i < |sub| =>
      if i == z then {} else if i == y then sub[z] - {z} else if i in sub[z] then sub[i] - {y} else sub[i] - {z})
  }

  /** The colours after unlinking: y takes z's colour. */
  function Recolored(color: seq<Color>, z: nat, y: nat): (c: seq<Color>)
    requires z < |color| && y < |color|
    ensures |c| == |color|
  {
    if y == z then color else color[y := color[z]]
  }

  /** A node below a of the tree has its whole subtree below a, and a is not below it unless it is a. */
  lemma {:induction false} SubtreeClosed(t: Links, live: set<nat>, sub: seq<set<nat>>, a: nat, n: nat)
    requires Shaped(t, live, sub) && a in live && n in sub[a]
    ensures sub[n] <= sub[a]
    ensures n != a ==> a !in sub[n]
    decreases sub[a]
  {
    assert NestedAt(t, sub, a);
    assert a in sub[a];
    if n != a {
      var l, r := t.left[a], t.right[a];
      if n in sub[l] {
        assert l != NIL && l in live;
        SubtreeClosed(t, live, sub, l, n);
      } else {
        assert r != NIL && r in live;
        SubtreeClosed(t, live, sub, r, n);
      }
    }
  }

  /** A node of the tree outside z's subtree holds no node of it below a child, unless the child is z. */
  lemma OutsideChild(t: Links, live: set<nat>, sub: seq<set<nat>>, z: nat, n: nat, c: nat)
    requires Shaped(t, live, sub) && z in live && n in live && n !in sub[z]
    requires (c == t.left[n] || c == t.right[n]) && c != z
    ensures c !in sub[z]
  {
    if c in sub[z] {
      assert c != NIL && c in live && t.parent[c] == n;
      ParentInSubtree(t, live, sub, z, c);
    }
  }

  // Unlinking a node with an empty side.

  /** Where z, its only child c and its parent g sit before z is spliced out. */
  lemma SpliceSetting(t: Links, live: set<nat>, sub: seq<set<nat>>, z: nat)
    requires Shaped(t, live, sub) && z in live && (t.left[z] == NIL || t.right[z] == NIL)
    ensures var c, g := Moved(t, z, z), t.parent[z];
      && (c == NIL || (c in live && t.parent[c] == z))
      && c != z && g != z && (g != c || g == NIL)
      && (g == NIL <==> z == t.root) && (g != NIL ==> g in live && (t.left[g] == z || t.right[g] == z))
      && sub[z] == {z} + sub[c] && z !in sub[c]
      && (c == t.left[z] || t.left[z] == NIL) && (c == t.right[z] || t.right[z] == NIL)
      && t.root != NIL
  {
    assert NestedAt(t, sub, z);
    assert z in sub[z];
    var g := t.parent[z];
    if g != NIL {
      assert z != t.root;
    }
    if z != t.root {
      assert g in live;
    }
  }

  /** What splicing z out for its child c changes: only z's parent's link to z (or the root), and c's parent link. */
  ghost predicate Spliced(t: Links, z: nat, c: nat, r: Links)
    requires Closed(t) && z < |t.left|
  {
    var g := t.parent[z];
    && Closed(r) && |r.left| == |t.left| && c < |t.left|
    && r.parent[c] == g
    && (forall n {:trigger r.parent[n]} :: 0 <= n < |t.left| && n != c ==> r.parent[n] == t.parent[n])
    && (forall n {:trigger r.left[n]} :: 0 <= n < |t.left| && (n != g || g == NIL) ==> r.left[n] == t.left[n])
    && (forall n {:trigger r.right[n]} :: 0 <= n < |t.left| && (n != g || g == NIL) ==> r.right[n] == t.right[n])
    && (g == NIL ==> r.root == c) && (g != NIL ==> r.root == t.root)
    && (g != NIL && t.left[g] == z ==> r.left[g] == c && r.right[g] == t.right[g])
    && (g != NIL && t.left[g] != z ==> r.right[g] == c && r.left[g] == t.left[g])
  }

  /** Unlinking a node with an empty side is `Transplant` of it with its other child. */
  lemma SpliceFacts(t: Links, live: set<nat>, sub: seq<set<nat>>, z: nat)
    requires Shaped(t, live, sub) && z in live && (t.left[z] == NIL || t.right[z] == NIL)
    ensures Unlinked(t, z, z) == Transplanted(t, z, Moved(t, z, z))
    ensures Spliced(t, z, Moved(t, z, z), Unlinked(t, z, z))
  {
    TransplantFacts(t, z, Moved(t, z, z));
  }

  /** At a node n whose children keep their links and whose subtree set and children's sets lose only z, nesting survives. */
  lemma NestedMinus(t: Links, sub: seq<set<nat>>, r: Links, sub': seq<set<nat>>, z: nat, n: nat)
    requires Closed(t) && Closed(r) && |r.left| == |t.left| && |sub| == |t.left| && |sub'| == |t.left| && n < |t.left|
    requires NestedAt(t, sub, n) && n != z && r.left[n] == t.left[n] && r.right[n] == t.right[n]
    requires sub'[n] == sub[n] - {z} && sub'[t.left[n]] == sub[t.left[n]] - {z} && sub'[t.right[n]] == sub[t.right[n]] - {z}
    ensures NestedAt(r, sub', n)
  {
  }

  /** Below z, splicing z out changes no subtree set. */
  lemma SpliceNestedBelow(t: Links, live: set<nat>, sub: seq<set<nat>>, z: nat, r: Links, n: nat)
    requires Shaped(t, live, sub) && z in live && (t.left[z] == NIL || t.right[z] == NIL)
    requires Spliced(t, z, Moved(t, z, z), r) && n in live && n != z && n in sub[z]
    ensures NestedAt(r, RemoveSub(sub, z, z), n)
  {
    SpliceSetting(t, live, sub, z);
    assert NestedAt(t, sub, n);
    SubtreeClosed(t, live, sub, z, n);
    assert n != t.parent[z];
    var sub' := RemoveSub(sub, z, z);
    var l, rt := t.left[n], t.right[n];
    assert sub'[l] == sub[l] - {z} && sub'[rt] == sub[rt] - {z};
    NestedMinus(t, sub, r, sub', z, n);
  }

  /** At z's parent, which now holds z's child, the subtree set loses z. */
  lemma SpliceNestedAbove(t: Links, live: set<nat>, sub: seq<set<nat>>, z: nat, r: Links)
    requires Shaped(t, live, sub) && z in live && (t.left[z] == NIL || t.right[z] == NIL)
    requires Spliced(t, z, Moved(t, z, z), r) && t.parent[z] != NIL
    ensures NestedAt(r, RemoveSub(sub, z, z), t.parent[z])
  {
    SpliceSetting(t, live, sub, z);
    var g := t.parent[z];
    assert NestedAt(t, sub, g);
    assert g !in sub[z];
    if t.left[g] == z {
      OutsideChild(t, live, sub, z, g, t.right[g]);
    } else {
      OutsideChild(t, live, sub, z, g, t.left[g]);
    }
  }

  /** Elsewhere outside z's subtree, the subtree sets lose z. */
  lemma SpliceNestedOutside(t: Links, live: set<nat>, sub: seq<set<nat>>, z: nat, r: Links, n: nat)
    requires Shaped(t, live, sub) && z in live && (t.left[z] == NIL || t.right[z] == NIL)
    requires Spliced(t, z, Moved(t, z, z), r) && n in live && n !in sub[z] && n != t.parent[z]
    ensures NestedAt(r, RemoveSub(sub, z, z), n)
  {
    SpliceSetting(t, live, sub, z);
    assert NestedAt(t, sub, n);
    var l, rt := t.left[n], t.right[n];
    OutsideChild(t, live, sub, z, n, l);
    OutsideChild(t, live, sub, z, n, rt);
    var sub' := RemoveSub(sub, z, z);
    assert sub'[l] == sub[l] - {z} && sub'[rt] == sub[rt] - {z};
    NestedMinus(t, sub, r, sub', z, n);
  }

  /** At one remaining node n, splicing z out leaves its children remaining, with parent links back to n. */
  lemma SpliceChildLinks(t: Links, live: set<nat>, sub: seq<set<nat>>, z: nat, r: Links, n: nat)
    requires Shaped(t, live, sub) && z in live && (t.left[z] == NIL || t.right[z] == NIL)
    requires Spliced(t, z, Moved(t, z, z), r) && n in live && n != z
    ensures var live' := live - {z};
      && (r.left[n] == NIL || r.left[n] in live') && (r.right[n] == NIL || r.right[n] in live')
      && (r.left[n] != NIL ==> r.parent[r.left[n]] == n)
      && (r.right[n] != NIL ==> r.parent[r.right[n]] == n)
  {
    SpliceSetting(t, live, sub, z);
    var l, rt := t.left[n], t.right[n];
    assert l != NIL ==> t.parent[l] == n;
    assert rt != NIL ==> t.parent[rt] == n;
  }

  /** After splicing z out, every remaining node but the root hangs from a remaining parent that holds it. */
  lemma SpliceParentLink(t: Links, live: set<nat>, sub: seq<set<nat>>, z: nat, r: Links, n: nat)
    requires Shaped(t, live, sub) && z in live && (t.left[z] == NIL || t.right[z] == NIL)
    requires Spliced(t, z, Moved(t, z, z), r) && n in live && n != z
    ensures n != r.root ==> r.parent[n] in live - {z} && (r.left[r.parent[n]] == n || r.right[r.parent[n]] == n)
  {
    SpliceSetting(t, live, sub, z);
    if n != r.root && n != Moved(t, z, z) {
      assert n != t.root;
      var p := t.parent[n];
      assert p in live && p != z;
    }
  }

  /** After splicing z out, the sets of subtrees still cover only remaining nodes, and the new root's is all of them. */
  lemma SpliceSized(t: Links, live: set<nat>, sub: seq<set<nat>>, z: nat, r: Links)
    requires Shaped(t, live, sub) && z in live && (t.left[z] == NIL || t.right[z] == NIL)
    requires Spliced(t, z, Moved(t, z, z), r)
    requires forall n | n in live - {z} :: (r.left[n] == NIL || r.left[n] in live - {z}) && (r.right[n] == NIL || r.right[n] in live - {z})
    ensures var sub', live' := RemoveSub(sub, z, z), live - {z};
      Sized(r, live', sub') && Rooted(r, live', sub') && Within(live', sub')
  {
    SpliceSetting(t, live, sub, z);
    var c, sub', live' := Moved(t, z, z), RemoveSub(sub, z, z), live - {z};
    assert sub'[NIL] == {};
    forall i, m | 0 <= i < |sub'| && m in sub'[i]
      ensures m in live'
    {
    }
    if t.parent[z] == NIL {
      assert sub'[c] == sub[c];
    } else {
      assert t.root != z;
      assert t.root !in sub[z] by {
        if t.root in sub[z] {
          ParentInSubtree(t, live, sub, z, t.root);
        }
      }
    }
  }

  /** Splicing z out leaves the links one binary tree over the remaining nodes. */
  lemma SpliceShaped(t: Links, live: set<nat>, sub: seq<set<nat>>, z: nat, r: Links)
    requires Shaped(t, live, sub) && z in live && (t.left[z] == NIL || t.right[z] == NIL)
    requires Spliced(t, z, Moved(t, z, z), r)
    ensures Shaped(r, live - {z}, RemoveSub(sub, z, z))
  {
    var sub', live' := RemoveSub(sub, z, z), live - {z};
    forall n | n in live'
      ensures NestedAt(r, sub', n)
      ensures r.left[n] == NIL || r.left[n] in live'
      ensures r.right[n] == NIL || r.right[n] in live'
      ensures r.left[n] != NIL ==> r.parent[r.left[n]] == n
      ensures r.right[n] != NIL ==> r.parent[r.right[n]] == n
      ensures n != r.root ==> r.parent[n] in live' && (r.left[r.parent[n]] == n || r.right[r.parent[n]] == n)
    {
      if n in sub[z] {
        SpliceNestedBelow(t, live, sub, z, r, n);
      } else if n == t.parent[z] {
        SpliceNestedAbove(t, live, sub, z, r);
      } else {
        SpliceNestedOutside(t, live, sub, z, r, n);
      }
      SpliceChildLinks(t, live, sub, z, r, n);
      SpliceParentLink(t, live, sub, z, r, n);
    }
    SpliceSized(t, live, sub, z, r);
  }

  /** Splicing z out keeps the search order: every subtree set only shrinks, and z's child inherits z's side. */
  lemma SpliceOrdered(t: Links, live: set<nat>, sub: seq<set<nat>>, key: seq<int>, z: nat, r: Links)
    requires Shaped(t, live, sub) && |key| == |t.left| && Ordered(t, live, sub, key)
    requires z in live && (t.left[z] == NIL || t.right[z] == NIL) && Spliced(t, z, Moved(t, z, z), r)
    requires Shaped(r, live - {z}, RemoveSub(sub, z, z))
    ensures Ordered(r, live - {z}, RemoveSub(sub, z, z), key)
  {
    SpliceSetting(t, live, sub, z);
    var c, g, sub' := Moved(t, z, z), t.parent[z], RemoveSub(sub, z, z);
    forall n | n in live - {z}
      ensures OrderedAt(r, sub', key, n)
    {
      assert OrderedAt(t, sub, key, n);
      if n == g {
        assert sub'[c] <= sub[z];
      }
    }
  }

  /** At z's parent g, splicing z out leaves g one black short on z's old side when z was black, and nothing short when it was red. */
  lemma SplicePaintAbove(t: Links, live: set<nat>, sub: seq<set<nat>>, color: seq<Color>, bh: seq<nat>, z: nat, r: Links)
    requires Shaped(t, live, sub) && Painted(t, live, color, bh) && Heights(t, live, color, bh, NIL, true) && RedRule(t, live, color, NIL)
    requires z in live && (t.left[z] == NIL || t.right[z] == NIL) && Spliced(t, z, Moved(t, z, z), r) && t.parent[z] != NIL
    ensures var c, g := Moved(t, z, z), t.parent[z];
      && (color[z] == Black ==> HeightsAt(r, color, bh, g, g, c == r.left[g]) && RedAt(r, color, g, c))
      && (color[z] == Red ==> HeightsAt(r, color, bh, g, NIL, true) && RedAt(r, color, g, NIL))
  {
    SpliceSetting(t, live, sub, z);
    var g := t.parent[z];
    assert HeightsAt(t, color, bh, g, NIL, true) && HeightsAt(t, color, bh, z, NIL, true);
    assert RedAt(t, color, g, NIL) && RedAt(t, color, z, NIL);
  }

  /** Away from z's parent, splicing z out changes no node's children, colours or heights. */
  lemma SplicePaintAt(t: Links, live: set<nat>, sub: seq<set<nat>>, color: seq<Color>, bh: seq<nat>, z: nat, r: Links, n: nat)
    requires Shaped(t, live, sub) && Painted(t, live, color, bh) && Heights(t, live, color, bh, NIL, true) && RedRule(t, live, color, NIL)
    requires z in live && (t.left[z] == NIL || t.right[z] == NIL) && Spliced(t, z, Moved(t, z, z), r)
    requires n in live && n != z && n != t.parent[z]
    ensures HeightsAt(r, color, bh, n, NIL, true) && RedAt(r, color, n, NIL)
  {
    assert HeightsAt(t, color, bh, n, NIL, true) && RedAt(t, color, n, NIL);
  }

  /** When z was black, every node meets the height rule with a deficit on z's old side of g, and the red rule with the exception at z's child. */
  lemma SplicePaintBlack(t: Links, live: set<nat>, sub: seq<set<nat>>, color: seq<Color>, bh: seq<nat>, z: nat, r: Links)
    requires Shaped(t, live, sub) && Painted(t, live, color, bh) && Heights(t, live, color, bh, NIL, true) && RedRule(t, live, color, NIL)
    requires z in live && (t.left[z] == NIL || t.right[z] == NIL) && Spliced(t, z, Moved(t, z, z), r) && color[z] == Black
    ensures Painted(r, live - {z}, color, bh)
    ensures var c, g := Moved(t, z, z), t.parent[z];
      Heights(r, live - {z}, color, bh, g, c == r.left[g]) && RedRule(r, live - {z}, color, c)
  {
    var c, g := Moved(t, z, z), t.parent[z];
    forall n | n in live - {z}
      ensures HeightsAt(r, color, bh, n, g, c == r.left[g]) && RedAt(r, color, n, c)
    {
      if n == g {
        SplicePaintAbove(t, live, sub, color, bh, z, r);
      } else {
        SplicePaintAt(t, live, sub, color, bh, z, r, n);
      }
    }
    Assemble(r, live - {z}, color, bh, g, c == r.left[g], c);
  }

  /** When z was red, every node still meets the height and red rules without exception. */
  lemma SplicePaintRed(t: Links, live: set<nat>, sub: seq<set<nat>>, color: seq<Color>, bh: seq<nat>, z: nat, r: Links)
    requires Shaped(t, live, sub) && Painted(t, live, color, bh) && Heights(t, live, color, bh, NIL, true) && RedRule(t, live, color, NIL)
    requires z in live && (t.left[z] == NIL || t.right[z] == NIL) && Spliced(t, z, Moved(t, z, z), r) && color[z] == Red
    ensures Painted(r, live - {z}, color, bh)
    ensures Heights(r, live - {z}, color, bh, NIL, true) && RedRule(r, live - {z}, color, NIL)
  {
    var g := t.parent[z];
    forall n | n in live - {z}
      ensures HeightsAt(r, color, bh, n, NIL, true) && RedAt(r, color, n, NIL)
    {
      if n == g {
        SplicePaintAbove(t, live, sub, color, bh, z, r);
      } else {
        SplicePaintAt(t, live, sub, color, bh, z, r, n);
      }
    }
    Assemble(r, live - {z}, color, bh, NIL, true, NIL);
  }

  /**
   * Splicing out a node z with an empty side leaves a search tree over the
   * other nodes; when z was black, it is the state `DeleteFixup` starts
   * from at z's child, and when z was red, it is a red-black tree.
   */
  lemma SpliceState(t: Links, live: set<nat>, sub: seq<set<nat>>, key: seq<int>, color: seq<Color>, bh: seq<nat>, z: nat)
    requires RedBlack(t, live, sub, key, color, bh) && z in live && (t.left[z] == NIL || t.right[z] == NIL)
    ensures var r, x, live', sub' := Unlinked(t, z, z), Moved(t, z, z), live - {z}, RemoveSub(sub, z, z);
      && (color[z] == Black ==> DeleteState(r, live', sub', key, color, bh, x))
      && (color[z] == Red ==> RedBlack(r, live', sub', key, color, bh))
  {
    SpliceSetting(t, live, sub, z);
    SpliceFacts(t, live, sub, z);
    var r, c := Unlinked(t, z, z), Moved(t, z, z);
    SpliceShaped(t, live, sub, z, r);
    SpliceOrdered(t, live, sub, key, z, r);
    if color[z] == Black {
      SplicePaintBlack(t, live, sub, color, bh, z, r);
      assert c != r.root ==> r.parent[c] == t.parent[z];
    } else {
      assert RedAt(t, color, z, NIL);
      SplicePaintRed(t, live, sub, color, bh, z, r);
      assert z != t.root;
    }
  }

  // Unlinking a node with two children: its successor y takes its place.

  /** The positions of z's children a and b, its successor y, y's right child x, y's parent q and z's parent g in the tree. */
  ghost predicate LiftSite(t: Links, live: set<nat>, sub: seq<set<nat>>, z: nat, y: nat)
    requires Shaped(t, live, sub) && z in live && y < |t.left|
  {
    var a, b, x, q, g := t.left[z], t.right[z], t.right[y], t.parent[y], t.parent[z];
    && a in live && b in live && t.parent[a] == z && t.parent[b] == z
    && sub[z] == {z} + sub[a] + sub[b] && z !in sub[a] && z !in sub[b] && sub[a] !! sub[b]
    && y in live && y in sub[b] && y != z && y != NIL && t.left[y] == NIL
    && sub[y] == {y} + sub[x] && y !in sub[x] && sub[y] <= sub[b]
    && (x == NIL || (x in live && t.parent[x] == y))
    && q in live && (q == z <==> y == b) && (q != z ==> q in sub[b] && q != y && t.left[q] == y)
    && (g == NIL <==> z == t.root) && (g != NIL ==> g in live && (t.left[g] == z || t.right[g] == z))
    && g !in sub[z] && t.root != NIL && LiftPlace(t, z, y)
  }

  /**
   * Where z's children a and b, its successor y, y's right child x, y's
   * parent q and z's parent g sit before y takes z's place: y is the
   * leftmost node below b, so it is b itself or a left child deeper down.
   */
  lemma LiftSetting(t: Links, live: set<nat>, sub: seq<set<nat>>, key: seq<int>, z: nat, y: nat)
    requires Shaped(t, live, sub) && |key| == |t.left| && Ordered(t, live, sub, key) && z in live
    requires t.left[z] != NIL && t.right[z] != NIL && Replacement(t, live, sub, key, z, y)
    ensures LiftSite(t, live, sub, z, y) && key[z] < key[y]
  {
    var a, b, x, q, g := t.left[z], t.right[z], t.right[y], t.parent[y], t.parent[z];
    assert NestedAt(t, sub, z) && OrderedAt(t, sub, key, z);
    assert z in sub[z];
    assert NestedAt(t, sub, y);
    assert y in sub[y];
    SubtreeClosed(t, live, sub, b, y);
    assert y != t.root by {
      SubtreeClosed(t, live, sub, z, y);
    }
    if y != b {
      ParentInSubtree(t, live, sub, b, y);
      assert OrderedAt(t, sub, key, q);
      assert NestedAt(t, sub, q);
    }
    if g != NIL {
      assert z != t.root;
      assert NestedAt(t, sub, g);
      assert g !in sub[z] by {
        if g in sub[z] {
          SubtreeClosed(t, live, sub, z, g);
        }
      }
    }
    if z != t.root {
      assert g in live;
    }
  }

  /**
   * What unlinking z for its successor y changes: y takes z's left child,
   * z's right child unless that is y itself, z's parent and z's link there
   * (or the root); x takes y's old link, its parent being q, or y when y was
   * z's right child.
   */
  ghost predicate Lifted(t: Links, z: nat, y: nat, r: Links)
    requires Closed(t) && z < |t.left| && y < |t.left|
  {
    var a, b, x, q, g := t.left[z], t.right[z], t.right[y], t.parent[y], t.parent[z];
    var p := if q == z then y else q;
    var yr := if q == z then x else b;
    && Closed(r) && |r.left| == |t.left|
    && r.left[y] == a && r.right[y] == yr && r.parent[y] == g
    && r.parent[a] == y && r.parent[yr] == y && r.parent[x] == p
    && (q != z ==> r.left[q] == x)
    && (forall n {:trigger r.parent[n]} :: 0 <= n < |t.left| && n != y && n != a && n != yr && n != x ==> r.parent[n] == t.parent[n])
    && (forall n {:trigger r.left[n]} :: 0 <= n < |t.left| && n != y && (n != g || g == NIL) && (n != q || q == z) ==> r.left[n] == t.left[n])
    && (forall n {:trigger r.right[n]} :: 0 <= n < |t.left| && n != y && (n != g || g == NIL) ==> r.right[n] == t.right[n])
    && (g == NIL ==> r.root == y) && (g != NIL ==> r.root == t.root)
    && (g != NIL && t.left[g] == z ==> r.left[g] == y && r.right[g] == t.right[g])
    && (g != NIL && t.left[g] != z ==> r.right[g] == y && r.left[g] == t.left[g])
  }

  /** The distinct positions of z, y and their neighbours that unlinking z for y relies on. */
  ghost predicate LiftPlace(t: Links, z: nat, y: nat)
    requires Closed(t) && z < |t.left| && y < |t.left|
  {
    var a, b, x, q, g := t.left[z], t.right[z], t.right[y], t.parent[y], t.parent[z];
    && a != NIL && b != NIL && y != NIL && q != NIL
    && y != z && a != z && b != z && x != z && g != z && a != b && a != y && x != y && x != a && x != b
    && g != y && g != a && g != b && g != q && (g != x || g == NIL)
    && (q == z <==> y == b) && (q != z ==> q != y && q != a && t.left[q] == y)
  }

  /** What y's leaving its position changes, before it takes z's. */
  lemma DetachFacts(t: Links, z: nat, y: nat)
    requires Closed(t) && z < |t.left| && y < |t.left| && t.left[z] != NIL && t.right[z] != NIL && LiftPlace(t, z, y)
    ensures var t1, a, b, x, q := Detached(t, z, y), t.left[z], t.right[z], t.right[y], t.parent[y];
      && t1.parent[z] == t.parent[z] && t1.left[z] == a
      && (q == z ==> t1.parent[x] == y && t1.right[y] == x)
      && (q != z ==> t1.left[q] == x && t1.right[y] == b && t1.parent[x] == q && t1.parent[b] == y)
      && (forall n {:trigger t1.left[n]} :: 0 <= n < |t.left| && (n != q || q == z) ==> t1.left[n] == t.left[n])
      && (forall n {:trigger t1.right[n]} :: 0 <= n < |t.left| && n != y ==> t1.right[n] == t.right[n])
      && (forall n {:trigger t1.parent[n]} :: 0 <= n < |t.left| && n != x && (n != b || q == z) ==> t1.parent[n] == t.parent[n])
      && t1.root == t.root
  {
    if t.parent[y] != z {
      TransplantFacts(t, y, t.right[y]);
    }
  }

  /** Unlinking a node with two children relinks exactly what `Lifted` says. */
  lemma LiftFacts(t: Links, z: nat, y: nat)
    requires Closed(t) && z < |t.left| && y < |t.left| && t.left[z] != NIL && t.right[z] != NIL && LiftPlace(t, z, y)
    ensures Lifted(t, z, y, Unlinked(t, z, y))
  {
    DetachFacts(t, z, y);
    TransplantFacts(Detached(t, z, y), z, y);
  }

  /** z has two children and y is its successor, in a search tree. */
  ghost predicate Lifting(t: Links, live: set<nat>, sub: seq<set<nat>>, key: seq<int>, z: nat, y: nat)
  {
    && Shaped(t, live, sub) && |key| == |t.left| && Ordered(t, live, sub, key) && z in live
    && t.left[z] != NIL && t.right[z] != NIL && Replacement(t, live, sub, key, z, y)
  }

  /** A child of a node below z is below z. */
  lemma InsideChild(t: Links, live: set<nat>, sub: seq<set<nat>>, z: nat, n: nat, c: nat)
    requires Shaped(t, live, sub) && z in live && n in sub[z]
    requires (c == t.left[n] || c == t.right[n]) && c != NIL
    ensures c in sub[z]
  {
    assert n in live && NestedAt(t, sub, n);
    assert c in live && NestedAt(t, sub, c);
    SubtreeClosed(t, live, sub, z, n);
  }

  /** At y, moved into z's place with z's left child a and a right child whose subtree is z's right one without y, nesting holds. */
  lemma NestedLift(t: Links, sub: seq<set<nat>>, r: Links, sub': seq<set<nat>>, z: nat, y: nat)
    requires Closed(t) && Closed(r) && |r.left| == |t.left| && |sub| == |t.left| && |sub'| == |t.left| && z < |t.left| && y < |t.left|
    requires NestedAt(t, sub, z) && y in sub[t.right[z]] && r.left[y] == t.left[z]
    requires sub'[y] == sub[z] - {z} && sub'[t.left[z]] == sub[t.left[z]] && sub'[r.right[y]] == sub[t.right[z]] - {y}
    ensures NestedAt(r, sub', y)
  {
  }

  /** At y's old parent q, whose left child y gave way to y's right child x, nesting holds with y gone. */
  lemma NestedDrop(t: Links, sub: seq<set<nat>>, r: Links, sub': seq<set<nat>>, q: nat, y: nat)
    requires Closed(t) && Closed(r) && |r.left| == |t.left| && |sub| == |t.left| && |sub'| == |t.left| && q < |t.left| && y < |t.left|
    requires NestedAt(t, sub, q) && NestedAt(t, sub, y) && t.left[q] == y && sub[t.left[y]] == {}
    requires r.left[q] == t.right[y] && r.right[q] == t.right[q]
    requires sub'[q] == sub[q] - {y} && sub'[t.right[y]] == sub[t.right[y]] && sub'[t.right[q]] == sub[t.right[q]] - {y}
    ensures NestedAt(r, sub', q)
  {
  }

  /** At z's parent g, whose child z gave way to y with z's subtree less z, nesting holds with z gone. */
  lemma NestedReplace(t: Links, sub: seq<set<nat>>, r: Links, sub': seq<set<nat>>, g: nat, z: nat, y: nat)
    requires Closed(t) && Closed(r) && |r.left| == |t.left| && |sub| == |t.left| && |sub'| == |t.left| && g < |t.left| && y < |t.left|
    requires NestedAt(t, sub, g) && g != z && t.left[g] != t.right[g]
    requires (t.left[g] == z && r.left[g] == y && r.right[g] == t.right[g]) || (t.right[g] == z && r.right[g] == y && r.left[g] == t.left[g])
    requires sub'[g] == sub[g] - {z} && sub'[y] == sub[z] - {z}
    requires sub'[t.left[g]] == sub[t.left[g]] - {z} || t.left[g] == z
    requires sub'[t.right[g]] == sub[t.right[g]] - {z} || t.right[g] == z
    ensures NestedAt(r, sub', g)
  {
    if t.left[g] == z {
      assert sub'[t.right[g]] == sub[t.right[g]] - {z};
    } else {
      assert sub'[t.left[g]] == sub[t.left[g]] - {z};
    }
  }

  /** At y, now in z's place, the subtree is z's without z. */
  lemma LiftNestedAtY(t: Links, live: set<nat>, sub: seq<set<nat>>, z: nat, y: nat, r: Links)
    requires Shaped(t, live, sub) && z in live && y < |t.left| && LiftSite(t, live, sub, z, y) && Lifted(t, z, y, r)
    ensures NestedAt(r, RemoveSub(sub, z, y), y)
  {
    var sub' := RemoveSub(sub, z, y);
    var a, b, x := t.left[z], t.right[z], t.right[y];
    assert NestedAt(t, sub, z);
    assert sub'[a] == sub[a];
    if t.parent[y] == z {
      assert sub'[x] == sub[x];
    } else {
      assert NestedAt(t, sub, b);
      assert sub'[b] == sub[b] - {y};
    }
    NestedLift(t, sub, r, sub', z, y);
  }

  /** y's new children remain and name y as their parent. */
  lemma LiftLinksAtY(t: Links, live: set<nat>, sub: seq<set<nat>>, z: nat, y: nat, r: Links)
    requires Shaped(t, live, sub) && z in live && y < |t.left| && LiftSite(t, live, sub, z, y) && Lifted(t, z, y, r)
    ensures var live' := live - {z};
      && r.left[y] in live' && r.parent[r.left[y]] == y
      && (r.right[y] == NIL || r.right[y] in live') && (r.right[y] != NIL ==> r.parent[r.right[y]] == y)
  {
  }

  /** At z's parent g, the child z is now y, whose subtree is z's without z. */
  lemma LiftNestedAbove(t: Links, live: set<nat>, sub: seq<set<nat>>, z: nat, y: nat, r: Links)
    requires Shaped(t, live, sub) && z in live && y < |t.left| && LiftSite(t, live, sub, z, y) && Lifted(t, z, y, r) && t.parent[z] != NIL
    ensures NestedAt(r, RemoveSub(sub, z, y), t.parent[z])
  {
    var g := t.parent[z];
    assert NestedAt(t, sub, g);
    var o := if t.left[g] == z then t.right[g] else t.left[g];
    OutsideChild(t, live, sub, z, g, o);
    assert t.left[g] != t.right[g];
    var sub' := RemoveSub(sub, z, y);
    assert sub'[g] == sub[g] - {z} && sub'[y] == sub[z] - {z} && sub'[o] == sub[o] - {z};
    NestedReplace(t, sub, r, sub', g, z, y);
  }

  /** z's parent g keeps remaining children that name it as their parent. */
  lemma LiftLinksAbove(t: Links, live: set<nat>, sub: seq<set<nat>>, z: nat, y: nat, r: Links)
    requires Shaped(t, live, sub) && z in live && y < |t.left| && LiftSite(t, live, sub, z, y) && Lifted(t, z, y, r) && t.parent[z] != NIL
    ensures var g, live' := t.parent[z], live - {z};
      && (r.left[g] == NIL || r.left[g] in live') && (r.right[g] == NIL || r.right[g] in live')
      && (r.left[g] != NIL ==> r.parent[r.left[g]] == g) && (r.right[g] != NIL ==> r.parent[r.right[g]] == g)
  {
    var g := t.parent[z];
    var o := if t.left[g] == z then t.right[g] else t.left[g];
    OutsideChild(t, live, sub, z, g, o);
    assert o != NIL ==> t.parent[o] == g;
  }

  /** At y's old parent q, below z, the child y is now x. */
  lemma LiftNestedAtQ(t: Links, live: set<nat>, sub: seq<set<nat>>, z: nat, y: nat, r: Links)
    requires Shaped(t, live, sub) && z in live && y < |t.left| && LiftSite(t, live, sub, z, y) && Lifted(t, z, y, r) && t.parent[y] != z
    ensures NestedAt(r, RemoveSub(sub, z, y), t.parent[y])
  {
    var q, b, x := t.parent[y], t.right[z], t.right[y];
    var w := t.right[q];
    var sub' := RemoveSub(sub, z, y);
    assert NestedAt(t, sub, q) && NestedAt(t, sub, y);
    assert sub'[x] == sub[x];
    SubtreeClosed(t, live, sub, z, q);
    assert sub'[q] == sub[q] - {y};
    if w != NIL {
      InsideChild(t, live, sub, b, q, w);
      assert sub'[w] == sub[w] - {y};
    }
    NestedDrop(t, sub, r, sub', q, y);
  }

  /** y's old parent q keeps remaining children that name it as their parent. */
  lemma LiftLinksAtQ(t: Links, live: set<nat>, sub: seq<set<nat>>, z: nat, y: nat, r: Links)
    requires Shaped(t, live, sub) && z in live && y < |t.left| && LiftSite(t, live, sub, z, y) && Lifted(t, z, y, r) && t.parent[y] != z
    ensures var q, live' := t.parent[y], live - {z};
      && (r.left[q] == NIL || r.left[q] in live') && (r.right[q] == NIL || r.right[q] in live')
      && (r.left[q] != NIL ==> r.parent[r.left[q]] == q) && (r.right[q] != NIL ==> r.parent[r.right[q]] == q)
  {
    var q, b := t.parent[y], t.right[z];
    var w := t.right[q];
    if w != NIL {
      assert NestedAt(t, sub, q);
      InsideChild(t, live, sub, b, q, w);
      assert w != b by {
        if q != b {
          SubtreeClosed(t, live, sub, b, q);
        }
      }
      assert t.parent[w] == q;
    }
  }

  /** Elsewhere below z, the subtrees lose y. */
  lemma LiftNestedBelow(t: Links, live: set<nat>, sub: seq<set<nat>>, z: nat, y: nat, r: Links, n: nat)
    requires Shaped(t, live, sub) && z in live && y < |t.left| && LiftSite(t, live, sub, z, y) && Lifted(t, z, y, r)
    requires n in sub[z] && n != z && n != y && n != t.parent[y]
    ensures NestedAt(r, RemoveSub(sub, z, y), n)
  {
    var sub' := RemoveSub(sub, z, y);
    var l, rt := t.left[n], t.right[n];
    assert NestedAt(t, sub, n);
    SubtreeClosed(t, live, sub, z, n);
    assert n != t.parent[z] && r.left[n] == l && r.right[n] == rt;
    if l != NIL {
      InsideChild(t, live, sub, z, n, l);
      assert t.parent[l] == n;
    }
    if rt != NIL {
      InsideChild(t, live, sub, z, n, rt);
      assert t.parent[rt] == n;
    }
    assert sub'[n] == sub[n] - {y};
    assert sub'[l] == sub[l] - {y} && sub'[rt] == sub[rt] - {y};
    NestedMinus(t, sub, r, sub', y, n);
  }

  /** Elsewhere below z, the children are unchanged and still remain. */
  lemma LiftLinksBelow(t: Links, live: set<nat>, sub: seq<set<nat>>, z: nat, y: nat, r: Links, n: nat)
    requires Shaped(t, live, sub) && z in live && y < |t.left| && LiftSite(t, live, sub, z, y) && Lifted(t, z, y, r)
    requires n in sub[z] && n != z && n != y && n != t.parent[y]
    ensures var live' := live - {z};
      && (r.left[n] == NIL || r.left[n] in live') && (r.right[n] == NIL || r.right[n] in live')
      && (r.left[n] != NIL ==> r.parent[r.left[n]] == n) && (r.right[n] != NIL ==> r.parent[r.right[n]] == n)
  {
    var l, rt := t.left[n], t.right[n];
    assert l != NIL ==> t.parent[l] == n;
    assert rt != NIL ==> t.parent[rt] == n;
  }

  /** Outside z's subtree and away from its parent, the subtrees lose z. */
  lemma LiftNestedOutside(t: Links, live: set<nat>, sub: seq<set<nat>>, z: nat, y: nat, r: Links, n: nat)
    requires Shaped(t, live, sub) && z in live && y < |t.left| && LiftSite(t, live, sub, z, y) && Lifted(t, z, y, r)
    requires n in live && n !in sub[z] && n != t.parent[z]
    ensures NestedAt(r, RemoveSub(sub, z, y), n)
  {
    var sub' := RemoveSub(sub, z, y);
    var l, rt := t.left[n], t.right[n];
    assert NestedAt(t, sub, n);
    OutsideChild(t, live, sub, z, n, l);
    OutsideChild(t, live, sub, z, n, rt);
    assert sub'[l] == sub[l] - {z} && sub'[rt] == sub[rt] - {z};
    NestedMinus(t, sub, r, sub', z, n);
  }

  /** Outside z's subtree and away from its parent, the children are unchanged and still remain. */
  lemma LiftLinksOutside(t: Links, live: set<nat>, sub: seq<set<nat>>, z: nat, y: nat, r: Links, n: nat)
    requires Shaped(t, live, sub) && z in live && y < |t.left| && LiftSite(t, live, sub, z, y) && Lifted(t, z, y, r)
    requires n in live && n !in sub[z] && n != t.parent[z]
    ensures var live' := live - {z};
      && (r.left[n] == NIL || r.left[n] in live') && (r.right[n] == NIL || r.right[n] in live')
      && (r.left[n] != NIL ==> r.parent[r.left[n]] == n) && (r.right[n] != NIL ==> r.parent[r.right[n]] == n)
  {
    var l, rt := t.left[n], t.right[n];
    assert r.left[n] == l && r.right[n] == rt;
    OutsideChild(t, live, sub, z, n, l);
    OutsideChild(t, live, sub, z, n, rt);
    assert l != NIL ==> t.parent[l] == n && l !in sub[z];
    assert rt != NIL ==> t.parent[rt] == n && rt !in sub[z];
  }

  /** After y takes z's place, every remaining node but the root hangs from a remaining parent that holds it. */
  lemma LiftParentLink(t: Links, live: set<nat>, sub: seq<set<nat>>, z: nat, y: nat, r: Links, n: nat)
    requires Shaped(t, live, sub) && z in live && y < |t.left| && LiftSite(t, live, sub, z, y) && Lifted(t, z, y, r)
    requires n in live && n != z
    ensures n != r.root ==> r.parent[n] in live - {z} && (r.left[r.parent[n]] == n || r.right[r.parent[n]] == n)
  {
    var a, b, x, q, g := t.left[z], t.right[z], t.right[y], t.parent[y], t.parent[z];
    if n != r.root && n != y && n != a && n != b && n != x {
      assert n != t.root;
      var p := t.parent[n];
      assert p in live && p != z && r.parent[n] == p;
      assert p != y;
      if p == q && q != z {
        assert n != y && t.right[q] == n;
      }
    }
  }

  /** After y takes z's place, the sets of subtrees still cover only remaining nodes, and the new root's is all of them. */
  lemma LiftSized(t: Links, live: set<nat>, sub: seq<set<nat>>, z: nat, y: nat, r: Links)
    requires Shaped(t, live, sub) && z in live && y < |t.left| && LiftSite(t, live, sub, z, y) && Lifted(t, z, y, r)
    requires forall n | n in live - {z} :: (r.left[n] == NIL || r.left[n] in live - {z}) && (r.right[n] == NIL || r.right[n] in live - {z})
    ensures var sub', live' := RemoveSub(sub, z, y), live - {z};
      Sized(r, live', sub') && Rooted(r, live', sub') && Within(live', sub')
  {
    var sub', live' := RemoveSub(sub, z, y), live - {z};
    assert sub'[NIL] == {};
    forall i, m | 0 <= i < |sub'| && m in sub'[i]
      ensures m in live'
    {
      if i != z && i != y && i in sub[z] {
        SubtreeClosed(t, live, sub, z, i);
      }
    }
    if t.parent[z] != NIL {
      assert t.root != z;
      assert t.root !in sub[z] by {
        if t.root in sub[z] {
          ParentInSubtree(t, live, sub, z, t.root);
        }
      }
    }
  }

  /** At each remaining node, moving y into z's place keeps nesting and links. */
  lemma LiftNode(t: Links, live: set<nat>, sub: seq<set<nat>>, z: nat, y: nat, r: Links, n: nat)
    requires Shaped(t, live, sub) && z in live && y < |t.left| && LiftSite(t, live, sub, z, y) && Lifted(t, z, y, r)
    requires n in live && n != z
    ensures var live' := live - {z};
      && NestedAt(r, RemoveSub(sub, z, y), n)
      && (r.left[n] == NIL || r.left[n] in live') && (r.right[n] == NIL || r.right[n] in live')
      && (r.left[n] != NIL ==> r.parent[r.left[n]] == n) && (r.right[n] != NIL ==> r.parent[r.right[n]] == n)
      && (n != r.root ==> r.parent[n] in live' && (r.left[r.parent[n]] == n || r.right[r.parent[n]] == n))
  {
    if n == y {
      LiftNestedAtY(t, live, sub, z, y, r);
      LiftLinksAtY(t, live, sub, z, y, r);
    } else if n == t.parent[z] {
      LiftNestedAbove(t, live, sub, z, y, r);
      LiftLinksAbove(t, live, sub, z, y, r);
    } else if n == t.parent[y] {
      LiftNestedAtQ(t, live, sub, z, y, r);
      LiftLinksAtQ(t, live, sub, z, y, r);
    } else if n in sub[z] {
      LiftNestedBelow(t, live, sub, z, y, r, n);
      LiftLinksBelow(t, live, sub, z, y, r, n);
    } else {
      LiftNestedOutside(t, live, sub, z, y, r, n);
      LiftLinksOutside(t, live, sub, z, y, r, n);
    }
    LiftParentLink(t, live, sub, z, y, r, n);
  }

  /** Moving y into z's place leaves the links one binary tree over the remaining nodes. */
  lemma LiftShaped(t: Links, live: set<nat>, sub: seq<set<nat>>, z: nat, y: nat, r: Links)
    requires Shaped(t, live, sub) && z in live && y < |t.left| && LiftSite(t, live, sub, z, y) && Lifted(t, z, y, r)
    ensures Shaped(r, live - {z}, RemoveSub(sub, z, y))
  {
    var sub', live' := RemoveSub(sub, z, y), live - {z};
    forall n | n in live'
      ensures NestedAt(r, sub', n)
      ensures r.left[n] == NIL || r.left[n] in live'
      ensures r.right[n] == NIL || r.right[n] in live'
      ensures r.left[n] != NIL ==> r.parent[r.left[n]] == n
      ensures r.right[n] != NIL ==> r.parent[r.right[n]] == n
      ensures n != r.root ==> r.parent[n] in live' && (r.left[r.parent[n]] == n || r.right[r.parent[n]] == n)
    {
      LiftNode(t, live, sub, z, y, r, n);
    }
    LiftSized(t, live, sub, z, y, r);
  }

  /** At y, in z's place, the keys on the left are below z's and so below y's, and those on the right are above y's, which was their least. */
  lemma LiftOrderedAtY(t: Links, live: set<nat>, sub: seq<set<nat>>, key: seq<int>, z: nat, y: nat, r: Links)
    requires Lifting(t, live, sub, key, z, y) && Lifted(t, z, y, r) && Shaped(r, live - {z}, RemoveSub(sub, z, y))
    ensures OrderedAt(r, RemoveSub(sub, z, y), key, y)
  {
    LiftSetting(t, live, sub, key, z, y);
    var sub' := RemoveSub(sub, z, y);
    var a, b, x := t.left[z], t.right[z], t.right[y];
    assert OrderedAt(t, sub, key, z);
    assert sub'[a] == sub[a];
    if t.parent[y] == z {
      assert sub'[x] == sub[x];
      assert NestedAt(t, sub, y);
    } else {
      assert NestedAt(t, sub, b);
      assert sub'[b] == sub[b] - {y};
    }
  }

  /** At z's parent, the subtree that replaces z's lies within it. */
  lemma LiftOrderedAbove(t: Links, live: set<nat>, sub: seq<set<nat>>, key: seq<int>, z: nat, y: nat, r: Links)
    requires Lifting(t, live, sub, key, z, y) && Lifted(t, z, y, r) && Shaped(r, live - {z}, RemoveSub(sub, z, y))
    requires t.parent[z] != NIL
    ensures OrderedAt(r, RemoveSub(sub, z, y), key, t.parent[z])
  {
    LiftSetting(t, live, sub, key, z, y);
    var g, sub' := t.parent[z], RemoveSub(sub, z, y);
    assert OrderedAt(t, sub, key, g);
    assert sub'[y] <= sub[z];
    var o := if t.left[g] == z then t.right[g] else t.left[g];
    assert sub'[o] <= sub[o];
  }

  /** At y's old parent, x's subtree replaces y's and lies within it. */
  lemma LiftOrderedAtQ(t: Links, live: set<nat>, sub: seq<set<nat>>, key: seq<int>, z: nat, y: nat, r: Links)
    requires Lifting(t, live, sub, key, z, y) && Lifted(t, z, y, r) && Shaped(r, live - {z}, RemoveSub(sub, z, y))
    requires t.parent[y] != z
    ensures OrderedAt(r, RemoveSub(sub, z, y), key, t.parent[y])
  {
    LiftSetting(t, live, sub, key, z, y);
    var q, x, sub' := t.parent[y], t.right[y], RemoveSub(sub, z, y);
    assert OrderedAt(t, sub, key, q);
    assert NestedAt(t, sub, y);
    assert sub'[x] <= sub[y];
    assert sub'[t.right[q]] <= sub[t.right[q]];
  }

  /** Elsewhere, a node keeps its children and their subtrees only shrink. */
  lemma LiftOrderedAt(t: Links, live: set<nat>, sub: seq<set<nat>>, key: seq<int>, z: nat, y: nat, r: Links, n: nat)
    requires Lifting(t, live, sub, key, z, y) && Lifted(t, z, y, r) && Shaped(r, live - {z}, RemoveSub(sub, z, y))
    requires n in live && n != z && n != y && n != t.parent[z] && n != t.parent[y]
    ensures OrderedAt(r, RemoveSub(sub, z, y), key, n)
  {
    LiftSetting(t, live, sub, key, z, y);
    var sub' := RemoveSub(sub, z, y);
    assert OrderedAt(t, sub, key, n);
    assert r.left[n] == t.left[n] && r.right[n] == t.right[n];
    assert sub'[t.left[n]] <= sub[t.left[n]] && sub'[t.right[n]] <= sub[t.right[n]];
  }

  /** Moving y into z's place keeps the search order. */
  lemma LiftOrdered(t: Links, live: set<nat>, sub: seq<set<nat>>, key: seq<int>, z: nat, y: nat, r: Links)
    requires Lifting(t, live, sub, key, z, y) && Lifted(t, z, y, r) && Shaped(r, live - {z}, RemoveSub(sub, z, y))
    ensures Ordered(r, live - {z}, RemoveSub(sub, z, y), key)
  {
    forall n | n in live - {z}
      ensures OrderedAt(r, RemoveSub(sub, z, y), key, n)
    {
      if n == y {
        LiftOrderedAtY(t, live, sub, key, z, y, r);
      } else if n == t.parent[z] {
        LiftOrderedAbove(t, live, sub, key, z, y, r);
      } else if n == t.parent[y] {
        LiftOrderedAtQ(t, live, sub, key, z, y, r);
      } else {
        LiftOrderedAt(t, live, sub, key, z, y, r, n);
      }
    }
  }

  /** At y, in z's place with z's colour and height: one black short on x's side when y was z's black right child. */
  lemma LiftPaintAtY(t: Links, live: set<nat>, sub: seq<set<nat>>, color: seq<Color>, bh: seq<nat>, z: nat, y: nat, r: Links)
    requires Shaped(t, live, sub) && z in live && y < |t.left| && LiftSite(t, live, sub, z, y) && Lifted(t, z, y, r)
    requires Painted(t, live, color, bh) && Heights(t, live, color, bh, NIL, true) && RedRule(t, live, color, NIL)
    ensures var c, h, x := Recolored(color, z, y), bh[y := bh[z]], t.right[y];
      var p := if t.parent[y] == z then y else t.parent[y];
      && (color[y] == Black ==> HeightsAt(r, c, h, y, p, x == r.left[p]) && RedAt(r, c, y, x))
      && (color[y] == Red ==> HeightsAt(r, c, h, y, NIL, true) && RedAt(r, c, y, NIL))
  {
    assert HeightsAt(t, color, bh, z, NIL, true) && HeightsAt(t, color, bh, y, NIL, true);
    assert RedAt(t, color, z, NIL) && RedAt(t, color, y, NIL);
  }

  /** At z's parent, y shows z's colour and height, so nothing changes. */
  lemma LiftPaintAbove(t: Links, live: set<nat>, sub: seq<set<nat>>, color: seq<Color>, bh: seq<nat>, z: nat, y: nat, r: Links)
    requires Shaped(t, live, sub) && z in live && y < |t.left| && LiftSite(t, live, sub, z, y) && Lifted(t, z, y, r)
    requires Painted(t, live, color, bh) && Heights(t, live, color, bh, NIL, true) && RedRule(t, live, color, NIL)
    requires t.parent[z] != NIL
    ensures var c, h, x := Recolored(color, z, y), bh[y := bh[z]], t.right[y];
      var p := if t.parent[y] == z then y else t.parent[y];
      && (color[y] == Black ==> HeightsAt(r, c, h, t.parent[z], p, x == r.left[p]) && RedAt(r, c, t.parent[z], x))
      && (color[y] == Red ==> HeightsAt(r, c, h, t.parent[z], NIL, true) && RedAt(r, c, t.parent[z], NIL))
  {
    var g := t.parent[z];
    assert HeightsAt(t, color, bh, g, NIL, true) && RedAt(t, color, g, NIL);
    var o := if t.left[g] == z then t.right[g] else t.left[g];
    assert o != y;
  }

  /** At y's old parent q, x replaces y: one black short there when y was black. */
  lemma LiftPaintAtQ(t: Links, live: set<nat>, sub: seq<set<nat>>, color: seq<Color>, bh: seq<nat>, z: nat, y: nat, r: Links)
    requires Shaped(t, live, sub) && z in live && y < |t.left| && LiftSite(t, live, sub, z, y) && Lifted(t, z, y, r)
    requires Painted(t, live, color, bh) && Heights(t, live, color, bh, NIL, true) && RedRule(t, live, color, NIL)
    requires t.parent[y] != z
    ensures var c, h, x := Recolored(color, z, y), bh[y := bh[z]], t.right[y];
      var p := if t.parent[y] == z then y else t.parent[y];
      && (color[y] == Black ==> HeightsAt(r, c, h, t.parent[y], p, x == r.left[p]) && RedAt(r, c, t.parent[y], x))
      && (color[y] == Red ==> HeightsAt(r, c, h, t.parent[y], NIL, true) && RedAt(r, c, t.parent[y], NIL))
  {
    var q := t.parent[y];
    assert HeightsAt(t, color, bh, q, NIL, true) && HeightsAt(t, color, bh, y, NIL, true);
    assert RedAt(t, color, q, NIL) && RedAt(t, color, y, NIL);
    assert t.right[q] != y;
  }

  /** Elsewhere, no node's children, colours or heights change. */
  lemma LiftPaintAt(t: Links, live: set<nat>, sub: seq<set<nat>>, color: seq<Color>, bh: seq<nat>, z: nat, y: nat, r: Links, n: nat)
    requires Shaped(t, live, sub) && z in live && y < |t.left| && LiftSite(t, live, sub, z, y) && Lifted(t, z, y, r)
    requires Painted(t, live, color, bh) && Heights(t, live, color, bh, NIL, true) && RedRule(t, live, color, NIL)
    requires n in live && n != z && n != y && n != t.parent[z] && n != t.parent[y]
    ensures var c, h, x := Recolored(color, z, y), bh[y := bh[z]], t.right[y];
      var p := if t.parent[y] == z then y else t.parent[y];
      && (color[y] == Black ==> HeightsAt(r, c, h, n, p, x == r.left[p]) && RedAt(r, c, n, x))
      && (color[y] == Red ==> HeightsAt(r, c, h, n, NIL, true) && RedAt(r, c, n, NIL))
  {
    assert HeightsAt(t, color, bh, n, NIL, true) && RedAt(t, color, n, NIL);
    assert r.left[n] == t.left[n] && r.right[n] == t.right[n];
    assert t.left[n] != y && t.right[n] != y;
  }

  /** At every remaining node, the colours and heights after y takes z's place meet the rules `DeleteFixup` expects. */
  lemma LiftPaintNode(t: Links, live: set<nat>, sub: seq<set<nat>>, color: seq<Color>, bh: seq<nat>, z: nat, y: nat, r: Links, n: nat)
    requires Shaped(t, live, sub) && z in live && y < |t.left| && LiftSite(t, live, sub, z, y) && Lifted(t, z, y, r)
    requires Painted(t, live, color, bh) && Heights(t, live, color, bh, NIL, true) && RedRule(t, live, color, NIL)
    requires n in live && n != z
    ensures var c, h, x := Recolored(color, z, y), bh[y := bh[z]], t.right[y];
      var p := if t.parent[y] == z then y else t.parent[y];
      && (color[y] == Black ==> HeightsAt(r, c, h, n, p, x == r.left[p]) && RedAt(r, c, n, x))
      && (color[y] == Red ==> HeightsAt(r, c, h, n, NIL, true) && RedAt(r, c, n, NIL))
  {
    if n == y {
      LiftPaintAtY(t, live, sub, color, bh, z, y, r);
    } else if n == t.parent[z] {
      LiftPaintAbove(t, live, sub, color, bh, z, y, r);
    } else if n == t.parent[y] {
      LiftPaintAtQ(t, live, sub, color, bh, z, y, r);
    } else {
      LiftPaintAt(t, live, sub, color, bh, z, y, r, n);
    }
  }

  /** When y was black, every remaining node meets the height rule with a deficit on x's side of its new parent, and the red rule with the exception at x. */
  lemma LiftPaintBlack(t: Links, live: set<nat>, sub: seq<set<nat>>, color: seq<Color>, bh: seq<nat>, z: nat, y: nat, r: Links)
    requires Shaped(t, live, sub) && z in live && y < |t.left| && LiftSite(t, live, sub, z, y) && Lifted(t, z, y, r)
    requires Painted(t, live, color, bh) && Heights(t, live, color, bh, NIL, true) && RedRule(t, live, color, NIL)
    requires color[y] == Black && color[t.root] == Black && Shaped(r, live - {z}, RemoveSub(sub, z, y))
    ensures FixingDelete(r, live - {z}, RemoveSub(sub, z, y), Recolored(color, z, y), bh[y := bh[z]], t.right[y])
  {
    var c, h := Recolored(color, z, y), bh[y := bh[z]];
    var x, p := t.right[y], if t.parent[y] == z then y else t.parent[y];
    forall n | n in live - {z}
      ensures HeightsAt(r, c, h, n, p, x == r.left[p]) && RedAt(r, c, n, x)
    {
      LiftPaintNode(t, live, sub, color, bh, z, y, r, n);
    }
    Assemble(r, live - {z}, c, h, p, x == r.left[p], x);
    assert x != r.root && r.parent[x] == p;
  }

  /** When y was red, every remaining node meets the height and red rules without exception. */
  lemma LiftPaintRed(t: Links, live: set<nat>, sub: seq<set<nat>>, color: seq<Color>, bh: seq<nat>, z: nat, y: nat, r: Links)
    requires Shaped(t, live, sub) && z in live && y < |t.left| && LiftSite(t, live, sub, z, y) && Lifted(t, z, y, r)
    requires Painted(t, live, color, bh) && Heights(t, live, color, bh, NIL, true) && RedRule(t, live, color, NIL)
    requires color[y] == Red && color[t.root] == Black
    ensures var c, h := Recolored(color, z, y), bh[y := bh[z]];
      && Painted(r, live - {z}, c, h)
      && Heights(r, live - {z}, c, h, NIL, true) && RedRule(r, live - {z}, c, NIL) && c[r.root] == Black
  {
    var c, h := Recolored(color, z, y), bh[y := bh[z]];
    forall n | n in live - {z}
      ensures HeightsAt(r, c, h, n, NIL, true) && RedAt(r, c, n, NIL)
    {
      LiftPaintNode(t, live, sub, color, bh, z, y, r, n);
    }
    Assemble(r, live - {z}, c, h, NIL, true, NIL);
  }

  /**
   * Moving z's successor y into z's place, with z's colour, leaves a search
   * tree over the other nodes; when y was black, it is the state
   * `DeleteFixup` starts from at y's old right child, and when y was red, it
   * is a red-black tree.
   */
  lemma LiftState(t: Links, live: set<nat>, sub: seq<set<nat>>, key: seq<int>, color: seq<Color>, bh: seq<nat>, z: nat, y: nat)
    requires RedBlack(t, live, sub, key, color, bh) && z in live && t.left[z] != NIL && t.right[z] != NIL
    requires Replacement(t, live, sub, key, z, y)
    ensures y < |t.left|
    ensures var r, x, live', sub' := Unlinked(t, z, y), Moved(t, z, y), live - {z}, RemoveSub(sub, z, y);
      var c, h := Recolored(color, z, y), bh[y := bh[z]];
      && (color[y] == Black ==> DeleteState(r, live', sub', key, c, h, x))
      && (color[y] == Red ==> RedBlack(r, live', sub', key, c, h))
  {
    LiftSetting(t, live, sub, key, z, y);
    LiftFacts(t, z, y);
    var r := Unlinked(t, z, y);
    LiftShaped(t, live, sub, z, y, r);
    LiftOrdered(t, live, sub, key, z, y, r);
    if color[y] == Black {
      LiftPaintBlack(t, live, sub, color, bh, z, y, r);
    } else {
      LiftPaintRed(t, live, sub, color, bh, z, y, r);
    }
  }

  /**
   * Unlinking z as `Delete` does leaves a search tree over the other nodes,
   * and the node that left its position, y, decides what follows: when y
   * was black, the state `DeleteFixup` starts from at the node that moved
   * into y's position, and when y was red, a red-black tree.
   */
  lemma UnlinkState(t: Links, live: set<nat>, sub: seq<set<nat>>, key: seq<int>, color: seq<Color>, bh: seq<nat>, z: nat, y: nat,
                    r: Links, live': set<nat>, sub': seq<set<nat>>, c: seq<Color>, bh': seq<nat>)
    requires RedBlack(t, live, sub, key, color, bh) && z in live && Replacement(t, live, sub, key, z, y)
    requires r == Unlinked(t, z, y) && c == Recolored(color, z, y)
    requires live' == live - {z} && sub' == RemoveSub(sub, z, y) && bh' == bh[y := bh[z]]
    ensures y in live
    ensures color[y] == Black ==> DeleteState(r, live', sub', key, c, bh', Moved(t, z, y))
    ensures color[y] == Red ==> RedBlack(r, live', sub', key, c, bh')
  {
    if t.left[z] == NIL || t.right[z] == NIL {
      assert bh[y := bh[z]] == bh;
      SpliceState(t, live, sub, key, color, bh, z);
    } else {
      LiftState(t, live, sub, key, color, bh, z, y);
      LiftSetting(t, live, sub, key, z, y);
    }
  }
}
