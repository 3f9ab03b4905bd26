/**
 * The red-black rules while `DeleteFixup` runs, and its four cases.
 *
 * After a black node is unlinked, the node x that took its place carries an
 * extra black: every path through x is one black short. The loop keeps
 * this as a deficit at x's parent on x's side (none once x is the root),
 * and allows a red-red edge only where it touches x; it ends when x is red
 * or the root, and painting x black then restores all the rules.
 */
module DeleteRules {
  import opened Arena
  import opened RedBlackRules

  /**
   * The state `DeleteFixup` keeps: a binary tree whose black heights agree
   * except that x's parent is one black short on x's side, whose only
   * red-red edges touch x, and whose root is black unless it is x. x may
   * be the sentinel, whose parent link then names the node it hangs from.
   */
  ghost predicate FixingDelete(t: Links, live: set<nat>, sub: seq<set<nat>>, color: seq<Color>, bh: seq<nat>, x: nat)
  {
    && Shaped(t, live, sub) && Painted(t, live, color, bh)
    && (x == NIL || x in live)
    && (x != t.root ==> t.parent[x] in live && (t.left[t.parent[x]] == x || t.right[t.parent[x]] == x))
    && Heights(t, live, color, bh, if x == t.root then NIL else t.parent[x], x == t.left[t.parent[x]])
    && RedRule(t, live, color, x)
    && (color[t.root] == Black || x == t.root)
  }

  /** The state `DeleteFixup` keeps, together with the key order, which its rotations preserve. */
  ghost predicate DeleteState(t: Links, live: set<nat>, sub: seq<set<nat>>, key: seq<int>, color: seq<Color>, bh: seq<nat>, x: nat)
  {
    FixingDelete(t, live, sub, color, bh, x) && |key| == |t.left| && Ordered(t, live, sub, key)
  }

  /** x is the left child of p, and s is its sibling. */
  ghost predicate LeftSibling(t: Links, x: nat, p: nat, s: nat)
    requires Closed(t) && x < |t.left|
  {
    p == t.parent[x] && x == t.left[p] && s == t.right[p]
  }

  /** x is the right child of p, and s is its sibling. */
  ghost predicate RightSibling(t: Links, x: nat, p: nat, s: nat)
    requires Closed(t) && x < |t.left|
  {
    p == t.parent[x] && x != t.left[p] && s == t.left[p]
  }

  /** x and its sibling s hang from p: no two of x, s, s's children, p and p's parent coincide, apart from the sentinel. */
  lemma DeleteFamily(t: Links, live: set<nat>, sub: seq<set<nat>>, x: nat, p: nat, s: nat)
    requires Shaped(t, live, sub) && p in live && s in live && (x == NIL || x in live)
    requires p == t.parent[s] && ((t.left[p] == x && t.right[p] == s) || (t.left[p] == s && t.right[p] == x))
    ensures t.left[s] != p && t.right[s] != p && (t.left[s] != NIL ==> t.left[s] != t.right[s])
    ensures x != NIL ==> x != t.left[s] && x != t.right[s]
    ensures t.parent[p] != NIL ==> t.parent[p] in live && t.parent[p] != x && t.parent[p] != s
    ensures t.parent[p] != NIL ==> t.parent[p] != t.left[s] && t.parent[p] != t.right[s]
  {
    assert NestedAt(t, sub, p) && NestedAt(t, sub, s);
    assert p in sub[p] && s in sub[s];
    if x != NIL {
      assert NestedAt(t, sub, x);
    }
    if t.left[s] != NIL {
      assert NestedAt(t, sub, t.left[s]);
    }
    if t.right[s] != NIL {
      assert NestedAt(t, sub, t.right[s]);
    }
    if t.parent[p] != NIL {
      assert p != t.root;
      ClimbShrinks(t, live, sub, p);
      var g := t.parent[p];
      assert NestedAt(t, sub, g) && g in sub[g];
    }
  }

  /**
   * While x is black and not the root, its parent p and its sibling s are
   * live, and the sibling side is one black taller than x's side, so s is
   * a node and not the sentinel.
   */
  lemma DeleteSettingLeft(t: Links, live: set<nat>, sub: seq<set<nat>>, color: seq<Color>, bh: seq<nat>, x: nat, p: nat, s: nat)
    requires FixingDelete(t, live, sub, color, bh, x) && x != t.root && color[x] == Black && LeftSibling(t, x, p, s)
    ensures p in live && s in live && t.parent[s] == p && s != x && s != p && x != p
    ensures bh[p] == bh[x] + 2 && bh[p] == bh[s] + Weight(color[s])
    ensures bh[s] == bh[t.left[s]] + Weight(color[t.left[s]]) && bh[s] == bh[t.right[s]] + Weight(color[t.right[s]])
    ensures x !in sub[s] && p !in sub[x] && p !in sub[s] && sub[x] < sub[p]
    ensures color[s] == Red ==> color[p] == Black && color[t.left[s]] == Black && color[t.right[s]] == Black
    ensures color[s] == Red ==> t.left[s] != NIL && t.right[s] != NIL
    ensures t.left[s] != p && t.right[s] != p && (t.left[s] != NIL ==> t.left[s] != t.right[s])
    ensures x != NIL ==> x != t.left[s] && x != t.right[s]
    ensures t.parent[p] != NIL ==> t.parent[p] in live && t.parent[p] != x && t.parent[p] != s
    ensures t.parent[p] != NIL ==> t.parent[p] != t.left[s] && t.parent[p] != t.right[s]
  {
    DeleteFamily(t, live, sub, x, p, s);
    assert HeightsAt(t, color, bh, p, p, true) && NestedAt(t, sub, p);
    assert HeightsAt(t, color, bh, s, p, true);
    assert RedAt(t, color, p, x) && RedAt(t, color, s, x);
    assert p in sub[p] && s in sub[s];
    if x != NIL {
      assert HeightsAt(t, color, bh, x, p, true);
    }
  }

  /** The mirror of `DeleteSettingLeft`, with x a right child. */
  lemma DeleteSettingRight(t: Links, live: set<nat>, sub: seq<set<nat>>, color: seq<Color>, bh: seq<nat>, x: nat, p: nat, s: nat)
    requires FixingDelete(t, live, sub, color, bh, x) && x != t.root && color[x] == Black && RightSibling(t, x, p, s)
    ensures p in live && s in live && t.parent[s] == p && s != x && s != p && x != p && x == t.right[p]
    ensures bh[p] == bh[x] + 2 && bh[p] == bh[s] + Weight(color[s])
    ensures bh[s] == bh[t.left[s]] + Weight(color[t.left[s]]) && bh[s] == bh[t.right[s]] + Weight(color[t.right[s]])
    ensures x !in sub[s] && p !in sub[x] && p !in sub[s] && sub[x] < sub[p]
    ensures color[s] == Red ==> color[p] == Black && color[t.left[s]] == Black && color[t.right[s]] == Black
    ensures color[s] == Red ==> t.left[s] != NIL && t.right[s] != NIL
    ensures t.left[s] != p && t.right[s] != p && (t.left[s] != NIL ==> t.left[s] != t.right[s])
    ensures x != NIL ==> x != t.left[s] && x != t.right[s]
    ensures t.parent[p] != NIL ==> t.parent[p] in live && t.parent[p] != x && t.parent[p] != s
    ensures t.parent[p] != NIL ==> t.parent[p] != t.left[s] && t.parent[p] != t.right[s]
  {
    DeleteFamily(t, live, sub, x, p, s);
    assert HeightsAt(t, color, bh, p, p, false) && NestedAt(t, sub, p);
    assert HeightsAt(t, color, bh, s, p, false);
    assert RedAt(t, color, p, x) && RedAt(t, color, s, x);
    assert p in sub[p] && s in sub[s];
    if x != NIL {
      assert HeightsAt(t, color, bh, x, p, false);
    }
  }

  /** Case 1 of `DeleteFixup`, x a left child, at p and s: after recolouring and rotating left at p, heights and the red rule hold there. */
  lemma DeleteRedSiblingLeftAt(t: Links, live: set<nat>, sub: seq<set<nat>>, color: seq<Color>, bh: seq<nat>,
                               x: nat, p: nat, s: nat, n: nat)
    requires FixingDelete(t, live, sub, color, bh, x) && x != t.root && color[x] == Black && LeftSibling(t, x, p, s)
    requires color[s] == Red && (n == p || n == s)
    ensures LeftRotatable(t, p)
    ensures HeightsAt(RotateLeft(t, p), color[s := Black][p := Red], bh, n, p, true)
    ensures RedAt(RotateLeft(t, p), color[s := Black][p := Red], n, x)
  {
    DeleteSettingLeft(t, live, sub, color, bh, x, p, s);
    RotateLeftLinks(t, live, sub, p);
    var r := RotateLeft(t, p);
    assert HeightsAt(t, color, bh, s, p, true) && HeightsAt(t, color, bh, p, p, true);
    assert r.left[p] == x && r.right[p] == t.left[s] && r.left[s] == p && r.right[s] == t.right[s];
  }

  /** Case 1 of `DeleteFixup`, x a left child, at p's parent, which now holds s where it held p. */
  lemma DeleteRedSiblingLeftAbove(t: Links, live: set<nat>, sub: seq<set<nat>>, color: seq<Color>, bh: seq<nat>,
                                  x: nat, p: nat, s: nat)
    requires FixingDelete(t, live, sub, color, bh, x) && x != t.root && color[x] == Black && LeftSibling(t, x, p, s)
    requires color[s] == Red && t.parent[p] != NIL
    ensures LeftRotatable(t, p) && t.parent[p] in live
    ensures HeightsAt(RotateLeft(t, p), color[s := Black][p := Red], bh, t.parent[p], p, true)
    ensures RedAt(RotateLeft(t, p), color[s := Black][p := Red], t.parent[p], x)
  {
    DeleteSettingLeft(t, live, sub, color, bh, x, p, s);
    RotateLeftLinks(t, live, sub, p);
    var g := t.parent[p];
    assert HeightsAt(t, color, bh, g, p, true) && RedAt(t, color, g, x);
    assert HeightsAt(t, color, bh, p, p, true);
    assert g != x;
  }

  /** Case 1 of `DeleteFixup`, x a left child, at a node away from the rotation: nothing there changes. */
  lemma DeleteRedSiblingLeftFrame(t: Links, live: set<nat>, sub: seq<set<nat>>, color: seq<Color>, bh: seq<nat>,
                                  x: nat, p: nat, s: nat, n: nat)
    requires FixingDelete(t, live, sub, color, bh, x) && x != t.root && color[x] == Black && LeftSibling(t, x, p, s)
    requires color[s] == Red && n in live && n != p && n != s && n != t.parent[p]
    ensures LeftRotatable(t, p)
    ensures HeightsAt(RotateLeft(t, p), color[s := Black][p := Red], bh, n, p, true)
    ensures RedAt(RotateLeft(t, p), color[s := Black][p := Red], n, x)
  {
    DeleteSettingLeft(t, live, sub, color, bh, x, p, s);
    RotateLeftFrame(t, live, sub, p, n);
    assert HeightsAt(t, color, bh, n, p, true) && RedAt(t, color, n, x);
  }

  /** Case 1 of `DeleteFixup`, x a left child, at every node: the heights and the red rule hold after the rotation. */
  lemma DeleteRedSiblingLeftRules(t: Links, live: set<nat>, sub: seq<set<nat>>, color: seq<Color>, bh: seq<nat>,
                                  x: nat, p: nat, s: nat)
    requires FixingDelete(t, live, sub, color, bh, x) && x != t.root && color[x] == Black && LeftSibling(t, x, p, s)
    requires color[s] == Red
    ensures LeftRotatable(t, p) && Painted(RotateLeft(t, p), live, color[s := Black][p := Red], bh)
    ensures Heights(RotateLeft(t, p), live, color[s := Black][p := Red], bh, p, true)
    ensures RedRule(RotateLeft(t, p), live, color[s := Black][p := Red], x)
  {
    DeleteSettingLeft(t, live, sub, color, bh, x, p, s);
    RotateLeftFacts(t, p);
    var r, color' := RotateLeft(t, p), color[s := Black][p := Red];
    forall n | n in live
      ensures HeightsAt(r, color', bh, n, p, true) && RedAt(r, color', n, x)
    {
      if n == p || n == s {
        DeleteRedSiblingLeftAt(t, live, sub, color, bh, x, p, s, n);
      } else if n == t.parent[p] {
        DeleteRedSiblingLeftAbove(t, live, sub, color, bh, x, p, s);
      } else {
        DeleteRedSiblingLeftFrame(t, live, sub, color, bh, x, p, s, n);
      }
    }
    Assemble(r, live, color', bh, p, true, x);
  }

  /**
   * Case 1 of `DeleteFixup` with x a left child: the red sibling s turns
   * black, p red, and the tree rotates left at p; x keeps its parent and
   * its deficit, and its new sibling is black.
   */
  lemma DeleteRedSiblingLeft(t: Links, live: set<nat>, sub: seq<set<nat>>, color: seq<Color>, bh: seq<nat>,
                             x: nat, p: nat, s: nat)
    requires FixingDelete(t, live, sub, color, bh, x) && x != t.root && color[x] == Black && LeftSibling(t, x, p, s)
    requires color[s] == Red
    ensures LeftRotatable(t, p)
    ensures FixingDelete(RotateLeft(t, p), live, RotateLeftSub(t, sub, p), color[s := Black][p := Red], bh, x)
    ensures LeftSibling(RotateLeft(t, p), x, p, t.left[s]) && RotateLeft(t, p).root != x
    ensures color[s := Black][p := Red][t.left[s]] == Black && RotateLeftSub(t, sub, p)[x] == sub[x]
  {
    DeleteSettingLeft(t, live, sub, color, bh, x, p, s);
    RotateLeftShaped(t, live, sub, p);
    DeleteRedSiblingLeftRules(t, live, sub, color, bh, x, p, s);
    var r := RotateLeft(t, p);
    assert r.left[p] == x && r.parent[x] == p;
    assert t.left[p] != t.left[s];
  }

  /** Case 2 of `DeleteFixup`, x a left child, at one node n: with s red and p one black lower, the deficit moves to p's parent. */
  lemma DeleteRecolorLeftAt(t: Links, live: set<nat>, sub: seq<set<nat>>, color: seq<Color>, bh: seq<nat>,
                            x: nat, p: nat, s: nat, n: nat)
    requires FixingDelete(t, live, sub, color, bh, x) && x != t.root && color[x] == Black && LeftSibling(t, x, p, s)
    requires color[s] == Black && color[t.left[s]] == Black && color[t.right[s]] == Black && n in live
    ensures HeightsAt(t, color[s := Red], bh[p := bh[s]], n, if p == t.root then NIL else t.parent[p], p == t.left[t.parent[p]])
    ensures RedAt(t, color[s := Red], n, p)
  {
    DeleteSettingLeft(t, live, sub, color, bh, x, p, s);
    assert HeightsAt(t, color, bh, n, p, true) && RedAt(t, color, n, x);
    if n == p {
    } else if n == s {
    } else {
      assert t.left[n] != s && t.right[n] != s;
      if t.left[n] == p || t.right[n] == p {
        assert p != t.root && n == t.parent[p];
      }
    }
  }

  /**
   * Case 2 of `DeleteFixup` with x a left child: s and both its children
   * are black, so s turns red, which takes one black off p's subtree; p
   * becomes x, with the deficit now at its own parent.
   */
  lemma DeleteRecolorLeft(t: Links, live: set<nat>, sub: seq<set<nat>>, color: seq<Color>, bh: seq<nat>,
                          x: nat, p: nat, s: nat)
    requires FixingDelete(t, live, sub, color, bh, x) && x != t.root && color[x] == Black && LeftSibling(t, x, p, s)
    requires color[s] == Black && color[t.left[s]] == Black && color[t.right[s]] == Black
    ensures FixingDelete(t, live, sub, color[s := Red], bh[p := bh[s]], p)
    ensures live - sub[p] < live - sub[x]
  {
    DeleteSettingLeft(t, live, sub, color, bh, x, p, s);
    var color', bh' := color[s := Red], bh[p := bh[s]];
    var d := if p == t.root then NIL else t.parent[p];
    forall n | n in live
      ensures HeightsAt(t, color', bh', n, d, p == t.left[t.parent[p]]) && RedAt(t, color', n, p)
    {
      DeleteRecolorLeftAt(t, live, sub, color, bh, x, p, s, n);
    }
    Assemble(t, live, color', bh', d, p == t.left[t.parent[p]], p);
    assert s != t.root;
  }

  /** Case 3 of `DeleteFixup`, x a left child, at s and its red left child w: after recolouring and rotating right at s, heights and the red rule hold there. */
  lemma DeleteInnerLeftAt(t: Links, live: set<nat>, sub: seq<set<nat>>, color: seq<Color>, bh: seq<nat>,
                          x: nat, p: nat, s: nat, n: nat)
    requires FixingDelete(t, live, sub, color, bh, x) && x != t.root && color[x] == Black && LeftSibling(t, x, p, s)
    requires color[s] == Black && color[t.left[s]] == Red && color[t.right[s]] == Black && (n == s || n == t.left[s])
    ensures RightRotatable(t, s)
    ensures HeightsAt(RotateRight(t, s), color[t.left[s] := Black][s := Red], bh, n, p, true)
    ensures RedAt(RotateRight(t, s), color[t.left[s] := Black][s := Red], n, x)
  {
    DeleteSettingLeft(t, live, sub, color, bh, x, p, s);
    RotateRightLinks(t, live, sub, s);
    var w, r := t.left[s], RotateRight(t, s);
    assert HeightsAt(t, color, bh, s, p, true) && HeightsAt(t, color, bh, w, p, true);
    assert RedAt(t, color, w, x);
    assert r.left[w] == t.left[w] && r.right[w] == s && r.left[s] == t.right[w] && r.right[s] == t.right[s];
  }

  /** Case 3 of `DeleteFixup`, x a left child, at p, which now holds w where it held s. */
  lemma DeleteInnerLeftAbove(t: Links, live: set<nat>, sub: seq<set<nat>>, color: seq<Color>, bh: seq<nat>,
                             x: nat, p: nat, s: nat)
    requires FixingDelete(t, live, sub, color, bh, x) && x != t.root && color[x] == Black && LeftSibling(t, x, p, s)
    requires color[s] == Black && color[t.left[s]] == Red && color[t.right[s]] == Black
    ensures RightRotatable(t, s) && p in live
    ensures HeightsAt(RotateRight(t, s), color[t.left[s] := Black][s := Red], bh, p, p, true)
    ensures RedAt(RotateRight(t, s), color[t.left[s] := Black][s := Red], p, x)
  {
    DeleteSettingLeft(t, live, sub, color, bh, x, p, s);
    RotateRightLinks(t, live, sub, s);
    assert HeightsAt(t, color, bh, p, p, true) && HeightsAt(t, color, bh, s, p, true);
    assert t.left[s] != x;
  }

  /** Case 3 of `DeleteFixup`, x a left child, at a node away from the rotation: nothing there changes. */
  lemma DeleteInnerLeftFrame(t: Links, live: set<nat>, sub: seq<set<nat>>, color: seq<Color>, bh: seq<nat>,
                             x: nat, p: nat, s: nat, n: nat)
    requires FixingDelete(t, live, sub, color, bh, x) && x != t.root && color[x] == Black && LeftSibling(t, x, p, s)
    requires color[s] == Black && color[t.left[s]] == Red && color[t.right[s]] == Black
    requires n in live && n != s && n != t.left[s] && n != p
    ensures RightRotatable(t, s)
    ensures HeightsAt(RotateRight(t, s), color[t.left[s] := Black][s := Red], bh, n, p, true)
    ensures RedAt(RotateRight(t, s), color[t.left[s] := Black][s := Red], n, x)
  {
    DeleteSettingLeft(t, live, sub, color, bh, x, p, s);
    RotateRightFrame(t, live, sub, s, n);
    assert HeightsAt(t, color, bh, n, p, true) && RedAt(t, color, n, x);
  }

  /** Case 3 of `DeleteFixup`, x a left child, at every node: the heights and the red rule hold after the rotation. */
  lemma DeleteInnerLeftRules(t: Links, live: set<nat>, sub: seq<set<nat>>, color: seq<Color>, bh: seq<nat>,
                             x: nat, p: nat, s: nat)
    requires FixingDelete(t, live, sub, color, bh, x) && x != t.root && color[x] == Black && LeftSibling(t, x, p, s)
    requires color[s] == Black && color[t.left[s]] == Red && color[t.right[s]] == Black
    ensures RightRotatable(t, s) && Painted(RotateRight(t, s), live, color[t.left[s] := Black][s := Red], bh)
    ensures Heights(RotateRight(t, s), live, color[t.left[s] := Black][s := Red], bh, p, true)
    ensures RedRule(RotateRight(t, s), live, color[t.left[s] := Black][s := Red], x)
  {
    DeleteSettingLeft(t, live, sub, color, bh, x, p, s);
    RotateRightFacts(t, s);
    var r, color' := RotateRight(t, s), color[t.left[s] := Black][s := Red];
    forall n | n in live
      ensures HeightsAt(r, color', bh, n, p, true) && RedAt(r, color', n, x)
    {
      if n == s || n == t.left[s] {
        DeleteInnerLeftAt(t, live, sub, color, bh, x, p, s, n);
      } else if n == p {
        DeleteInnerLeftAbove(t, live, sub, color, bh, x, p, s);
      } else {
        DeleteInnerLeftFrame(t, live, sub, color, bh, x, p, s, n);
      }
    }
    Assemble(r, live, color', bh, p, true, x);
  }

  /**
   * Case 3 of `DeleteFixup` with x a left child: s is black with a red left
   * child w and a black right child; w turns black, s red, and the tree
   * rotates right at s. x keeps its parent and deficit, and its new
   * sibling w is black with a red right child.
   */
  lemma DeleteInnerLeft(t: Links, live: set<nat>, sub: seq<set<nat>>, color: seq<Color>, bh: seq<nat>,
                        x: nat, p: nat, s: nat)
    requires FixingDelete(t, live, sub, color, bh, x) && x != t.root && color[x] == Black && LeftSibling(t, x, p, s)
    requires color[s] == Black && color[t.left[s]] == Red && color[t.right[s]] == Black
    ensures RightRotatable(t, s)
    ensures FixingDelete(RotateRight(t, s), live, RotateRightSub(t, sub, s), color[t.left[s] := Black][s := Red], bh, x)
    ensures LeftSibling(RotateRight(t, s), x, p, t.left[s]) && RotateRight(t, s).root != x
    ensures RotateRight(t, s).right[t.left[s]] == s && RotateRightSub(t, sub, s)[x] == sub[x]
  {
    DeleteSettingLeft(t, live, sub, color, bh, x, p, s);
    RotateRightShaped(t, live, sub, s);
    DeleteInnerLeftRules(t, live, sub, color, bh, x, p, s);
    var r := RotateRight(t, s);
    assert r.left[p] == x && r.parent[x] == p;
    assert x !in sub[s];
  }

  /** Case 4 of `DeleteFixup`, x a left child, at p and s: after recolouring and rotating left at p, heights agree there with no deficit, and the red rule holds. */
  lemma DeleteOuterLeftAt(t: Links, live: set<nat>, sub: seq<set<nat>>, color: seq<Color>, bh: seq<nat>,
                          x: nat, p: nat, s: nat, n: nat)
    requires FixingDelete(t, live, sub, color, bh, x) && x != t.root && color[x] == Black && LeftSibling(t, x, p, s)
    requires color[s] == Black && color[t.right[s]] == Red && (n == p || n == s)
    ensures LeftRotatable(t, p)
    ensures HeightsAt(RotateLeft(t, p), color[s := color[p]][p := Black][t.right[s] := Black], bh[p := bh[s]][s := bh[p]], n, NIL, true)
    ensures RedAt(RotateLeft(t, p), color[s := color[p]][p := Black][t.right[s] := Black], n, NIL)
  {
    DeleteSettingLeft(t, live, sub, color, bh, x, p, s);
    RotateLeftLinks(t, live, sub, p);
    var r := RotateLeft(t, p);
    assert HeightsAt(t, color, bh, s, p, true) && HeightsAt(t, color, bh, p, p, true);
    assert r.left[p] == x && r.right[p] == t.left[s] && r.left[s] == p && r.right[s] == t.right[s];
    assert t.right[s] != NIL && t.right[s] != x && t.left[s] != t.right[s];
  }

  /** Case 4 of `DeleteFixup`, x a left child, at p's parent g, which now holds s, in p's colour and with p's black height, where it held p. */
  lemma DeleteOuterLeftLift(t: Links, color: seq<Color>, bh: seq<nat>, x: nat, p: nat, s: nat, g: nat)
    requires LeftRotatable(t, p) && LeftRotation(t, p, RotateLeft(t, p)) && |color| == |t.left| && |bh| == |t.left|
    requires s == t.right[p] && g == t.parent[p] && g != NIL && g < |t.left| && g != x && p != x && x < |t.left| && color[x] == Black
    requires g != s && g != t.right[s] && t.left[g] != s && t.right[g] != s && t.left[g] != t.right[s] && t.right[g] != t.right[s]
    requires t.right[s] != s && t.right[s] != p && (t.left[g] == p || t.right[g] == p) && t.left[g] != t.right[g]
    requires HeightsAt(t, color, bh, g, p, true) && RedAt(t, color, g, x)
    ensures HeightsAt(RotateLeft(t, p), color[s := color[p]][p := Black][t.right[s] := Black], bh[p := bh[s]][s := bh[p]], g, NIL, true)
    ensures RedAt(RotateLeft(t, p), color[s := color[p]][p := Black][t.right[s] := Black], g, NIL)
  {
    var r := RotateLeft(t, p);
    assert r.left[g] == (if t.left[g] == p then s else t.left[g]);
    assert r.right[g] == (if t.left[g] == p then t.right[g] else s);
  }

  /** Case 4 of `DeleteFixup`, x a left child, at p's parent, which now holds s where it held p. */
  lemma DeleteOuterLeftAbove(t: Links, live: set<nat>, sub: seq<set<nat>>, color: seq<Color>, bh: seq<nat>,
                             x: nat, p: nat, s: nat)
    requires FixingDelete(t, live, sub, color, bh, x) && x != t.root && color[x] == Black && LeftSibling(t, x, p, s)
    requires color[s] == Black && color[t.right[s]] == Red && t.parent[p] != NIL
    ensures LeftRotatable(t, p) && t.parent[p] in live
    ensures HeightsAt(RotateLeft(t, p), color[s := color[p]][p := Black][t.right[s] := Black], bh[p := bh[s]][s := bh[p]], t.parent[p], NIL, true)
    ensures RedAt(RotateLeft(t, p), color[s := color[p]][p := Black][t.right[s] := Black], t.parent[p], NIL)
  {
    DeleteSettingLeft(t, live, sub, color, bh, x, p, s);
    RotateLeftLinks(t, live, sub, p);
    var g := t.parent[p];
    assert HeightsAt(t, color, bh, g, p, true) && RedAt(t, color, g, x);
    assert t.left[g] != s && t.right[g] != s && t.left[g] != t.right[s] && t.right[g] != t.right[s];
    DeleteOuterLeftLift(t, color, bh, x, p, s, g);
  }

  /** Case 4 of `DeleteFixup`, x a left child, at a node away from the rotation: nothing there changes but the colour of s's right child. */
  lemma DeleteOuterLeftFrame(t: Links, live: set<nat>, sub: seq<set<nat>>, color: seq<Color>, bh: seq<nat>,
                             x: nat, p: nat, s: nat, n: nat)
    requires FixingDelete(t, live, sub, color, bh, x) && x != t.root && color[x] == Black && LeftSibling(t, x, p, s)
    requires color[s] == Black && color[t.right[s]] == Red
    requires n in live && n != p && n != s && n != t.parent[p]
    ensures LeftRotatable(t, p)
    ensures HeightsAt(RotateLeft(t, p), color[s := color[p]][p := Black][t.right[s] := Black], bh[p := bh[s]][s := bh[p]], n, NIL, true)
    ensures RedAt(RotateLeft(t, p), color[s := color[p]][p := Black][t.right[s] := Black], n, NIL)
  {
    DeleteSettingLeft(t, live, sub, color, bh, x, p, s);
    RotateLeftFrame(t, live, sub, p, n);
    assert HeightsAt(t, color, bh, n, p, true) && RedAt(t, color, n, x);
    var sr := t.right[s];
    assert sr != NIL && t.parent[sr] == s;
    assert t.left[n] != sr && t.right[n] != sr;
  }

  /**
   * Case 4 of `DeleteFixup` with x a left child: s is black with a red
   * right child; s takes p's colour, p and s's right child turn black, and
   * the tree rotates left at p. The extra black is absorbed: black heights
   * agree everywhere, and x becomes the root, which ends the loop.
   */
  lemma DeleteOuterLeft(t: Links, live: set<nat>, sub: seq<set<nat>>, color: seq<Color>, bh: seq<nat>,
                        x: nat, p: nat, s: nat)
    requires FixingDelete(t, live, sub, color, bh, x) && x != t.root && color[x] == Black && LeftSibling(t, x, p, s)
    requires color[s] == Black && color[t.right[s]] == Red
    ensures LeftRotatable(t, p)
    ensures FixingDelete(RotateLeft(t, p), live, RotateLeftSub(t, sub, p), color[s := color[p]][p := Black][t.right[s] := Black],
                         bh[p := bh[s]][s := bh[p]], RotateLeft(t, p).root)
    ensures live - RotateLeftSub(t, sub, p)[RotateLeft(t, p).root] < live - sub[x]
  {
    DeleteSettingLeft(t, live, sub, color, bh, x, p, s);
    RotateLeftShaped(t, live, sub, p);
    var r, color', bh' := RotateLeft(t, p), color[s := color[p]][p := Black][t.right[s] := Black], bh[p := bh[s]][s := bh[p]];
    var dLeft := r.root == r.left[r.parent[r.root]];
    forall n | n in live
      ensures HeightsAt(r, color', bh', n, NIL, dLeft) && RedAt(r, color', n, r.root)
    {
      if n == p || n == s {
        DeleteOuterLeftAt(t, live, sub, color, bh, x, p, s, n);
      } else if n == t.parent[p] {
        DeleteOuterLeftAbove(t, live, sub, color, bh, x, p, s);
      } else {
        DeleteOuterLeftFrame(t, live, sub, color, bh, x, p, s, n);
      }
      assert HeightsAt(r, color', bh', n, NIL, true) && RedAt(r, color', n, NIL);
    }
    Assemble(r, live, color', bh', NIL, dLeft, r.root);
    assert p in live - sub[x];
  }
  // The mirror cases, with x a right child.

  /** Case 1 of `DeleteFixup`, x a right child, at p and s: after recolouring and rotating right at p, heights and the red rule hold there. */
  lemma DeleteRedSiblingRightAt(t: Links, live: set<nat>, sub: seq<set<nat>>, color: seq<Color>, bh: seq<nat>,
                               x: nat, p: nat, s: nat, n: nat)
    requires FixingDelete(t, live, sub, color, bh, x) && x != t.root && color[x] == Black && RightSibling(t, x, p, s)
    requires color[s] == Red && (n == p || n == s)
    ensures RightRotatable(t, p)
    ensures HeightsAt(RotateRight(t, p), color[s := Black][p := Red], bh, n, p, false)
    ensures RedAt(RotateRight(t, p), color[s := Black][p := Red], n, x)
  {
    DeleteSettingRight(t, live, sub, color, bh, x, p, s);
    RotateRightLinks(t, live, sub, p);
    var r := RotateRight(t, p);
    assert HeightsAt(t, color, bh, s, p, false) && HeightsAt(t, color, bh, p, p, false);
    assert r.right[p] == x && r.left[p] == t.right[s] && r.right[s] == p && r.left[s] == t.left[s];
  }

  /** Case 1 of `DeleteFixup`, x a right child, at p's parent, which now holds s where it held p. */
  lemma DeleteRedSiblingRightAbove(t: Links, live: set<nat>, sub: seq<set<nat>>, color: seq<Color>, bh: seq<nat>,
                                  x: nat, p: nat, s: nat)
    requires FixingDelete(t, live, sub, color, bh, x) && x != t.root && color[x] == Black && RightSibling(t, x, p, s)
    requires color[s] == Red && t.parent[p] != NIL
    ensures RightRotatable(t, p) && t.parent[p] in live
    ensures HeightsAt(RotateRight(t, p), color[s := Black][p := Red], bh, t.parent[p], p, false)
    ensures RedAt(RotateRight(t, p), color[s := Black][p := Red], t.parent[p], x)
  {
    DeleteSettingRight(t, live, sub, color, bh, x, p, s);
    RotateRightLinks(t, live, sub, p);
    var g := t.parent[p];
    assert HeightsAt(t, color, bh, g, p, false) && RedAt(t, color, g, x);
    assert HeightsAt(t, color, bh, p, p, false);
    assert g != x;
  }

  /** Case 1 of `DeleteFixup`, x a right child, at a node away from the rotation: nothing there changes. */
  lemma DeleteRedSiblingRightFrame(t: Links, live: set<nat>, sub: seq<set<nat>>, color: seq<Color>, bh: seq<nat>,
                                  x: nat, p: nat, s: nat, n: nat)
    requires FixingDelete(t, live, sub, color, bh, x) && x != t.root && color[x] == Black && RightSibling(t, x, p, s)
    requires color[s] == Red && n in live && n != p && n != s && n != t.parent[p]
    ensures RightRotatable(t, p)
    ensures HeightsAt(RotateRight(t, p), color[s := Black][p := Red], bh, n, p, false)
    ensures RedAt(RotateRight(t, p), color[s := Black][p := Red], n, x)
  {
    DeleteSettingRight(t, live, sub, color, bh, x, p, s);
    RotateRightFrame(t, live, sub, p, n);
    assert HeightsAt(t, color, bh, n, p, false) && RedAt(t, color, n, x);
  }

  /** Case 1 of `DeleteFixup`, x a right child, at every node: the heights and the red rule hold after the rotation. */
  lemma DeleteRedSiblingRightRules(t: Links, live: set<nat>, sub: seq<set<nat>>, color: seq<Color>, bh: seq<nat>,
                                  x: nat, p: nat, s: nat)
    requires FixingDelete(t, live, sub, color, bh, x) && x != t.root && color[x] == Black && RightSibling(t, x, p, s)
    requires color[s] == Red
    ensures RightRotatable(t, p) && Painted(RotateRight(t, p), live, color[s := Black][p := Red], bh)
    ensures Heights(RotateRight(t, p), live, color[s := Black][p := Red], bh, p, false)
    ensures RedRule(RotateRight(t, p), live, color[s := Black][p := Red], x)
  {
    DeleteSettingRight(t, live, sub, color, bh, x, p, s);
    RotateRightFacts(t, p);
    var r, color' := RotateRight(t, p), color[s := Black][p := Red];
    forall n | n in live
      ensures HeightsAt(r, color', bh, n, p, false) && RedAt(r, color', n, x)
    {
      if n == p || n == s {
        DeleteRedSiblingRightAt(t, live, sub, color, bh, x, p, s, n);
      } else if n == t.parent[p] {
        DeleteRedSiblingRightAbove(t, live, sub, color, bh, x, p, s);
      } else {
        DeleteRedSiblingRightFrame(t, live, sub, color, bh, x, p, s, n);
      }
    }
    Assemble(r, live, color', bh, p, false, x);
  }

  /**
   * Case 1 of `DeleteFixup` with x a right child: the red sibling s turns
   * black, p red, and the tree rotates right at p; x keeps its parent and
   * its deficit, and its new sibling is black.
   */
  lemma DeleteRedSiblingRight(t: Links, live: set<nat>, sub: seq<set<nat>>, color: seq<Color>, bh: seq<nat>,
                             x: nat, p: nat, s: nat)
    requires FixingDelete(t, live, sub, color, bh, x) && x != t.root && color[x] == Black && RightSibling(t, x, p, s)
    requires color[s] == Red
    ensures RightRotatable(t, p)
    ensures FixingDelete(RotateRight(t, p), live, RotateRightSub(t, sub, p), color[s := Black][p := Red], bh, x)
    ensures RightSibling(RotateRight(t, p), x, p, t.right[s]) && RotateRight(t, p).root != x
    ensures color[s := Black][p := Red][t.right[s]] == Black && RotateRightSub(t, sub, p)[x] == sub[x]
  {
    DeleteSettingRight(t, live, sub, color, bh, x, p, s);
    RotateRightShaped(t, live, sub, p);
    DeleteRedSiblingRightRules(t, live, sub, color, bh, x, p, s);
    var r := RotateRight(t, p);
    assert r.right[p] == x && r.parent[x] == p;
    assert t.right[p] != t.right[s];
  }

  /** Case 2 of `DeleteFixup`, x a right child, at one node n: with s red and p one black lower, the deficit moves to p's parent. */
  lemma DeleteRecolorRightAt(t: Links, live: set<nat>, sub: seq<set<nat>>, color: seq<Color>, bh: seq<nat>,
                            x: nat, p: nat, s: nat, n: nat)
    requires FixingDelete(t, live, sub, color, bh, x) && x != t.root && color[x] == Black && RightSibling(t, x, p, s)
    requires color[s] == Black && color[t.right[s]] == Black && color[t.left[s]] == Black && n in live
    ensures HeightsAt(t, color[s := Red], bh[p := bh[s]], n, if p == t.root then NIL else t.parent[p], p == t.left[t.parent[p]])
    ensures RedAt(t, color[s := Red], n, p)
  {
    DeleteSettingRight(t, live, sub, color, bh, x, p, s);
    assert HeightsAt(t, color, bh, n, p, false) && RedAt(t, color, n, x);
    if n == p {
    } else if n == s {
    } else {
      assert t.right[n] != s && t.left[n] != s;
      if t.right[n] == p || t.left[n] == p {
        assert p != t.root && n == t.parent[p];
      }
    }
  }

  /**
   * Case 2 of `DeleteFixup` with x a right child: s and both its children
   * are black, so s turns red, which takes one black off p's subtree; p
   * becomes x, with the deficit now at its own parent.
   */
  lemma DeleteRecolorRight(t: Links, live: set<nat>, sub: seq<set<nat>>, color: seq<Color>, bh: seq<nat>,
                          x: nat, p: nat, s: nat)
    requires FixingDelete(t, live, sub, color, bh, x) && x != t.root && color[x] == Black && RightSibling(t, x, p, s)
    requires color[s] == Black && color[t.right[s]] == Black && color[t.left[s]] == Black
    ensures FixingDelete(t, live, sub, color[s := Red], bh[p := bh[s]], p)
    ensures live - sub[p] < live - sub[x]
  {
    DeleteSettingRight(t, live, sub, color, bh, x, p, s);
    var color', bh' := color[s := Red], bh[p := bh[s]];
    var d := if p == t.root then NIL else t.parent[p];
    forall n | n in live
      ensures HeightsAt(t, color', bh', n, d, p == t.left[t.parent[p]]) && RedAt(t, color', n, p)
    {
      DeleteRecolorRightAt(t, live, sub, color, bh, x, p, s, n);
    }
    Assemble(t, live, color', bh', d, p == t.left[t.parent[p]], p);
    assert s != t.root;
  }

  /** Case 3 of `DeleteFixup`, x a right child, at s and its red right child w: after recolouring and rotating left at s, heights and the red rule hold there. */
  lemma DeleteInnerRightAt(t: Links, live: set<nat>, sub: seq<set<nat>>, color: seq<Color>, bh: seq<nat>,
                          x: nat, p: nat, s: nat, n: nat)
    requires FixingDelete(t, live, sub, color, bh, x) && x != t.root && color[x] == Black && RightSibling(t, x, p, s)
    requires color[s] == Black && color[t.right[s]] == Red && color[t.left[s]] == Black && (n == s || n == t.right[s])
    ensures LeftRotatable(t, s)
    ensures HeightsAt(RotateLeft(t, s), color[t.right[s] := Black][s := Red], bh, n, p, false)
    ensures RedAt(RotateLeft(t, s), color[t.right[s] := Black][s := Red], n, x)
  {
    DeleteSettingRight(t, live, sub, color, bh, x, p, s);
    RotateLeftLinks(t, live, sub, s);
    var w, r := t.right[s], RotateLeft(t, s);
    assert HeightsAt(t, color, bh, s, p, false) && HeightsAt(t, color, bh, w, p, false);
    assert RedAt(t, color, w, x);
    assert r.right[w] == t.right[w] && r.left[w] == s && r.right[s] == t.left[w] && r.left[s] == t.left[s];
  }

  /** Case 3 of `DeleteFixup`, x a right child, at p, which now holds w where it held s. */
  lemma DeleteInnerRightAbove(t: Links, live: set<nat>, sub: seq<set<nat>>, color: seq<Color>, bh: seq<nat>,
                             x: nat, p: nat, s: nat)
    requires FixingDelete(t, live, sub, color, bh, x) && x != t.root && color[x] == Black && RightSibling(t, x, p, s)
    requires color[s] == Black && color[t.right[s]] == Red && color[t.left[s]] == Black
    ensures LeftRotatable(t, s) && p in live
    ensures HeightsAt(RotateLeft(t, s), color[t.right[s] := Black][s := Red], bh, p, p, false)
    ensures RedAt(RotateLeft(t, s), color[t.right[s] := Black][s := Red], p, x)
  {
    DeleteSettingRight(t, live, sub, color, bh, x, p, s);
    RotateLeftLinks(t, live, sub, s);
    assert HeightsAt(t, color, bh, p, p, false) && HeightsAt(t, color, bh, s, p, false);
    assert t.right[s] != x;
  }

  /** Case 3 of `DeleteFixup`, x a right child, at a node away from the rotation: nothing there changes. */
  lemma DeleteInnerRightFrame(t: Links, live: set<nat>, sub: seq<set<nat>>, color: seq<Color>, bh: seq<nat>,
                             x: nat, p: nat, s: nat, n: nat)
    requires FixingDelete(t, live, sub, color, bh, x) && x != t.root && color[x] == Black && RightSibling(t, x, p, s)
    requires color[s] == Black && color[t.right[s]] == Red && color[t.left[s]] == Black
    requires n in live && n != s && n != t.right[s] && n != p
    ensures LeftRotatable(t, s)
    ensures HeightsAt(RotateLeft(t, s), color[t.right[s] := Black][s := Red], bh, n, p, false)
    ensures RedAt(RotateLeft(t, s), color[t.right[s] := Black][s := Red], n, x)
  {
    DeleteSettingRight(t, live, sub, color, bh, x, p, s);
    RotateLeftFrame(t, live, sub, s, n);
    assert HeightsAt(t, color, bh, n, p, false) && RedAt(t, color, n, x);
  }

  /** Case 3 of `DeleteFixup`, x a right child, at every node: the heights and the red rule hold after the rotation. */
  lemma DeleteInnerRightRules(t: Links, live: set<nat>, sub: seq<set<nat>>, color: seq<Color>, bh: seq<nat>,
                             x: nat, p: nat, s: nat)
    requires FixingDelete(t, live, sub, color, bh, x) && x != t.root && color[x] == Black && RightSibling(t, x, p, s)
    requires color[s] == Black && color[t.right[s]] == Red && color[t.left[s]] == Black
    ensures LeftRotatable(t, s) && Painted(RotateLeft(t, s), live, color[t.right[s] := Black][s := Red], bh)
    ensures Heights(RotateLeft(t, s), live, color[t.right[s] := Black][s := Red], bh, p, false)
    ensures RedRule(RotateLeft(t, s), live, color[t.right[s] := Black][s := Red], x)
  {
    DeleteSettingRight(t, live, sub, color, bh, x, p, s);
    RotateLeftFacts(t, s);
    var r, color' := RotateLeft(t, s), color[t.right[s] := Black][s := Red];
    forall n | n in live
      ensures HeightsAt(r, color', bh, n, p, false) && RedAt(r, color', n, x)
    {
      if n == s || n == t.right[s] {
        DeleteInnerRightAt(t, live, sub, color, bh, x, p, s, n);
      } else if n == p {
        DeleteInnerRightAbove(t, live, sub, color, bh, x, p, s);
      } else {
        DeleteInnerRightFrame(t, live, sub, color, bh, x, p, s, n);
      }
    }
    Assemble(r, live, color', bh, p, false, x);
  }

  /**
   * Case 3 of `DeleteFixup` with x a right child: s is black with a red right
   * child w and a black left child; w turns black, s red, and the tree
   * rotates left at s. x keeps its parent and deficit, and its new
   * sibling w is black with a red left child.
   */
  lemma DeleteInnerRight(t: Links, live: set<nat>, sub: seq<set<nat>>, color: seq<Color>, bh: seq<nat>,
                        x: nat, p: nat, s: nat)
    requires FixingDelete(t, live, sub, color, bh, x) && x != t.root && color[x] == Black && RightSibling(t, x, p, s)
    requires color[s] == Black && color[t.right[s]] == Red && color[t.left[s]] == Black
    ensures LeftRotatable(t, s)
    ensures FixingDelete(RotateLeft(t, s), live, RotateLeftSub(t, sub, s), color[t.right[s] := Black][s := Red], bh, x)
    ensures RightSibling(RotateLeft(t, s), x, p, t.right[s]) && RotateLeft(t, s).root != x
    ensures RotateLeft(t, s).left[t.right[s]] == s && RotateLeftSub(t, sub, s)[x] == sub[x]
  {
    DeleteSettingRight(t, live, sub, color, bh, x, p, s);
    RotateLeftShaped(t, live, sub, s);
    DeleteInnerRightRules(t, live, sub, color, bh, x, p, s);
    var r := RotateLeft(t, s);
    assert r.right[p] == x && r.parent[x] == p;
    assert x !in sub[s];
  }

  /** Case 4 of `DeleteFixup`, x a right child, at p and s: after recolouring and rotating right at p, heights agree there with no deficit, and the red rule holds. */
  lemma DeleteOuterRightAt(t: Links, live: set<nat>, sub: seq<set<nat>>, color: seq<Color>, bh: seq<nat>,
                          x: nat, p: nat, s: nat, n: nat)
    requires FixingDelete(t, live, sub, color, bh, x) && x != t.root && color[x] == Black && RightSibling(t, x, p, s)
    requires color[s] == Black && color[t.left[s]] == Red && (n == p || n == s)
    ensures RightRotatable(t, p)
    ensures HeightsAt(RotateRight(t, p), color[s := color[p]][p := Black][t.left[s] := Black], bh[p := bh[s]][s := bh[p]], n, NIL, false)
    ensures RedAt(RotateRight(t, p), color[s := color[p]][p := Black][t.left[s] := Black], n, NIL)
  {
    DeleteSettingRight(t, live, sub, color, bh, x, p, s);
    RotateRightLinks(t, live, sub, p);
    var r := RotateRight(t, p);
    assert HeightsAt(t, color, bh, s, p, false) && HeightsAt(t, color, bh, p, p, false);
    assert r.right[p] == x && r.left[p] == t.right[s] && r.right[s] == p && r.left[s] == t.left[s];
    assert t.left[s] != NIL && t.left[s] != x && t.right[s] != t.left[s];
  }

  /** Case 4 of `DeleteFixup`, x a right child, at p's parent g, which now holds s, in p's colour and with p's black height, where it held p. */
  lemma DeleteOuterRightLift(t: Links, color: seq<Color>, bh: seq<nat>, x: nat, p: nat, s: nat, g: nat)
    requires RightRotatable(t, p) && RightRotation(t, p, RotateRight(t, p)) && |color| == |t.right| && |bh| == |t.right|
    requires s == t.left[p] && g == t.parent[p] && g != NIL && g < |t.right| && g != x && p != x && x < |t.right| && color[x] == Black
    requires g != s && g != t.left[s] && t.right[g] != s && t.left[g] != s && t.right[g] != t.left[s] && t.left[g] != t.left[s]
    requires t.left[s] != s && t.left[s] != p && (t.right[g] == p || t.left[g] == p) && t.right[g] != t.left[g]
    requires HeightsAt(t, color, bh, g, p, false) && RedAt(t, color, g, x)
    ensures HeightsAt(RotateRight(t, p), color[s := color[p]][p := Black][t.left[s] := Black], bh[p := bh[s]][s := bh[p]], g, NIL, false)
    ensures RedAt(RotateRight(t, p), color[s := color[p]][p := Black][t.left[s] := Black], g, NIL)
  {
    var r := RotateRight(t, p);
    assert r.right[g] == (if t.right[g] == p then s else t.right[g]);
    assert r.left[g] == (if t.right[g] == p then t.left[g] else s);
  }

  /** Case 4 of `DeleteFixup`, x a right child, at p's parent, which now holds s where it held p. */
  lemma DeleteOuterRightAbove(t: Links, live: set<nat>, sub: seq<set<nat>>, color: seq<Color>, bh: seq<nat>,
                             x: nat, p: nat, s: nat)
    requires FixingDelete(t, live, sub, color, bh, x) && x != t.root && color[x] == Black && RightSibling(t, x, p, s)
    requires color[s] == Black && color[t.left[s]] == Red && t.parent[p] != NIL
    ensures RightRotatable(t, p) && t.parent[p] in live
    ensures HeightsAt(RotateRight(t, p), color[s := color[p]][p := Black][t.left[s] := Black], bh[p := bh[s]][s := bh[p]], t.parent[p], NIL, false)
    ensures RedAt(RotateRight(t, p), color[s := color[p]][p := Black][t.left[s] := Black], t.parent[p], NIL)
  {
    DeleteSettingRight(t, live, sub, color, bh, x, p, s);
    RotateRightLinks(t, live, sub, p);
    var g := t.parent[p];
    assert HeightsAt(t, color, bh, g, p, false) && RedAt(t, color, g, x);
    assert t.right[g] != s && t.left[g] != s && t.right[g] != t.left[s] && t.left[g] != t.left[s];
    DeleteOuterRightLift(t, color, bh, x, p, s, g);
  }

  /** Case 4 of `DeleteFixup`, x a right child, at a node away from the rotation: nothing there changes but the colour of s's left child. */
  lemma DeleteOuterRightFrame(t: Links, live: set<nat>, sub: seq<set<nat>>, color: seq<Color>, bh: seq<nat>,
                             x: nat, p: nat, s: nat, n: nat)
    requires FixingDelete(t, live, sub, color, bh, x) && x != t.root && color[x] == Black && RightSibling(t, x, p, s)
    requires color[s] == Black && color[t.left[s]] == Red
    requires n in live && n != p && n != s && n != t.parent[p]
    ensures RightRotatable(t, p)
    ensures HeightsAt(RotateRight(t, p), color[s := color[p]][p := Black][t.left[s] := Black], bh[p := bh[s]][s := bh[p]], n, NIL, false)
    ensures RedAt(RotateRight(t, p), color[s := color[p]][p := Black][t.left[s] := Black], n, NIL)
  {
    DeleteSettingRight(t, live, sub, color, bh, x, p, s);
    RotateRightFrame(t, live, sub, p, n);
    assert HeightsAt(t, color, bh, n, p, false) && RedAt(t, color, n, x);
    var sr := t.left[s];
    assert sr != NIL && t.parent[sr] == s;
    assert t.right[n] != sr && t.left[n] != sr;
  }

  /**
   * Case 4 of `DeleteFixup` with x a right child: s is black with a red
   * left child; s takes p's colour, p and s's left child turn black, and
   * the tree rotates right at p. The extra black is absorbed: black heights
   * agree everywhere, and x becomes the root, which ends the loop.
   */
  lemma DeleteOuterRight(t: Links, live: set<nat>, sub: seq<set<nat>>, color: seq<Color>, bh: seq<nat>,
                        x: nat, p: nat, s: nat)
    requires FixingDelete(t, live, sub, color, bh, x) && x != t.root && color[x] == Black && RightSibling(t, x, p, s)
    requires color[s] == Black && color[t.left[s]] == Red
    ensures RightRotatable(t, p)
    ensures FixingDelete(RotateRight(t, p), live, RotateRightSub(t, sub, p), color[s := color[p]][p := Black][t.left[s] := Black],
                         bh[p := bh[s]][s := bh[p]], RotateRight(t, p).root)
    ensures live - RotateRightSub(t, sub, p)[RotateRight(t, p).root] < live - sub[x]
  {
    DeleteSettingRight(t, live, sub, color, bh, x, p, s);
    RotateRightShaped(t, live, sub, p);
    var r, color', bh' := RotateRight(t, p), color[s := color[p]][p := Black][t.left[s] := Black], bh[p := bh[s]][s := bh[p]];
    var dRight := r.root == r.left[r.parent[r.root]];
    forall n | n in live
      ensures HeightsAt(r, color', bh', n, NIL, dRight) && RedAt(r, color', n, r.root)
    {
      if n == p || n == s {
        DeleteOuterRightAt(t, live, sub, color, bh, x, p, s, n);
      } else if n == t.parent[p] {
        DeleteOuterRightAbove(t, live, sub, color, bh, x, p, s);
      } else {
        DeleteOuterRightFrame(t, live, sub, color, bh, x, p, s, n);
      }
      assert HeightsAt(r, color', bh', n, NIL, false) && RedAt(r, color', n, NIL);
    }
    Assemble(r, live, color', bh', NIL, dRight, r.root);
    assert p in live - sub[x];
  }

  /**
   * When `DeleteFixup`'s loop ends (x is red, or the root), painting x
   * black gives back the black that x's side was short, and leaves a
   * red-black search tree.
   */
  lemma DeleteFinish(t: Links, live: set<nat>, sub: seq<set<nat>>, key: seq<int>, color: seq<Color>, bh: seq<nat>, x: nat)
    requires DeleteState(t, live, sub, key, color, bh, x) && (x == t.root || color[x] == Red)
    ensures RedBlack(t, live, sub, key, color[x := Black], bh)
  {
    var color' := color[x := Black];
    var d := if x == t.root then NIL else t.parent[x];
    forall n | n in live
      ensures HeightsAt(t, color', bh, n, NIL, true) && RedAt(t, color', n, NIL)
    {
      assert HeightsAt(t, color, bh, n, d, x == t.left[t.parent[x]]) && RedAt(t, color, n, x);
      if x == t.root {
        assert t.left[n] != t.root && t.right[n] != t.root;
      } else if n == d {
        assert NestedAt(t, sub, n);
      }
    }
    Assemble(t, live, color', bh, NIL, true, NIL);
  }

  /** Case 1 of `DeleteFixup`, x a left child, with the key order: see `DeleteRedSiblingLeft`. */
  lemma DeleteRedSiblingLeftStep(t: Links, live: set<nat>, sub: seq<set<nat>>, key: seq<int>, color: seq<Color>, bh: seq<nat>,
                                 x: nat, p: nat, s: nat)
    requires DeleteState(t, live, sub, key, color, bh, x) && x != t.root && color[x] == Black && LeftSibling(t, x, p, s)
    requires color[s] == Red
    ensures LeftRotatable(t, p)
    ensures DeleteState(RotateLeft(t, p), live, RotateLeftSub(t, sub, p), key, color[s := Black][p := Red], bh, x)
    ensures LeftSibling(RotateLeft(t, p), x, p, t.left[s]) && RotateLeft(t, p).root != x
    ensures color[s := Black][p := Red][t.left[s]] == Black && RotateLeftSub(t, sub, p)[x] == sub[x]
  {
    DeleteRedSiblingLeft(t, live, sub, color, bh, x, p, s);
    RotateLeftOrdered(t, live, sub, key, p);
  }

  /** Case 2 of `DeleteFixup`, x a left child, with the key order: see `DeleteRecolorLeft`. */
  lemma DeleteRecolorLeftStep(t: Links, live: set<nat>, sub: seq<set<nat>>, key: seq<int>, color: seq<Color>, bh: seq<nat>,
                              x: nat, p: nat, s: nat)
    requires DeleteState(t, live, sub, key, color, bh, x) && x != t.root && color[x] == Black && LeftSibling(t, x, p, s)
    requires color[s] == Black && color[t.left[s]] == Black && color[t.right[s]] == Black
    ensures DeleteState(t, live, sub, key, color[s := Red], bh[p := bh[s]], p)
    ensures live - sub[p] < live - sub[x]
  {
    DeleteRecolorLeft(t, live, sub, color, bh, x, p, s);
  }

  /** Case 3 of `DeleteFixup`, x a left child, with the key order: see `DeleteInnerLeft`. */
  lemma DeleteInnerLeftStep(t: Links, live: set<nat>, sub: seq<set<nat>>, key: seq<int>, color: seq<Color>, bh: seq<nat>,
                            x: nat, p: nat, s: nat)
    requires DeleteState(t, live, sub, key, color, bh, x) && x != t.root && color[x] == Black && LeftSibling(t, x, p, s)
    requires color[s] == Black && color[t.left[s]] == Red && color[t.right[s]] == Black
    ensures RightRotatable(t, s)
    ensures DeleteState(RotateRight(t, s), live, RotateRightSub(t, sub, s), key, color[t.left[s] := Black][s := Red], bh, x)
    ensures LeftSibling(RotateRight(t, s), x, p, t.left[s]) && RotateRight(t, s).root != x
    ensures color[t.left[s] := Black][s := Red][t.left[s]] == Black
    ensures color[t.left[s] := Black][s := Red][RotateRight(t, s).right[t.left[s]]] == Red
    ensures RotateRightSub(t, sub, s)[x] == sub[x]
  {
    DeleteInnerLeft(t, live, sub, color, bh, x, p, s);
    RotateRightOrdered(t, live, sub, key, s);
  }

  /** Case 4 of `DeleteFixup`, x a left child, with the key order: see `DeleteOuterLeft`. */
  lemma DeleteOuterLeftStep(t: Links, live: set<nat>, sub: seq<set<nat>>, key: seq<int>, color: seq<Color>, bh: seq<nat>,
                            x: nat, p: nat, s: nat)
    requires DeleteState(t, live, sub, key, color, bh, x) && x != t.root && color[x] == Black && LeftSibling(t, x, p, s)
    requires color[s] == Black && color[t.right[s]] == Red
    ensures LeftRotatable(t, p)
    ensures DeleteState(RotateLeft(t, p), live, RotateLeftSub(t, sub, p), key, color[s := color[p]][p := Black][t.right[s] := Black],
                        bh[p := bh[s]][s := bh[p]], RotateLeft(t, p).root)
    ensures live - RotateLeftSub(t, sub, p)[RotateLeft(t, p).root] < live - sub[x]
  {
    DeleteOuterLeft(t, live, sub, color, bh, x, p, s);
    RotateLeftOrdered(t, live, sub, key, p);
  }

  /** Case 1 of `DeleteFixup`, x a right child, with the key order: see `DeleteRedSiblingRight`. */
  lemma DeleteRedSiblingRightStep(t: Links, live: set<nat>, sub: seq<set<nat>>, key: seq<int>, color: seq<Color>, bh: seq<nat>,
                                 x: nat, p: nat, s: nat)
    requires DeleteState(t, live, sub, key, color, bh, x) && x != t.root && color[x] == Black && RightSibling(t, x, p, s)
    requires color[s] == Red
    ensures RightRotatable(t, p)
    ensures DeleteState(RotateRight(t, p), live, RotateRightSub(t, sub, p), key, color[s := Black][p := Red], bh, x)
    ensures RightSibling(RotateRight(t, p), x, p, t.right[s]) && RotateRight(t, p).root != x
    ensures color[s := Black][p := Red][t.right[s]] == Black && RotateRightSub(t, sub, p)[x] == sub[x]
  {
    DeleteRedSiblingRight(t, live, sub, color, bh, x, p, s);
    RotateRightOrdered(t, live, sub, key, p);
  }

  /** Case 2 of `DeleteFixup`, x a right child, with the key order: see `DeleteRecolorRight`. */
  lemma DeleteRecolorRightStep(t: Links, live: set<nat>, sub: seq<set<nat>>, key: seq<int>, color: seq<Color>, bh: seq<nat>,
                              x: nat, p: nat, s: nat)
    requires DeleteState(t, live, sub, key, color, bh, x) && x != t.root && color[x] == Black && RightSibling(t, x, p, s)
    requires color[s] == Black && color[t.right[s]] == Black && color[t.left[s]] == Black
    ensures DeleteState(t, live, sub, key, color[s := Red], bh[p := bh[s]], p)
    ensures live - sub[p] < live - sub[x]
  {
    DeleteRecolorRight(t, live, sub, color, bh, x, p, s);
  }

  /** Case 3 of `DeleteFixup`, x a right child, with the key order: see `DeleteInnerRight`. */
  lemma DeleteInnerRightStep(t: Links, live: set<nat>, sub: seq<set<nat>>, key: seq<int>, color: seq<Color>, bh: seq<nat>,
                            x: nat, p: nat, s: nat)
    requires DeleteState(t, live, sub, key, color, bh, x) && x != t.root && color[x] == Black && RightSibling(t, x, p, s)
    requires color[s] == Black && color[t.right[s]] == Red && color[t.left[s]] == Black
    ensures LeftRotatable(t, s)
    ensures DeleteState(RotateLeft(t, s), live, RotateLeftSub(t, sub, s), key, color[t.right[s] := Black][s := Red], bh, x)
    ensures RightSibling(RotateLeft(t, s), x, p, t.right[s]) && RotateLeft(t, s).root != x
    ensures color[t.right[s] := Black][s := Red][t.right[s]] == Black
    ensures color[t.right[s] := Black][s := Red][RotateLeft(t, s).left[t.right[s]]] == Red
    ensures RotateLeftSub(t, sub, s)[x] == sub[x]
  {
    DeleteInnerRight(t, live, sub, color, bh, x, p, s);
    RotateLeftOrdered(t, live, sub, key, s);
  }

  /** Case 4 of `DeleteFixup`, x a right child, with the key order: see `DeleteOuterRight`. */
  lemma DeleteOuterRightStep(t: Links, live: set<nat>, sub: seq<set<nat>>, key: seq<int>, color: seq<Color>, bh: seq<nat>,
                            x: nat, p: nat, s: nat)
    requires DeleteState(t, live, sub, key, color, bh, x) && x != t.root && color[x] == Black && RightSibling(t, x, p, s)
    requires color[s] == Black && color[t.left[s]] == Red
    ensures RightRotatable(t, p)
    ensures DeleteState(RotateRight(t, p), live, RotateRightSub(t, sub, p), key, color[s := color[p]][p := Black][t.left[s] := Black],
                        bh[p := bh[s]][s := bh[p]], RotateRight(t, p).root)
    ensures live - RotateRightSub(t, sub, p)[RotateRight(t, p).root] < live - sub[x]
  {
    DeleteOuterRight(t, live, sub, color, bh, x, p, s);
    RotateRightOrdered(t, live, sub, key, p);
  }
}
