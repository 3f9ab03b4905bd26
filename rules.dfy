/**
 * The red-black rules over the node arena, stated node by node.
 *
 * `bh[n]` is the number of black nodes on every path from n down to (and
 * including) the sentinel, not counting n itself; the sentinel's is 0. The
 * rebalancing loops keep these rules with one exemption each: a red-red edge
 * touching the node they are working on, and (while deleting) one missing
 * black on one side of one node.
 */
module RedBlackRules {
  import opened Arena

  /** The arrays of colours and black heights cover the arena, and the sentinel is black with height 0. */
  ghost predicate Painted(t: Links, live: set<nat>, color: seq<Color>, bh: seq<nat>)
  {
    && Closed(t) && |color| == |t.left| && |bh| == |t.left|
    && (forall n {:trigger n in live} :: n in live ==> n < |t.left|)
    && color[NIL] == Black && bh[NIL] == 0
  }

  /**
   * At node n, each side's black height is n's, except that the side of
   * node d named by dLeft is one black short.
   */
  ghost predicate HeightsAt(t: Links, color: seq<Color>, bh: seq<nat>, n: nat, d: nat, dLeft: bool)
    requires Closed(t) && |color| == |t.left| && |bh| == |t.left| && n < |t.left|
  {
    && bh[n] == bh[t.left[n]] + Weight(color[t.left[n]]) + (if n == d && dLeft then 1 else 0)
    && bh[n] == bh[t.right[n]] + Weight(color[t.right[n]]) + (if n == d && !dLeft then 1 else 0)
  }

  /** Every path from a live node down to the sentinel crosses the same number of black nodes, except below d's short side. */
  ghost predicate Heights(t: Links, live: set<nat>, color: seq<Color>, bh: seq<nat>, d: nat, dLeft: bool)
    requires Painted(t, live, color, bh)
  {
    forall n {:trigger n in live, t.left[n]} {:trigger n in live, t.right[n]} :: n in live ==> HeightsAt(t, color, bh, n, d, dLeft)
  }

  /** A red node other than z has black children, z itself excepted. */
  ghost predicate RedAt(t: Links, color: seq<Color>, n: nat, z: nat)
    requires Closed(t) && |color| == |t.left| && n < |t.left|
  {
    color[n] == Red && n != z ==>
      && (color[t.left[n]] == Black || t.left[n] == z)
      && (color[t.right[n]] == Black || t.right[n] == z)
  }

  /** No red node has a red child, except for edges that touch z (NIL: no exception). */
  ghost predicate RedRule(t: Links, live: set<nat>, color: seq<Color>, z: nat)
    requires Closed(t) && |color| == |t.left|
    requires forall n {:trigger n in live} :: n in live ==> n < |t.left|
  {
    forall n {:trigger n in live, t.left[n]} {:trigger n in live, t.right[n]} :: n in live ==> RedAt(t, color, n, z)
  }

  /**
   * The state `InsertFixup` keeps: a tree whose black heights are all equal
   * and whose only red-red edge may be the one from z's parent to z, which is
   * red with black children; the root is black unless it is z.
   */
  ghost predicate FixingInsert(t: Links, live: set<nat>, sub: seq<set<nat>>, color: seq<Color>, bh: seq<nat>, z: nat)
  {
    && Shaped(t, live, sub) && Painted(t, live, color, bh)
    && Heights(t, live, color, bh, NIL, true) && RedRule(t, live, color, z)
    && z in live && color[z] == Red && color[t.left[z]] == Black && color[t.right[z]] == Black
    && (color[t.root] == Black || z == t.root)
  }

  /** While z's parent p is red, p is not the root, its parent g is live and black, and z, p, g are distinct. */
  lemma InsertSetting(t: Links, live: set<nat>, sub: seq<set<nat>>, color: seq<Color>, bh: seq<nat>, z: nat)
    requires FixingInsert(t, live, sub, color, bh, z) && color[t.parent[z]] == Red
    ensures var p := t.parent[z]; var g := t.parent[p];
      && z != t.root && p in live && p != t.root && g in live && color[g] == Black
      && (t.left[p] == z || t.right[p] == z) && (t.left[g] == p || t.right[g] == p)
      && z != p && z != g && p != g && z in sub[p] && p in sub[g] && z in sub[g]
      && t.left[g] != t.right[g]
  {
    var p := t.parent[z];
    if z == t.root {
      assert false;
    }
    assert p in live;
    var g := t.parent[p];
    if p == t.root {
      assert false;
    }
    assert g in live;
    assert NestedAt(t, sub, p) && NestedAt(t, sub, g);
    assert z in sub[z];
    assert RedAt(t, color, g, z);
  }

  /** Per-node heights and red-rule facts at every live node make up the whole-tree predicates. */
  lemma Assemble(t: Links, live: set<nat>, color: seq<Color>, bh: seq<nat>, d: nat, dLeft: bool, z: nat)
    requires Painted(t, live, color, bh)
    requires forall n | n in live :: HeightsAt(t, color, bh, n, d, dLeft) && RedAt(t, color, n, z)
    ensures Heights(t, live, color, bh, d, dLeft) && RedRule(t, live, color, z)
  {
  }

  /** z's parent p, grandparent g and uncle u, with p the left child of g. */
  ghost predicate LeftFamily(t: Links, z: nat, p: nat, g: nat, u: nat)
    requires Closed(t) && z < |t.left|
  {
    p == t.parent[z] && g == t.parent[p] && p == t.left[g] && u == t.right[g]
  }

  /** Case 1 of `InsertFixup`, parent on the left, at one node n: heights and the red rule (now excepting g) hold there. */
  lemma InsertRecolorLeftAt(t: Links, live: set<nat>, sub: seq<set<nat>>, color: seq<Color>, bh: seq<nat>,
                            z: nat, p: nat, g: nat, u: nat, n: nat)
    requires FixingInsert(t, live, sub, color, bh, z) && LeftFamily(t, z, p, g, u)
    requires color[p] == Red && color[u] == Red && n in live
    ensures HeightsAt(t, color[p := Black][u := Black][g := Red], bh[g := bh[g] + 1], n, NIL, true)
    ensures RedAt(t, color[p := Black][u := Black][g := Red], n, g)
  {
    InsertSetting(t, live, sub, color, bh, z);
    assert HeightsAt(t, color, bh, n, NIL, true) && RedAt(t, color, n, z);
    if n != g {
      assert t.left[n] == p || t.right[n] == p ==> n == g;
      assert u != NIL;
      assert t.left[n] == u || t.right[n] == u ==> n == g;
    }
  }

  /**
   * Case 1 of `InsertFixup` with z's parent p a left child: the uncle u is
   * red, so p and u turn black and the grandparent g turns red, with one
   * more black below it; g then takes z's place.
   */
  lemma InsertRecolorLeft(t: Links, live: set<nat>, sub: seq<set<nat>>, color: seq<Color>, bh: seq<nat>,
                          z: nat, p: nat, g: nat, u: nat)
    requires FixingInsert(t, live, sub, color, bh, z) && LeftFamily(t, z, p, g, u)
    requires color[p] == Red && color[u] == Red
    ensures FixingInsert(t, live, sub, color[p := Black][u := Black][g := Red], bh[g := bh[g] + 1], g)
  {
    InsertSetting(t, live, sub, color, bh, z);
    var color', bh' := color[p := Black][u := Black][g := Red], bh[g := bh[g] + 1];
    forall n | n in live
      ensures HeightsAt(t, color', bh', n, NIL, true) && RedAt(t, color', n, g)
    {
      InsertRecolorLeftAt(t, live, sub, color, bh, z, p, g, u, n);
    }
    Assemble(t, live, color', bh', NIL, true, g);
    assert t.parent[u] == g;
    if t.root != g {
      assert t.root != p && t.root != u;
    }
  }

  /** Case 2 of `InsertFixup` at one node n: after rotating left at p, heights hold and the red rule excepts p. */
  lemma InsertRotateInnerLeftAt(t: Links, live: set<nat>, sub: seq<set<nat>>, color: seq<Color>, bh: seq<nat>,
                                z: nat, p: nat, g: nat, u: nat, n: nat)
    requires FixingInsert(t, live, sub, color, bh, z) && LeftFamily(t, z, p, g, u)
    requires color[p] == Red && color[u] == Black && z == t.right[p] && n in live
    ensures p in live && t.right[p] != NIL && t.right[p] != p && t.parent[p] != p && t.parent[p] != t.right[p]
    ensures t.left[t.right[p]] != p && t.left[t.right[p]] != t.right[p]
    ensures HeightsAt(RotateLeft(t, p), color, bh, n, NIL, true) && RedAt(RotateLeft(t, p), color, n, p)
  {
    InsertSetting(t, live, sub, color, bh, z);
    RotateLeftSetting(t, live, sub, p);
    RotateLeftFacts(t, p);
    assert HeightsAt(t, color, bh, n, NIL, true) && RedAt(t, color, n, z);
    assert HeightsAt(t, color, bh, p, NIL, true) && HeightsAt(t, color, bh, z, NIL, true);
    assert RedAt(t, color, p, z);
    if n != p && n != z && n != g {
      RotateLeftFrame(t, live, sub, p, n);
      assert t.left[n] != z && t.right[n] != z;
    }
  }

  /**
   * Case 2 of `InsertFixup` with p a left child and z its right child: z
   * becomes p and the tree rotates left at it; no colour or black height
   * changes, and the new z is the left child of a red parent under g.
   */
  lemma InsertRotateInnerLeft(t: Links, live: set<nat>, sub: seq<set<nat>>, color: seq<Color>, bh: seq<nat>,
                              z: nat, p: nat, g: nat, u: nat)
    requires FixingInsert(t, live, sub, color, bh, z) && LeftFamily(t, z, p, g, u)
    requires color[p] == Red && color[u] == Black && z == t.right[p]
    ensures p in live && t.right[p] != NIL && t.right[p] != p && t.parent[p] != p && t.parent[p] != t.right[p]
    ensures t.left[t.right[p]] != p && t.left[t.right[p]] != t.right[p]
    ensures FixingInsert(RotateLeft(t, p), live, RotateLeftSub(t, sub, p), color, bh, p)
    ensures LeftFamily(RotateLeft(t, p), p, z, g, u) && p == RotateLeft(t, p).left[z] && color[z] == Red
  {
    InsertSetting(t, live, sub, color, bh, z);
    RotateLeftShaped(t, live, sub, p);
    var t1 := RotateLeft(t, p);
    forall n | n in live
      ensures HeightsAt(t1, color, bh, n, NIL, true) && RedAt(t1, color, n, p)
    {
      InsertRotateInnerLeftAt(t, live, sub, color, bh, z, p, g, u, n);
    }
    Assemble(t1, live, color, bh, NIL, true, p);
    assert RedAt(t, color, p, z);
    assert t.left[p] != z by {
      assert NestedAt(t, sub, p);
      assert z in sub[z];
    }
  }

  /** Case 3 of `InsertFixup` at one node n away from the rotation: nothing there changes. */
  lemma InsertRotateOuterLeftFrame(t: Links, live: set<nat>, sub: seq<set<nat>>, color: seq<Color>, bh: seq<nat>,
                                   z: nat, p: nat, g: nat, u: nat, n: nat)
    requires FixingInsert(t, live, sub, color, bh, z) && LeftFamily(t, z, p, g, u)
    requires color[p] == Red && color[u] == Black && z == t.left[p]
    requires n in live && n != p && n != g && n != t.parent[g]
    ensures g in live && t.left[g] != NIL && t.left[g] != g && t.parent[g] != g && t.parent[g] != t.left[g]
    ensures t.right[t.left[g]] != g && t.right[t.left[g]] != t.left[g]
    ensures HeightsAt(RotateRight(t, g), color[p := Black][g := Red], bh, n, NIL, true)
    ensures RedAt(RotateRight(t, g), color[p := Black][g := Red], n, z)
  {
    InsertSetting(t, live, sub, color, bh, z);
    RotateRightFrame(t, live, sub, g, n);
    assert HeightsAt(t, color, bh, n, NIL, true) && RedAt(t, color, n, z);
    assert t.left[n] != z && t.right[n] != z;
  }

  /** Case 3 of `InsertFixup` at p and g: heights hold and the red rule excepts z. */
  lemma InsertRotateOuterLeftAt(t: Links, live: set<nat>, sub: seq<set<nat>>, color: seq<Color>, bh: seq<nat>,
                                z: nat, p: nat, g: nat, u: nat, n: nat)
    requires FixingInsert(t, live, sub, color, bh, z) && LeftFamily(t, z, p, g, u)
    requires color[p] == Red && color[u] == Black && z == t.left[p]
    requires n == p || n == g
    ensures g in live && t.left[g] != NIL && t.left[g] != g && t.parent[g] != g && t.parent[g] != t.left[g]
    ensures t.right[t.left[g]] != g && t.right[t.left[g]] != t.left[g]
    ensures HeightsAt(RotateRight(t, g), color[p := Black][g := Red], bh, n, NIL, true)
    ensures RedAt(RotateRight(t, g), color[p := Black][g := Red], n, z)
  {
    InsertSetting(t, live, sub, color, bh, z);
    RotateRightLinks(t, live, sub, g);
    assert HeightsAt(t, color, bh, p, NIL, true) && HeightsAt(t, color, bh, g, NIL, true);
    assert RedAt(t, color, p, z);
    var r := RotateRight(t, g);
    assert r.left[p] == z && r.right[p] == g && r.left[g] == t.right[p] && r.right[g] == u;
  }

  /** Case 3 of `InsertFixup` at g's parent, which now holds p where it held g. */
  lemma InsertRotateOuterLeftAbove(t: Links, live: set<nat>, sub: seq<set<nat>>, color: seq<Color>, bh: seq<nat>,
                                   z: nat, p: nat, g: nat, u: nat)
    requires FixingInsert(t, live, sub, color, bh, z) && LeftFamily(t, z, p, g, u)
    requires color[p] == Red && color[u] == Black && z == t.left[p] && t.parent[g] != NIL
    ensures g in live && t.left[g] != NIL && t.left[g] != g && t.parent[g] != g && t.parent[g] != t.left[g]
    ensures t.right[t.left[g]] != g && t.right[t.left[g]] != t.left[g]
    ensures t.parent[g] in live
    ensures HeightsAt(RotateRight(t, g), color[p := Black][g := Red], bh, t.parent[g], NIL, true)
    ensures RedAt(RotateRight(t, g), color[p := Black][g := Red], t.parent[g], z)
  {
    InsertSetting(t, live, sub, color, bh, z);
    RotateRightLinks(t, live, sub, g);
    var gg := t.parent[g];
    assert HeightsAt(t, color, bh, gg, NIL, true) && RedAt(t, color, gg, z);
    assert HeightsAt(t, color, bh, g, NIL, true);
    assert gg != p && gg != z;
  }

  /**
   * Case 3 of `InsertFixup` with p a left child and z its left child: p
   * turns black, g red, and the tree rotates right at g; black heights do
   * not change, and z's parent is now black, which ends the loop.
   */
  lemma InsertRotateOuterLeft(t: Links, live: set<nat>, sub: seq<set<nat>>, color: seq<Color>, bh: seq<nat>,
                              z: nat, p: nat, g: nat, u: nat)
    requires FixingInsert(t, live, sub, color, bh, z) && LeftFamily(t, z, p, g, u)
    requires color[p] == Red && color[u] == Black && z == t.left[p]
    ensures g in live && t.left[g] != NIL && t.left[g] != g && t.parent[g] != g && t.parent[g] != t.left[g]
    ensures t.right[t.left[g]] != g && t.right[t.left[g]] != t.left[g]
    ensures FixingInsert(RotateRight(t, g), live, RotateRightSub(t, sub, g), color[p := Black][g := Red], bh, z)
    ensures RotateRight(t, g).parent[z] == p && color[p := Black][g := Red][p] == Black
  {
    InsertSetting(t, live, sub, color, bh, z);
    RotateRightShaped(t, live, sub, g);
    var t2, color' := RotateRight(t, g), color[p := Black][g := Red];
    forall n | n in live
      ensures HeightsAt(t2, color', bh, n, NIL, true) && RedAt(t2, color', n, z)
    {
      if n == p || n == g {
        InsertRotateOuterLeftAt(t, live, sub, color, bh, z, p, g, u, n);
      } else if n == t.parent[g] {
        InsertRotateOuterLeftAbove(t, live, sub, color, bh, z, p, g, u);
      } else {
        InsertRotateOuterLeftFrame(t, live, sub, color, bh, z, p, g, u, n);
      }
    }
    Assemble(t2, live, color', bh, NIL, true, z);
    assert z != g && z != p;
    if t.root != g {
      assert t.root != p;
    }
  }

  /** z's parent p, grandparent g and uncle u, with p the right child of g. */
  ghost predicate RightFamily(t: Links, z: nat, p: nat, g: nat, u: nat)
    requires Closed(t) && z < |t.right|
  {
    p == t.parent[z] && g == t.parent[p] && p == t.right[g] && u == t.left[g]
  }

  /** Case 1 of `InsertFixup`, parent on the right, at one node n: heights and the red rule (now excepting g) hold there. */
  lemma InsertRecolorRightAt(t: Links, live: set<nat>, sub: seq<set<nat>>, color: seq<Color>, bh: seq<nat>,
                            z: nat, p: nat, g: nat, u: nat, n: nat)
    requires FixingInsert(t, live, sub, color, bh, z) && RightFamily(t, z, p, g, u)
    requires color[p] == Red && color[u] == Red && n in live
    ensures HeightsAt(t, color[p := Black][u := Black][g := Red], bh[g := bh[g] + 1], n, NIL, true)
    ensures RedAt(t, color[p := Black][u := Black][g := Red], n, g)
  {
    InsertSetting(t, live, sub, color, bh, z);
    assert HeightsAt(t, color, bh, n, NIL, true) && RedAt(t, color, n, z);
    if n != g {
      assert t.right[n] == p || t.left[n] == p ==> n == g;
      assert u != NIL;
      assert t.right[n] == u || t.left[n] == u ==> n == g;
    }
  }

  /**
   * Case 1 of `InsertFixup` with z's parent p a right child: the uncle u is
   * red, so p and u turn black and the grandparent g turns red, with one
   * more black below it; g then takes z's place.
   */
  lemma InsertRecolorRight(t: Links, live: set<nat>, sub: seq<set<nat>>, color: seq<Color>, bh: seq<nat>,
                          z: nat, p: nat, g: nat, u: nat)
    requires FixingInsert(t, live, sub, color, bh, z) && RightFamily(t, z, p, g, u)
    requires color[p] == Red && color[u] == Red
    ensures FixingInsert(t, live, sub, color[p := Black][u := Black][g := Red], bh[g := bh[g] + 1], g)
  {
    InsertSetting(t, live, sub, color, bh, z);
    var color', bh' := color[p := Black][u := Black][g := Red], bh[g := bh[g] + 1];
    forall n | n in live
      ensures HeightsAt(t, color', bh', n, NIL, true) && RedAt(t, color', n, g)
    {
      InsertRecolorRightAt(t, live, sub, color, bh, z, p, g, u, n);
    }
    Assemble(t, live, color', bh', NIL, true, g);
    assert t.parent[u] == g;
    if t.root != g {
      assert t.root != p && t.root != u;
    }
  }

  /** Case 2 of `InsertFixup` at one node n: after rotating right at p, heights hold and the red rule excepts p. */
  lemma InsertRotateInnerRightAt(t: Links, live: set<nat>, sub: seq<set<nat>>, color: seq<Color>, bh: seq<nat>,
                                z: nat, p: nat, g: nat, u: nat, n: nat)
    requires FixingInsert(t, live, sub, color, bh, z) && RightFamily(t, z, p, g, u)
    requires color[p] == Red && color[u] == Black && z == t.left[p] && n in live
    ensures p in live && t.left[p] != NIL && t.left[p] != p && t.parent[p] != p && t.parent[p] != t.left[p]
    ensures t.right[t.left[p]] != p && t.right[t.left[p]] != t.left[p]
    ensures HeightsAt(RotateRight(t, p), color, bh, n, NIL, true) && RedAt(RotateRight(t, p), color, n, p)
  {
    InsertSetting(t, live, sub, color, bh, z);
    RotateRightSetting(t, live, sub, p);
    RotateRightFacts(t, p);
    assert HeightsAt(t, color, bh, n, NIL, true) && RedAt(t, color, n, z);
    assert HeightsAt(t, color, bh, p, NIL, true) && HeightsAt(t, color, bh, z, NIL, true);
    assert RedAt(t, color, p, z);
    if n != p && n != z && n != g {
      RotateRightFrame(t, live, sub, p, n);
      assert t.right[n] != z && t.left[n] != z;
    }
  }

  /**
   * Case 2 of `InsertFixup` with p a right child and z its left child: z
   * becomes p and the tree rotates right at it; no colour or black height
   * changes, and the new z is the right child of a red parent under g.
   */
  lemma InsertRotateInnerRight(t: Links, live: set<nat>, sub: seq<set<nat>>, color: seq<Color>, bh: seq<nat>,
                              z: nat, p: nat, g: nat, u: nat)
    requires FixingInsert(t, live, sub, color, bh, z) && RightFamily(t, z, p, g, u)
    requires color[p] == Red && color[u] == Black && z == t.left[p]
    ensures p in live && t.left[p] != NIL && t.left[p] != p && t.parent[p] != p && t.parent[p] != t.left[p]
    ensures t.right[t.left[p]] != p && t.right[t.left[p]] != t.left[p]
    ensures FixingInsert(RotateRight(t, p), live, RotateRightSub(t, sub, p), color, bh, p)
    ensures RightFamily(RotateRight(t, p), p, z, g, u) && p == RotateRight(t, p).right[z] && color[z] == Red
  {
    InsertSetting(t, live, sub, color, bh, z);
    RotateRightShaped(t, live, sub, p);
    var t1 := RotateRight(t, p);
    forall n | n in live
      ensures HeightsAt(t1, color, bh, n, NIL, true) && RedAt(t1, color, n, p)
    {
      InsertRotateInnerRightAt(t, live, sub, color, bh, z, p, g, u, n);
    }
    Assemble(t1, live, color, bh, NIL, true, p);
    assert RedAt(t, color, p, z);
    assert t.right[p] != z by {
      assert NestedAt(t, sub, p);
      assert z in sub[z];
    }
  }

  /** Case 3 of `InsertFixup` at one node n away from the rotation: nothing there changes. */
  lemma InsertRotateOuterRightFrame(t: Links, live: set<nat>, sub: seq<set<nat>>, color: seq<Color>, bh: seq<nat>,
                                   z: nat, p: nat, g: nat, u: nat, n: nat)
    requires FixingInsert(t, live, sub, color, bh, z) && RightFamily(t, z, p, g, u)
    requires color[p] == Red && color[u] == Black && z == t.right[p]
    requires n in live && n != p && n != g && n != t.parent[g]
    ensures g in live && t.right[g] != NIL && t.right[g] != g && t.parent[g] != g && t.parent[g] != t.right[g]
    ensures t.left[t.right[g]] != g && t.left[t.right[g]] != t.right[g]
    ensures HeightsAt(RotateLeft(t, g), color[p := Black][g := Red], bh, n, NIL, true)
    ensures RedAt(RotateLeft(t, g), color[p := Black][g := Red], n, z)
  {
    InsertSetting(t, live, sub, color, bh, z);
    RotateLeftFrame(t, live, sub, g, n);
    assert HeightsAt(t, color, bh, n, NIL, true) && RedAt(t, color, n, z);
    assert t.right[n] != z && t.left[n] != z;
  }

  /** Case 3 of `InsertFixup` at p and g: heights hold and the red rule excepts z. */
  lemma InsertRotateOuterRightAt(t: Links, live: set<nat>, sub: seq<set<nat>>, color: seq<Color>, bh: seq<nat>,
                                z: nat, p: nat, g: nat, u: nat, n: nat)
    requires FixingInsert(t, live, sub, color, bh, z) && RightFamily(t, z, p, g, u)
    requires color[p] == Red && color[u] == Black && z == t.right[p]
    requires n == p || n == g
    ensures g in live && t.right[g] != NIL && t.right[g] != g && t.parent[g] != g && t.parent[g] != t.right[g]
    ensures t.left[t.right[g]] != g && t.left[t.right[g]] != t.right[g]
    ensures HeightsAt(RotateLeft(t, g), color[p := Black][g := Red], bh, n, NIL, true)
    ensures RedAt(RotateLeft(t, g), color[p := Black][g := Red], n, z)
  {
    InsertSetting(t, live, sub, color, bh, z);
    RotateLeftLinks(t, live, sub, g);
    assert HeightsAt(t, color, bh, p, NIL, true) && HeightsAt(t, color, bh, g, NIL, true);
    assert RedAt(t, color, p, z);
    var r := RotateLeft(t, g);
    assert r.right[p] == z && r.left[p] == g && r.right[g] == t.left[p] && r.left[g] == u;
  }

  /** Case 3 of `InsertFixup` at g's parent, which now holds p where it held g. */
  lemma InsertRotateOuterRightAbove(t: Links, live: set<nat>, sub: seq<set<nat>>, color: seq<Color>, bh: seq<nat>,
                                   z: nat, p: nat, g: nat, u: nat)
    requires FixingInsert(t, live, sub, color, bh, z) && RightFamily(t, z, p, g, u)
    requires color[p] == Red && color[u] == Black && z == t.right[p] && t.parent[g] != NIL
    ensures g in live && t.right[g] != NIL && t.right[g] != g && t.parent[g] != g && t.parent[g] != t.right[g]
    ensures t.left[t.right[g]] != g && t.left[t.right[g]] != t.right[g]
    ensures t.parent[g] in live
    ensures HeightsAt(RotateLeft(t, g), color[p := Black][g := Red], bh, t.parent[g], NIL, true)
    ensures RedAt(RotateLeft(t, g), color[p := Black][g := Red], t.parent[g], z)
  {
    InsertSetting(t, live, sub, color, bh, z);
    RotateLeftLinks(t, live, sub, g);
    var gg := t.parent[g];
    assert HeightsAt(t, color, bh, gg, NIL, true) && RedAt(t, color, gg, z);
    assert HeightsAt(t, color, bh, g, NIL, true);
    assert gg != p && gg != z;
  }

  /**
   * Case 3 of `InsertFixup` with p a right child and z its right child: p
   * turns black, g red, and the tree rotates left at g; black heights do
   * not change, and z's parent is now black, which ends the loop.
   */
  lemma InsertRotateOuterRight(t: Links, live: set<nat>, sub: seq<set<nat>>, color: seq<Color>, bh: seq<nat>,
                              z: nat, p: nat, g: nat, u: nat)
    requires FixingInsert(t, live, sub, color, bh, z) && RightFamily(t, z, p, g, u)
    requires color[p] == Red && color[u] == Black && z == t.right[p]
    ensures g in live && t.right[g] != NIL && t.right[g] != g && t.parent[g] != g && t.parent[g] != t.right[g]
    ensures t.left[t.right[g]] != g && t.left[t.right[g]] != t.right[g]
    ensures FixingInsert(RotateLeft(t, g), live, RotateLeftSub(t, sub, g), color[p := Black][g := Red], bh, z)
    ensures RotateLeft(t, g).parent[z] == p && color[p := Black][g := Red][p] == Black
  {
    InsertSetting(t, live, sub, color, bh, z);
    RotateLeftShaped(t, live, sub, g);
    var t2, color' := RotateLeft(t, g), color[p := Black][g := Red];
    forall n | n in live
      ensures HeightsAt(t2, color', bh, n, NIL, true) && RedAt(t2, color', n, z)
    {
      if n == p || n == g {
        InsertRotateOuterRightAt(t, live, sub, color, bh, z, p, g, u, n);
      } else if n == t.parent[g] {
        InsertRotateOuterRightAbove(t, live, sub, color, bh, z, p, g, u);
      } else {
        InsertRotateOuterRightFrame(t, live, sub, color, bh, z, p, g, u, n);
      }
    }
    Assemble(t2, live, color', bh, NIL, true, z);
    assert z != g && z != p;
    if t.root != g {
      assert t.root != p;
    }
  }

  /**
   * When `InsertFixup`'s loop ends (z's parent is black), painting the root
   * black leaves a red-black tree: no red node has a red child, all black
   * heights agree, and the root is black.
   */
  lemma InsertFinishRules(t: Links, live: set<nat>, sub: seq<set<nat>>, color: seq<Color>, bh: seq<nat>, z: nat)
    requires FixingInsert(t, live, sub, color, bh, z) && color[t.parent[z]] == Black
    ensures t.root in live && Painted(t, live, color[t.root := Black], bh)
    ensures Heights(t, live, color[t.root := Black], bh, NIL, true) && RedRule(t, live, color[t.root := Black], NIL)
  {
    var color' := color[t.root := Black];
    assert t.root in live by {
      assert z in sub[t.root];
    }
    forall n | n in live
      ensures HeightsAt(t, color', bh, n, NIL, true) && RedAt(t, color', n, NIL)
    {
      assert HeightsAt(t, color, bh, n, NIL, true) && RedAt(t, color, n, z);
      assert t.left[n] != t.root && t.right[n] != t.root;
      if color[n] == Red {
        assert n != t.parent[z];
      }
    }
    Assemble(t, live, color', bh, NIL, true, NIL);
  }

  /**
   * A red-black search tree: one binary tree over `live` in key order, the
   * sentinel black, every path from a node to the sentinel with the same
   * number of black nodes, no red node with a red child, and a black root.
   */
  ghost predicate RedBlack(t: Links, live: set<nat>, sub: seq<set<nat>>, key: seq<int>, color: seq<Color>, bh: seq<nat>)
  {
    && Shaped(t, live, sub) && |key| == |t.left| && Painted(t, live, color, bh) && Ordered(t, live, sub, key)
    && Heights(t, live, color, bh, NIL, true) && RedRule(t, live, color, NIL) && color[t.root] == Black
  }

  /** The state `InsertFixup` keeps, together with the key order, which its rotations preserve. */
  ghost predicate InsertState(t: Links, live: set<nat>, sub: seq<set<nat>>, key: seq<int>, color: seq<Color>, bh: seq<nat>, z: nat)
  {
    FixingInsert(t, live, sub, color, bh, z) && |key| == |t.left| && Ordered(t, live, sub, key)
  }

  /**
   * Case 1 of `InsertFixup`, on either side: with a red uncle, recolouring
   * moves the fault up to the grandparent, whose subtree is strictly larger.
   */
  lemma InsertRecolorStep(t: Links, live: set<nat>, sub: seq<set<nat>>, key: seq<int>, color: seq<Color>, bh: seq<nat>,
                          z: nat, p: nat, g: nat, u: nat)
    requires InsertState(t, live, sub, key, color, bh, z)
    requires LeftFamily(t, z, p, g, u) || RightFamily(t, z, p, g, u)
    requires color[p] == Red && color[u] == Red
    ensures InsertState(t, live, sub, key, color[p := Black][u := Black][g := Red], bh[g := bh[g] + 1], g)
    ensures live - sub[g] < live - sub[z]
  {
    if LeftFamily(t, z, p, g, u) {
      InsertRecolorLeft(t, live, sub, color, bh, z, p, g, u);
    } else {
      InsertRecolorRight(t, live, sub, color, bh, z, p, g, u);
    }
    InsertSetting(t, live, sub, color, bh, z);
    ClimbShrinks(t, live, sub, z);
    ClimbShrinks(t, live, sub, p);
  }

  /** Case 2 of `InsertFixup`, parent on the left: rotating left at p makes p the left child of z, with the same grandparent and uncle. */
  lemma InsertInnerLeftStep(t: Links, live: set<nat>, sub: seq<set<nat>>, key: seq<int>, color: seq<Color>, bh: seq<nat>,
                            z: nat, p: nat, g: nat, u: nat)
    requires InsertState(t, live, sub, key, color, bh, z) && LeftFamily(t, z, p, g, u)
    requires color[p] == Red && color[u] == Black && z == t.right[p]
    ensures LeftRotatable(t, p)
    ensures InsertState(RotateLeft(t, p), live, RotateLeftSub(t, sub, p), key, color, bh, p)
    ensures LeftFamily(RotateLeft(t, p), p, z, g, u) && p == RotateLeft(t, p).left[z] && color[z] == Red
  {
    InsertRotateInnerLeft(t, live, sub, color, bh, z, p, g, u);
    RotateLeftOrdered(t, live, sub, key, p);
  }

  /** Case 3 of `InsertFixup`, parent on the left: recolouring and rotating right at g leaves z under a black parent. */
  lemma InsertOuterLeftStep(t: Links, live: set<nat>, sub: seq<set<nat>>, key: seq<int>, color: seq<Color>, bh: seq<nat>,
                            z: nat, p: nat, g: nat, u: nat)
    requires InsertState(t, live, sub, key, color, bh, z) && LeftFamily(t, z, p, g, u)
    requires color[p] == Red && color[u] == Black && z == t.left[p]
    ensures RightRotatable(t, g)
    ensures InsertState(RotateRight(t, g), live, RotateRightSub(t, sub, g), key, color[p := Black][g := Red], bh, z)
    ensures RotateRight(t, g).parent[z] == p && color[p := Black][g := Red][p] == Black
  {
    InsertRotateOuterLeft(t, live, sub, color, bh, z, p, g, u);
    RotateRightOrdered(t, live, sub, key, g);
  }

  /** Case 2 of `InsertFixup`, parent on the right: rotating right at p makes p the right child of z. */
  lemma InsertInnerRightStep(t: Links, live: set<nat>, sub: seq<set<nat>>, key: seq<int>, color: seq<Color>, bh: seq<nat>,
                             z: nat, p: nat, g: nat, u: nat)
    requires InsertState(t, live, sub, key, color, bh, z) && RightFamily(t, z, p, g, u)
    requires color[p] == Red && color[u] == Black && z == t.left[p]
    ensures RightRotatable(t, p)
    ensures InsertState(RotateRight(t, p), live, RotateRightSub(t, sub, p), key, color, bh, p)
    ensures RightFamily(RotateRight(t, p), p, z, g, u) && p == RotateRight(t, p).right[z] && color[z] == Red
  {
    InsertRotateInnerRight(t, live, sub, color, bh, z, p, g, u);
    RotateRightOrdered(t, live, sub, key, p);
  }

  /** Case 3 of `InsertFixup`, parent on the right: recolouring and rotating left at g leaves z under a black parent. */
  lemma InsertOuterRightStep(t: Links, live: set<nat>, sub: seq<set<nat>>, key: seq<int>, color: seq<Color>, bh: seq<nat>,
                             z: nat, p: nat, g: nat, u: nat)
    requires InsertState(t, live, sub, key, color, bh, z) && RightFamily(t, z, p, g, u)
    requires color[p] == Red && color[u] == Black && z == t.right[p]
    ensures LeftRotatable(t, g)
    ensures InsertState(RotateLeft(t, g), live, RotateLeftSub(t, sub, g), key, color[p := Black][g := Red], bh, z)
    ensures RotateLeft(t, g).parent[z] == p && color[p := Black][g := Red][p] == Black
  {
    InsertRotateOuterRight(t, live, sub, color, bh, z, p, g, u);
    RotateLeftOrdered(t, live, sub, key, g);
  }

  /** When z's parent is black, painting the root black leaves a red-black search tree. */
  lemma InsertFinish(t: Links, live: set<nat>, sub: seq<set<nat>>, key: seq<int>, color: seq<Color>, bh: seq<nat>, z: nat)
    requires InsertState(t, live, sub, key, color, bh, z) && color[t.parent[z]] == Black
    ensures RedBlack(t, live, sub, key, color[t.root := Black], bh)
  {
    InsertFinishRules(t, live, sub, color, bh, z);
  }
}
