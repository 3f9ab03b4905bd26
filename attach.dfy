/**
 * The descent that `Insert` and `operator[]` make from the root to the
 * place of a new key, and the tree after a new red leaf is hung there.
 *
 * The descent follows a pointer to a link (`now_ptr` in the source): a
 * `Slot` names the link it points at, the root link or one child link of
 * a node, and `Target` is the node that link currently holds.
 */
module Attachment {
  import opened Arena
  import opened RedBlackRules

  /** A link of the tree: the root link, or the left or right child link of `owner`. */
  datatype Slot = RootSlot | LeftOf(owner: nat) | RightOf(owner: nat)

  /** The node a new leaf hung at s would have as its parent. */
  function SlotParent(s: Slot): (p: nat)
    ensures s.RootSlot? ==> p == NIL
    ensures !s.RootSlot? ==> p == s.owner
  {
    match s
    case RootSlot => NIL
    case LeftOf(n) => n
    case RightOf(n) => n
  }

  /** The slot's owner is a live node (or the slot is the root link). */
  ghost predicate SlotIn(t: Links, live: set<nat>, s: Slot)
  {
    !s.RootSlot? ==> s.owner in live && s.owner < |t.left|
  }

  /** The node the link s holds. */
  function Target(t: Links, s: Slot): (c: nat)
    requires Closed(t) && (!s.RootSlot? ==> s.owner < |t.left|)
    ensures c < |t.left|
    ensures s.RootSlot? ==> c == t.root
  {
    match s
    case RootSlot => t.root
    case LeftOf(n) => t.left[n]
    case RightOf(n) => t.right[n]
  }

  /**
   * Key k belongs below the link s: it lies on the slot's side of its owner,
   * and on the side of every other ancestor that leads down to the owner.
   */
  ghost predicate Fits(t: Links, live: set<nat>, sub: seq<set<nat>>, key: seq<int>, s: Slot, k: int)
    requires Sized(t, live, sub) && |key| == |t.left| && SlotIn(t, live, s)
  {
    && (s.LeftOf? ==> k < key[s.owner])
    && (s.RightOf? ==> key[s.owner] < k)
    && (forall a {:trigger a in live, t.left[a]} :: a in live && SlotParent(s) in sub[t.left[a]] ==> k < key[a])
    && (forall a {:trigger a in live, t.right[a]} :: a in live && SlotParent(s) in sub[t.right[a]] ==> key[a] < k)
  }

  /** A node c below s other than s has its parent below s too. */
  lemma {:induction false} ParentInSubtree(t: Links, live: set<nat>, sub: seq<set<nat>>, s: nat, c: nat)
    requires Shaped(t, live, sub) && s in live && c in sub[s] && c != s
    ensures t.parent[c] in sub[s]
    decreases sub[s]
  {
    assert NestedAt(t, sub, s);
    assert s in sub[s];
    var l, r := t.left[s], t.right[s];
    if c in sub[l] {
      assert l != NIL && l in live;
      assert NestedAt(t, sub, l);
      if c != l {
        ParentInSubtree(t, live, sub, l, c);
      }
    } else {
      assert r != NIL && r in live;
      assert NestedAt(t, sub, r);
      if c != r {
        ParentInSubtree(t, live, sub, r, c);
      }
    }
  }

  /** The root lies in no child's subtree. */
  lemma RootOnTop(t: Links, live: set<nat>, sub: seq<set<nat>>, a: nat)
    requires Shaped(t, live, sub) && a in live
    ensures t.root !in sub[t.left[a]] && t.root !in sub[t.right[a]]
  {
    assert NestedAt(t, sub, a);
    var l, r := t.left[a], t.right[a];
    if t.root in sub[l] {
      assert l != NIL && l in live && t.parent[l] == a;
      ParentInSubtree(t, live, sub, l, t.root);
      assert false;
    }
    if t.root in sub[r] {
      assert r != NIL && r in live && t.parent[r] == a;
      ParentInSubtree(t, live, sub, r, t.root);
      assert false;
    }
  }

  /**
   * One step of the descent: from a link s holding a live node c whose key
   * is not k, the link on k's side of c is where k belongs, and it holds a
   * smaller subtree that still holds k's node if k is present.
   */
  lemma DescendStep(t: Links, live: set<nat>, sub: seq<set<nat>>, key: seq<int>, s: Slot, k: int, m: nat)
    requires Shaped(t, live, sub) && |key| == |t.left| && Ordered(t, live, sub, key)
    requires SlotIn(t, live, s) && Fits(t, live, sub, key, s, k)
    requires Target(t, s) in live && key[Target(t, s)] != k
    requires (m in live && key[m] == k) ==> m in sub[Target(t, s)]
    ensures var c := Target(t, s); var s' := if k < key[c] then LeftOf(c) else RightOf(c);
      && SlotIn(t, live, s') && Fits(t, live, sub, key, s', k)
      && sub[Target(t, s')] < sub[c]
      && ((m in live && key[m] == k) ==> m in sub[Target(t, s')])
  {
    var c := Target(t, s);
    var s' := if k < key[c] then LeftOf(c) else RightOf(c);
    assert c == t.root || t.parent[c] == SlotParent(s) by {
      if !s.RootSlot? {
        assert NestedAt(t, sub, s.owner);
      }
    }
    if m in live && key[m] == k {
      SearchStep(t, live, sub, key, c, m);
    } else {
      SearchStep(t, live, sub, key, c, c);
    }
    forall a | a in live && (c in sub[t.left[a]] || c in sub[t.right[a]])
      ensures c in sub[t.left[a]] ==> k < key[a]
      ensures c in sub[t.right[a]] ==> key[a] < k
    {
      TargetAncestor(t, live, sub, key, s, k, a);
    }
  }

  /** An ancestor a of the node at link s has k on the side that leads down to it. */
  lemma TargetAncestor(t: Links, live: set<nat>, sub: seq<set<nat>>, key: seq<int>, s: Slot, k: int, a: nat)
    requires Shaped(t, live, sub) && |key| == |t.left|
    requires SlotIn(t, live, s) && Fits(t, live, sub, key, s, k)
    requires Target(t, s) in live && a in live
    requires Target(t, s) == t.root || t.parent[Target(t, s)] == SlotParent(s)
    ensures Target(t, s) in sub[t.left[a]] ==> k < key[a]
    ensures Target(t, s) in sub[t.right[a]] ==> key[a] < k
  {
    var c := Target(t, s);
    assert NestedAt(t, sub, a) && NestedAt(t, sub, c);
    if c == t.root {
      RootOnTop(t, live, sub, a);
    } else if c == t.left[a] {
      assert t.parent[c] == a;
    } else if c == t.right[a] {
      assert t.parent[c] == a;
    } else if c in sub[t.left[a]] {
      ParentInSubtree(t, live, sub, t.left[a], c);
    } else if c in sub[t.right[a]] {
      ParentInSubtree(t, live, sub, t.right[a], c);
    }
  }

  /** The links after a new node, numbered |t.left|, is hung at the empty link s with both children the sentinel. */
  function Attach(t: Links, s: Slot): (r: Links)
    requires Closed(t) && (!s.RootSlot? ==> s.owner < |t.left|)
    ensures Closed(r) && |r.left| == |t.left| + 1
  {
    var node := |t.left|;
    var left1, right1, parent1 := t.left + [NIL], t.right + [NIL], t.parent + [SlotParent(s)];
    match s
    case RootSlot => Links(left1, right1, parent1, node)
    case LeftOf(n) => Links(left1[n := node], right1, parent1, t.root)
    case RightOf(n) => Links(left1, right1[n := node], parent1, t.root)
  }

  /** The subtree sets after `Attach`: the new node's is itself, and every ancestor's gains it. */
  ghost function AttachSub(sub: seq<set<nat>>, s: Slot): (sub': seq<set<nat>>)
    ensures |sub'| == |sub| + 1 && sub'[|sub|] == {|sub|}
    ensures forall i :: 0 <= i < |sub| && SlotParent(s) !in sub[i] ==> sub'[i] == sub[i]
    ensures forall i :: 0 <= i < |sub| && SlotParent(s) in sub[i] ==> sub'[i] == sub[i] + {|sub|}
  {
    seq(|sub| + 1, i requires 0 <= i <= |sub| =>
      if i == |sub| then {|sub|} else if SlotParent(s) in sub[i] then sub[i] + {|sub|} else sub[i])
  }

  /** Where the descent stops for an absent key: an empty link below which k belongs. */
  ghost predicate Descended(t: Links, live: set<nat>, sub: seq<set<nat>>, key: seq<int>, s: Slot, k: int)
  {
    && Shaped(t, live, sub) && |key| == |t.left| && Ordered(t, live, sub, key)
    && SlotIn(t, live, s) && Target(t, s) == NIL && Fits(t, live, sub, key, s, k)
  }

  /** The new node is outside the arena's old slots, and with an empty root link the tree is empty. */
  lemma DescendedSetting(t: Links, live: set<nat>, sub: seq<set<nat>>, key: seq<int>, s: Slot, k: int)
    requires Descended(t, live, sub, key, s, k)
    ensures |t.left| !in live && forall i :: 0 <= i < |sub| ==> |t.left| !in sub[i]
    ensures s.RootSlot? ==> live == {}
    ensures !s.RootSlot? ==> SlotParent(s) in live && SlotParent(s) in sub[t.root]
  {
    if s.RootSlot? {
      assert sub[t.root] == sub[NIL];
    }
  }

  /** What `Attach` changes: the new node's links, its parent's link to it (or the root), and nothing else. */
  lemma AttachFacts(t: Links, live: set<nat>, sub: seq<set<nat>>, key: seq<int>, s: Slot, k: int)
    requires Descended(t, live, sub, key, s, k)
    ensures var r, node := Attach(t, s), |t.left|;
      && r.left[node] == NIL && r.right[node] == NIL && r.parent[node] == SlotParent(s)
      && (s.RootSlot? ==> r.root == node) && (!s.RootSlot? ==> r.root == t.root)
      && (s.LeftOf? ==> r.left[s.owner] == node) && (s.RightOf? ==> r.right[s.owner] == node)
      && (forall i {:trigger r.left[i]} :: 0 <= i < node && !(s.LeftOf? && i == s.owner) ==> r.left[i] == t.left[i])
      && (forall i {:trigger r.right[i]} :: 0 <= i < node && !(s.RightOf? && i == s.owner) ==> r.right[i] == t.right[i])
      && (forall i {:trigger r.parent[i]} :: 0 <= i < node ==> r.parent[i] == t.parent[i])
  {
  }

  /** At one live node n, `Attach` keeps the subtree sets nested. */
  lemma AttachNestedAt(t: Links, live: set<nat>, sub: seq<set<nat>>, key: seq<int>, s: Slot, k: int, n: nat)
    requires Descended(t, live, sub, key, s, k) && n in live + {|t.left|}
    ensures NestedAt(Attach(t, s), AttachSub(sub, s), n)
  {
    DescendedSetting(t, live, sub, key, s, k);
    AttachFacts(t, live, sub, key, s, k);
    if n in live {
      var p := SlotParent(s);
      assert NestedAt(t, sub, n);
      var l, r := t.left[n], t.right[n];
      if p in sub[l] {
        assert p !in sub[r];
      } else if p in sub[r] {
        assert p !in sub[l];
      }
    }
  }

  /** At one node n of the new tree, `Attach` leaves children live and child and parent links agreeing. */
  lemma AttachLinkedAt(t: Links, live: set<nat>, sub: seq<set<nat>>, key: seq<int>, s: Slot, k: int, n: nat)
    requires Descended(t, live, sub, key, s, k) && n in live + {|t.left|}
    ensures var r, live' := Attach(t, s), live + {|t.left|};
      && (r.left[n] == NIL || r.left[n] in live')
      && (r.right[n] == NIL || r.right[n] in live')
      && (r.left[n] != NIL ==> r.parent[r.left[n]] == n)
      && (r.right[n] != NIL ==> r.parent[r.right[n]] == n)
      && (n != r.root ==> r.parent[n] in live' && (r.left[r.parent[n]] == n || r.right[r.parent[n]] == n))
  {
    DescendedSetting(t, live, sub, key, s, k);
    AttachFacts(t, live, sub, key, s, k);
    if n in live && n != t.root {
      assert t.parent[n] in live;
    }
  }

  /** `Attach` keeps every link inside the arena, and every child of a node is a node. */
  lemma AttachSized(t: Links, live: set<nat>, sub: seq<set<nat>>, key: seq<int>, s: Slot, k: int)
    requires Descended(t, live, sub, key, s, k)
    requires forall n | n in live :: var r := Attach(t, s);
      && (r.left[n] == NIL || r.left[n] in live + {|t.left|})
      && (r.right[n] == NIL || r.right[n] in live + {|t.left|})
    ensures Sized(Attach(t, s), live + {|t.left|}, AttachSub(sub, s))
  {
    DescendedSetting(t, live, sub, key, s, k);
    AttachFacts(t, live, sub, key, s, k);
  }

  /** After `Attach` the root owns the whole tree, and every subtree lies inside it. */
  lemma AttachRooted(t: Links, live: set<nat>, sub: seq<set<nat>>, key: seq<int>, s: Slot, k: int)
    requires Descended(t, live, sub, key, s, k)
    requires Sized(Attach(t, s), live + {|t.left|}, AttachSub(sub, s))
    ensures var r, sub', live' := Attach(t, s), AttachSub(sub, s), live + {|t.left|};
      Rooted(r, live', sub') && Within(live', sub')
  {
    DescendedSetting(t, live, sub, key, s, k);
    AttachFacts(t, live, sub, key, s, k);
  }

  /** `Attach` hangs the new node into the tree: the links still form one tree over the live nodes and the new one. */
  lemma AttachShaped(t: Links, live: set<nat>, sub: seq<set<nat>>, key: seq<int>, s: Slot, k: int)
    requires Descended(t, live, sub, key, s, k)
    ensures Shaped(Attach(t, s), live + {|t.left|}, AttachSub(sub, s))
  {
    var r, sub', live' := Attach(t, s), AttachSub(sub, s), live + {|t.left|};
    forall n | n in live'
      ensures NestedAt(r, sub', n)
      ensures r.left[n] == NIL || r.left[n] in live'
      ensures r.right[n] == NIL || r.right[n] in live'
      ensures r.left[n] != NIL ==> r.parent[r.left[n]] == n
      ensures r.right[n] != NIL ==> r.parent[r.right[n]] == n
      ensures n != r.root ==> r.parent[n] in live' && (r.left[r.parent[n]] == n || r.right[r.parent[n]] == n)
    {
      AttachNestedAt(t, live, sub, key, s, k, n);
      AttachLinkedAt(t, live, sub, key, s, k, n);
    }
    AttachSized(t, live, sub, key, s, k);
    AttachRooted(t, live, sub, key, s, k);
  }

  /** `Attach` keeps the search order, given that k belongs below the link it fills. */
  lemma AttachOrdered(t: Links, live: set<nat>, sub: seq<set<nat>>, key: seq<int>, s: Slot, k: int)
    requires Descended(t, live, sub, key, s, k)
    ensures Shaped(Attach(t, s), live + {|t.left|}, AttachSub(sub, s))
    ensures Ordered(Attach(t, s), live + {|t.left|}, AttachSub(sub, s), key + [k])
  {
    AttachShaped(t, live, sub, key, s, k);
    DescendedSetting(t, live, sub, key, s, k);
    var r, sub', key', node := Attach(t, s), AttachSub(sub, s), key + [k], |t.left|;
    forall n | n in live + {node}
      ensures OrderedAt(r, sub', key', n)
    {
      if n != node {
        assert OrderedAt(t, sub, key, n);
      }
    }
  }

  /** At one live node, `Attach` with a red new node keeps the black heights and lets the red rule except only the new node. */
  lemma AttachPaintedAt(t: Links, live: set<nat>, sub: seq<set<nat>>, key: seq<int>, s: Slot, k: int,
                        color: seq<Color>, bh: seq<nat>, n: nat)
    requires Descended(t, live, sub, key, s, k)
    requires Painted(t, live, color, bh) && Heights(t, live, color, bh, NIL, true)
    requires RedRule(t, live, color, NIL) && n in live
    ensures HeightsAt(Attach(t, s), color + [Red], bh + [1], n, NIL, true)
    ensures RedAt(Attach(t, s), color + [Red], n, |t.left|)
  {
    DescendedSetting(t, live, sub, key, s, k);
    AttachFacts(t, live, sub, key, s, k);
    assert HeightsAt(t, color, bh, n, NIL, true) && RedAt(t, color, n, NIL);
  }

  /**
   * After `Attach` with the new node red and one black below it, the state
   * is the one `InsertFixup` starts from, with the new node as z.
   */
  lemma AttachPainted(t: Links, live: set<nat>, sub: seq<set<nat>>, key: seq<int>, s: Slot, k: int,
                      color: seq<Color>, bh: seq<nat>)
    requires Descended(t, live, sub, key, s, k)
    requires Painted(t, live, color, bh) && Heights(t, live, color, bh, NIL, true)
    requires RedRule(t, live, color, NIL) && color[t.root] == Black
    ensures FixingInsert(Attach(t, s), live + {|t.left|}, AttachSub(sub, s), color + [Red], bh + [1], |t.left|)
  {
    AttachShaped(t, live, sub, key, s, k);
    DescendedSetting(t, live, sub, key, s, k);
    AttachFacts(t, live, sub, key, s, k);
    var r, node, color', bh' := Attach(t, s), |t.left|, color + [Red], bh + [1];
    forall n | n in live + {node}
      ensures HeightsAt(r, color', bh', n, NIL, true) && RedAt(r, color', n, node)
    {
      if n != node {
        AttachPaintedAt(t, live, sub, key, s, k, color, bh, n);
      }
    }
    Assemble(r, live + {node}, color', bh', NIL, true, node);
  }

  /**
   * Hanging a red leaf for an absent key k at the empty link where the
   * descent stopped turns a red-black search tree into the state
   * `InsertFixup` starts from, with the new node as z.
   */
  lemma AttachState(t: Links, live: set<nat>, sub: seq<set<nat>>, key: seq<int>, color: seq<Color>, bh: seq<nat>,
                    s: Slot, k: int,
                    t': Links, live': set<nat>, sub': seq<set<nat>>, key': seq<int>, color': seq<Color>, bh': seq<nat>)
    requires RedBlack(t, live, sub, key, color, bh)
    requires SlotIn(t, live, s) && Target(t, s) == NIL && Fits(t, live, sub, key, s, k)
    requires t' == Attach(t, s) && live' == live + {|t.left|} && sub' == AttachSub(sub, s)
    requires key' == key + [k] && color' == color + [Red] && bh' == bh + [1]
    ensures InsertState(t', live', sub', key', color', bh', |t.left|)
  {
    AttachOrdered(t, live, sub, key, s, k);
    AttachPainted(t, live, sub, key, s, k, color, bh);
  }
}
