// What the three kinds of edit to the page tables do to every walk: linking a
// fresh table, writing a leaf, and copying the root.
module TableEdits {
  import opened Wrappers
  import opened PageTables

  function WriteEntry(m: seq<Table>, t: nat, i: nat, e: Word): seq<Table>
    requires t < |m| && i < 512
  {
    m[t := m[t][i := e]]
  }

  // Clear frame f and link it from entry i of table t.
  function LinkTable(m: seq<Table>, t: nat, i: nat, f: nat, e: Word): seq<Table>
    requires t < |m| && i < 512 && f < |m|
  {
    WriteEntry(m[f := ZeroTable()], t, i, e)
  }

  // ---------- linking a fresh table ----------

  ghost predicate CanLink(m: seq<Table>, root: nat, p: seq<nat>, i: nat, t: nat, f: nat, e: Word) {
    && Tree(m, root)
    && |p| < 3 && IsPath(p) && i < 512 && IsPath(p + [i]) && TableAt(m, root, p) == Some(t) && t < |m|
    && !IsPresent(m[t][i])
    && f < |m| && !IsTable(m, root, f)
    && IsPresent(e) && !IsHuge(e) && Target(e) == f
  }

  // Exactly one path gains a table.
  lemma {:induction false} LinkTables(m: seq<Table>, root: nat, p: seq<nat>, i: nat, t: nat, f: nat, e: Word,
                                      q: seq<nat>)
    requires CanLink(m, root, p, i, t, f, e) && IsPath(q)
    ensures TableAt(LinkTable(m, t, i, f, e), root, q) == if q == p + [i] then Some(f) else TableAt(m, root, q)
    decreases |q|
  {
    if q != [] {
      var q0, j := q[..|q| - 1], q[|q| - 1];
      assert IsPath(q0);
      assert q == q0 + [j];
      LinkTables(m, root, p, i, t, f, e, q0);
      ZeroEntry();
      if q0 == p + [i] {
        assert TableAt(m, root, q0).None?;
      } else if TableAt(m, root, q0).Some? {
        var u := TableAt(m, root, q0).value;
        assert u != f;
        if u == t { assert q0 == p; }
      }
    }
  }

  lemma LinkSlot(m: seq<Table>, root: nat, p: seq<nat>, i: nat, t: nat, f: nat, e: Word, q: seq<nat>)
    requires CanLink(m, root, p, i, t, f, e) && 0 < |q| && IsPath(q[..|q| - 1])
    ensures Slot(LinkTable(m, t, i, f, e), root, q) ==
            if q == p + [i] then Some(e)
            else if q[..|q| - 1] == p + [i] && q[|q| - 1] < 512 then Some(0)
            else Slot(m, root, q)
    ensures q == p + [i] ==> Slot(m, root, q) == Some(m[t][i])
    ensures q[..|q| - 1] == p + [i] ==> Slot(m, root, q).None?
  {
    var q0, j := q[..|q| - 1], q[|q| - 1];
    assert q == q0 + [j];
    LinkTables(m, root, p, i, t, f, e, q0);
    if q0 == p + [i] {
      assert TableAt(m, root, q0).None?;
    } else if TableAt(m, root, q0).Some? {
      assert TableAt(m, root, q0).value != f;
      if TableAt(m, root, q0).value == t { assert q0 == p; }
    }
  }

  // No translation changes: the new table is empty and the entry that now leads to it was absent.
  lemma {:induction false} LinkWalk(m: seq<Table>, root: nat, p: seq<nat>, i: nat, t: nat, f: nat, e: Word,
                                    k: seq<nat>, d: nat)
    requires CanLink(m, root, p, i, t, f, e) && IsKey(k) && d < 4
    ensures WalkFrom(LinkTable(m, t, i, f, e), root, k, d) == WalkFrom(m, root, k, d)
    decreases 4 - d
  {
    hide TableAt, Slot, LinkTable;
    var q := k[..d + 1];
    assert q[..|q| - 1] == k[..d];
    LinkSlot(m, root, p, i, t, f, e, q);
    if q == p + [i] {
      FreshTableIsEmpty(m, root, p, i, t, f, e, k, d + 1);
    } else if q[..|q| - 1] == p + [i] {
      ZeroEntry();
    } else if d < 3 {
      LinkWalk(m, root, p, i, t, f, e, k, d + 1);
    }
  }

  lemma FreshTableIsEmpty(m: seq<Table>, root: nat, p: seq<nat>, i: nat, t: nat, f: nat, e: Word, k: seq<nat>, d: nat)
    requires CanLink(m, root, p, i, t, f, e) && IsKey(k) && 0 < d < 4 && k[..d] == p + [i]
    ensures WalkFrom(LinkTable(m, t, i, f, e), root, k, d).None?
  {
    var q := k[..d + 1];
    assert q[..|q| - 1] == k[..d];
    LinkSlot(m, root, p, i, t, f, e, q);
    ZeroEntry();
  }

  lemma LinkKeepsTree(m: seq<Table>, root: nat, p: seq<nat>, i: nat, t: nat, f: nat, e: Word)
    requires CanLink(m, root, p, i, t, f, e)
    ensures Tree(LinkTable(m, t, i, f, e), root)
  {
    var m' := LinkTable(m, t, i, f, e);
    forall q | IsPath(q)
      ensures TableAt(m', root, q) == if q == p + [i] then Some(f) else TableAt(m, root, q)
    {
      LinkTables(m, root, p, i, t, f, e, q);
    }
    forall q, r | IsPath(q) && IsPath(r) && TableAt(m', root, q).Some? && TableAt(m', root, q) == TableAt(m', root, r)
      ensures q == r
    {
      if q != p + [i] { assert TableAt(m, root, q) != Some(f); }
      if r != p + [i] { assert TableAt(m, root, r) != Some(f); }
    }
  }

  lemma LinkKeepsNoHuge(m: seq<Table>, root: nat, p: seq<nat>, i: nat, t: nat, f: nat, e: Word, k: seq<nat>)
    requires CanLink(m, root, p, i, t, f, e) && IsKey(k) && NoHuge(m, root, k)
    ensures NoHuge(LinkTable(m, t, i, f, e), root, k)
  {
    hide TableAt, Slot, LinkTable, CanLink, IsPresent, IsHuge;
    var q, r := k[..2], k[..3];
    LinkSlot(m, root, p, i, t, f, e, q);
    LinkSlot(m, root, p, i, t, f, e, r);
    ZeroEntry();
    CanLinkEntry(m, root, p, i, t, f, e);
  }

  // A link that takes no right away, where there was none, leaves every page what it had.
  lemma LinkKeepsRights(m: seq<Table>, root: nat, p: seq<nat>, i: nat, t: nat, f: nat, e: Word, k: seq<nat>)
    requires CanLink(m, root, p, i, t, f, e) && IsKey(k) && RightsOf(e) == ALL_RIGHTS
    ensures LinkRights(LinkTable(m, t, i, f, e), root, k) == LinkRights(m, root, k)
  {
    hide TableAt, Slot, LinkTable, CanLink, IsPresent, IsHuge, RightsOf;
    LinkKeepsRightsAt(m, root, p, i, t, f, e, k[..1]);
    LinkKeepsRightsAt(m, root, p, i, t, f, e, k[..2]);
    LinkKeepsRightsAt(m, root, p, i, t, f, e, k[..3]);
  }

  lemma LinkKeepsRightsAt(m: seq<Table>, root: nat, p: seq<nat>, i: nat, t: nat, f: nat, e: Word, q: seq<nat>)
    requires CanLink(m, root, p, i, t, f, e) && IsPath(q) && |q| > 0 && RightsOf(e) == ALL_RIGHTS
    ensures RightsAt(LinkTable(m, t, i, f, e), root, q) == RightsAt(m, root, q)
  {
    hide TableAt, Slot, LinkTable, IsHuge, RightsOf, Tree;
    LinkSlot(m, root, p, i, t, f, e, q);
    ZeroEntry();
  }

  lemma CanLinkEntry(m: seq<Table>, root: nat, p: seq<nat>, i: nat, t: nat, f: nat, e: Word)
    requires CanLink(m, root, p, i, t, f, e)
    ensures !IsHuge(e)
  {
    hide Tree, TableAt;
  }

  // ---------- writing a leaf ----------

  ghost predicate CanWrite(m: seq<Table>, root: nat, k: seq<nat>, t: nat) {
    Tree(m, root) && IsKey(k) && IsPath(k[..3]) && TableAt(m, root, k[..3]) == Some(t) && t < |m|
  }

  lemma {:induction false} LeafTables(m: seq<Table>, root: nat, k: seq<nat>, t: nat, e: Word, q: seq<nat>)
    requires CanWrite(m, root, k, t) && IsPath(q)
    ensures TableAt(WriteEntry(m, t, k[3], e), root, q) == TableAt(m, root, q)
    decreases |q|
  {
    if q != [] {
      var q0 := q[..|q| - 1];
      assert IsPath(q0);
      LeafTables(m, root, k, t, e, q0);
      assert |q0| != |k[..3]|;
      assert TableAt(m, root, q0) != Some(t);
    }
  }

  lemma LeafSlot(m: seq<Table>, root: nat, k: seq<nat>, t: nat, e: Word, q: seq<nat>)
    requires CanWrite(m, root, k, t) && 0 < |q| && IsPath(q[..|q| - 1])
    ensures Slot(WriteEntry(m, t, k[3], e), root, q) == if q == k then Some(e) else Slot(m, root, q)
  {
    var q0, j := q[..|q| - 1], q[|q| - 1];
    assert q == q0 + [j] && k == k[..3] + [k[3]];
    LeafTables(m, root, k, t, e, q0);
    if TableAt(m, root, q0) == Some(t) { assert q0 == k[..3]; }
  }

  // Every other page keeps its whole walk.
  lemma {:induction false} LeafWalk(m: seq<Table>, root: nat, k: seq<nat>, t: nat, e: Word, l: seq<nat>, d: nat)
    requires CanWrite(m, root, k, t) && IsKey(l) && d < 4 && l != k
    ensures WalkFrom(WriteEntry(m, t, k[3], e), root, l, d) == WalkFrom(m, root, l, d)
    decreases 4 - d
  {
    var q := l[..d + 1];
    assert q[..|q| - 1] == l[..d];
    LeafSlot(m, root, k, t, e, q);
    if d < 3 { LeafWalk(m, root, k, t, e, l, d + 1); } else { assert q == l; }
  }

  lemma LeafKeepsTree(m: seq<Table>, root: nat, k: seq<nat>, t: nat, e: Word)
    requires CanWrite(m, root, k, t)
    ensures Tree(WriteEntry(m, t, k[3], e), root)
  {
    forall q | IsPath(q) ensures TableAt(WriteEntry(m, t, k[3], e), root, q) == TableAt(m, root, q) {
      LeafTables(m, root, k, t, e, q);
    }
  }

  lemma LeafKeepsNoHuge(m: seq<Table>, root: nat, k: seq<nat>, t: nat, e: Word, l: seq<nat>)
    requires CanWrite(m, root, k, t) && IsKey(l) && NoHuge(m, root, l)
    ensures NoHuge(WriteEntry(m, t, k[3], e), root, l)
  {
    assert l[..2][..1] == l[..1] && l[..3][..2] == l[..2];
    LeafSlot(m, root, k, t, e, l[..2]);
    LeafSlot(m, root, k, t, e, l[..3]);
  }

  lemma LeafKeepsRights(m: seq<Table>, root: nat, k: seq<nat>, t: nat, e: Word, l: seq<nat>)
    requires CanWrite(m, root, k, t) && IsKey(l)
    ensures LinkRights(WriteEntry(m, t, k[3], e), root, l) == LinkRights(m, root, l)
  {
    hide TableAt, Slot, WriteEntry, IsPresent, RightsOf, Tree;
    assert l[..1][..0] == [] && l[..2][..1] == l[..1] && l[..3][..2] == l[..2];
    LeafSlot(m, root, k, t, e, l[..1]);
    LeafSlot(m, root, k, t, e, l[..2]);
    LeafSlot(m, root, k, t, e, l[..3]);
  }

  // The written page reads back the entry, or nothing when the entry is not present.
  lemma LeafReadsBack(m: seq<Table>, root: nat, k: seq<nat>, t: nat, e: Word)
    requires CanWrite(m, root, k, t)
    ensures var w := Walk(WriteEntry(m, t, k[3], e), root, k);
            (w.Some? <==> IsPresent(e)) && (w.Some? ==> |w.value| == 4 && w.value[3] == e)
  {
    LeafKeepsTree(m, root, k, t, e);
    LeafTables(m, root, k, t, e, k[..3]);
    LeafSlot(m, root, k, t, e, k);
    WalkOfLeaf(WriteEntry(m, t, k[3], e), root, k);
  }

  // As a map update: the target page and nothing else.
  lemma LeafUpdatesPages(m: seq<Table>, root: nat, k: seq<nat>, t: nat, e: Word)
    requires CanWrite(m, root, k, t)
    ensures IsPresent(e) ==> Pages(WriteEntry(m, t, k[3], e), root) == Pages(m, root)[k := e]
    ensures !IsPresent(e) ==>
              Pages(WriteEntry(m, t, k[3], e), root) == (imap l | l in Pages(m, root) && l != k :: Pages(m, root)[l])
  {
    var m' := WriteEntry(m, t, k[3], e);
    forall l | IsKey(l) && l != k ensures Walk(m', root, l) == Walk(m, root, l) {
      LeafWalk(m, root, k, t, e, l, 0);
    }
    LeafReadsBack(m, root, k, t, e);
    OnePageDiffers(m, m', root, k);
  }

  lemma OnePageDiffers(m: seq<Table>, m': seq<Table>, root: nat, k: seq<nat>)
    requires IsKey(k) && forall l | IsKey(l) && l != k :: Walk(m', root, l) == Walk(m, root, l)
    ensures var w := Walk(m', root, k);
            && (w.None? ==> Pages(m', root) == imap l | l in Pages(m, root) && l != k :: Pages(m, root)[l])
            && (w.Some? && |w.value| > 0 ==> Pages(m', root) == Pages(m, root)[k := w.value[|w.value| - 1]])
  {
    hide Walk, IsKey;
  }

  // ---------- overwriting a frame that is no table ----------

  // Two memories with the same tables.
  ghost predicate SharesTables(m: seq<Table>, m': seq<Table>, root: nat) {
    |m'| == |m| && forall g: nat | g < |m| && IsTable(m, root, g) :: m'[g] == m[g]
  }

  lemma {:induction false} SharedTables(m: seq<Table>, m': seq<Table>, root: nat, q: seq<nat>)
    requires SharesTables(m, m', root) && IsPath(q)
    ensures TableAt(m', root, q) == TableAt(m, root, q)
    decreases |q|
  {
    if q != [] {
      var q0 := q[..|q| - 1];
      assert IsPath(q0);
      SharedTables(m, m', root, q0);
    }
  }

  lemma SharedSlot(m: seq<Table>, m': seq<Table>, root: nat, k: seq<nat>, d: nat)
    requires SharesTables(m, m', root) && IsKey(k) && d < 4
    ensures Slot(m', root, k[..d + 1]) == Slot(m, root, k[..d + 1])
  {
    hide TableAt;
    assert k[..d + 1][..d] == k[..d] && IsPath(k[..d]);
    SharedTables(m, m', root, k[..d]);
  }

  lemma {:induction false} SharedWalk(m: seq<Table>, m': seq<Table>, root: nat, k: seq<nat>, d: nat)
    requires SharesTables(m, m', root) && IsKey(k) && d < 4
    ensures WalkFrom(m', root, k, d) == WalkFrom(m, root, k, d)
    decreases 4 - d
  {
    hide SharesTables, Slot, TableAt;
    SharedSlot(m, m', root, k, d);
    if d < 3 { SharedWalk(m, m', root, k, d + 1); }
  }

  lemma SharedKeepsAll(m: seq<Table>, m': seq<Table>, root: nat)
    requires Tree(m, root) && SharesTables(m, m', root)
    ensures Tree(m', root)
    ensures forall q | IsPath(q) :: TableAt(m', root, q) == TableAt(m, root, q)
    ensures forall k | IsKey(k) :: Walk(m', root, k) == Walk(m, root, k)
    ensures forall k | IsKey(k) :: NoHuge(m', root, k) == NoHuge(m, root, k)
    ensures forall k | IsKey(k) :: LinkRights(m', root, k) == LinkRights(m, root, k)
    ensures Pages(m', root) == Pages(m, root)
  {
    hide SharesTables, Slot, TableAt, WalkFrom, RightsOf, IsPresent;
    assert |m'| == |m| by { SameSize(m, m', root); }
    forall q | IsPath(q) ensures TableAt(m', root, q) == TableAt(m, root, q) { SharedTables(m, m', root, q); }
    forall k | IsKey(k)
      ensures Walk(m', root, k) == Walk(m, root, k)
      ensures NoHuge(m', root, k) == NoHuge(m, root, k)
      ensures LinkRights(m', root, k) == LinkRights(m, root, k)
    {
      SharedWalk(m, m', root, k, 0);
      SharedSlot(m, m', root, k, 0);
      SharedSlot(m, m', root, k, 1);
      SharedSlot(m, m', root, k, 2);
    }
  }

  lemma SameSize(m: seq<Table>, m': seq<Table>, root: nat)
    requires SharesTables(m, m', root)
    ensures |m'| == |m|
  {
  }

  lemma DataKeepsAll(m: seq<Table>, root: nat, f: nat, data: Table)
    requires Tree(m, root) && f < |m| && !IsTable(m, root, f)
    ensures Tree(m[f := data], root)
    ensures forall q | IsPath(q) :: TableAt(m[f := data], root, q) == TableAt(m, root, q)
    ensures forall k | IsKey(k) :: Walk(m[f := data], root, k) == Walk(m, root, k)
    ensures forall k | IsKey(k) :: NoHuge(m[f := data], root, k) == NoHuge(m, root, k)
    ensures forall k | IsKey(k) :: LinkRights(m[f := data], root, k) == LinkRights(m, root, k)
    ensures Pages(m[f := data], root) == Pages(m, root)
  {
    hide TableAt, Walk, Tree, NoHuge, LinkRights, Pages, IsTable;
    SharedKeepsAll(m, m[f := data], root);
  }

  // The processor sees no difference.
  ghost predicate SameSpace(m0: seq<Table>, m1: seq<Table>, root: nat) {
    && |m1| == |m0| && Tree(m1, root)
    && (forall q | IsPath(q) :: TableAt(m1, root, q) == TableAt(m0, root, q))
    && (forall k | IsKey(k) :: Walk(m1, root, k) == Walk(m0, root, k))
    && (forall k | IsKey(k) :: NoHuge(m1, root, k) == NoHuge(m0, root, k))
    && (forall k | IsKey(k) :: LinkRights(m1, root, k) == LinkRights(m0, root, k))
    && Pages(m1, root) == Pages(m0, root)
  }

  lemma DataSame(m: seq<Table>, root: nat, f: nat, data: Table)
    requires Tree(m, root) && f < |m| && !IsTable(m, root, f)
    ensures SameSpace(m, m[f := data], root)
  {
    hide TableAt, Walk, Tree, NoHuge, LinkRights, Pages, IsTable;
    DataKeepsAll(m, root, f, data);
  }

  lemma SameSpaceTrans(m0: seq<Table>, m1: seq<Table>, m2: seq<Table>, root: nat)
    requires SameSpace(m0, m1, root) && SameSpace(m1, m2, root)
    ensures SameSpace(m0, m2, root)
  {
    hide TableAt, Walk, Tree, NoHuge, LinkRights, Pages;
  }

  lemma SameSpaceTree(m0: seq<Table>, m1: seq<Table>, root: nat)
    requires SameSpace(m0, m1, root)
    ensures Tree(m1, root)
  {
  }

  lemma SameSpaceTable(m0: seq<Table>, m1: seq<Table>, root: nat, f: nat)
    requires SameSpace(m0, m1, root)
    ensures IsTable(m1, root, f) <==> IsTable(m0, root, f)
  {
    hide TableAt, Walk, Tree, NoHuge, LinkRights, Pages;
  }

  // Clearing a data frame and writing to another, or the same.
  lemma DataWritten(m0: seq<Table>, m1: seq<Table>, m2: seq<Table>, root: nat, t: nat, f: nat)
    requires Tree(m0, root) && f < |m0| && t < |m0| && !IsTable(m0, root, t) && !IsTable(m0, root, f)
    requires m1 == m0[f := ZeroTable()] && |m2| == |m0| && m2 == m1[t := m2[t]]
    ensures SameSpace(m0, m2, root) && !IsTable(m2, root, f)
  {
    hide TableAt, Walk, Tree, NoHuge, LinkRights, Pages, IsTable, SameSpace;
    DataSame(m0, root, f, ZeroTable());
    SameSpaceTree(m0, m1, root);
    SameSpaceTable(m0, m1, root, t);
    DataSame(m1, root, t, m2[t]);
    SameSpaceTrans(m0, m1, m2, root);
    SameSpaceTable(m0, m2, root, f);
  }

  // ---------- copying the root ----------

  lemma {:induction false} CopyTables(m: seq<Table>, root: nat, f: nat, q: seq<nat>)
    requires Tree(m, root) && root < |m| && f < |m| && !IsTable(m, root, f) && IsPath(q)
    ensures TableAt(m[f := m[root]], f, q) == if q == [] then Some(f) else TableAt(m, root, q)
    decreases |q|
  {
    if q != [] {
      var q0 := q[..|q| - 1];
      assert IsPath(q0);
      CopyTables(m, root, f, q0);
      assert TableAt(m, root, q0) != Some(f);
    }
  }

  lemma CopySlot(m: seq<Table>, root: nat, f: nat, k: seq<nat>, d: nat)
    requires Tree(m, root) && root < |m| && f < |m| && !IsTable(m, root, f) && IsKey(k) && d < 4
    ensures Slot(m[f := m[root]], f, k[..d + 1]) == Slot(m, root, k[..d + 1])
  {
    hide Tree;
    assert k[..d + 1][..d] == k[..d] && IsPath(k[..d]);
    CopyTables(m, root, f, k[..d]);
    assert TableAt(m, root, k[..d]) != Some(f);
  }

  lemma {:induction false} CopyWalk(m: seq<Table>, root: nat, f: nat, k: seq<nat>, d: nat)
    requires Tree(m, root) && root < |m| && f < |m| && !IsTable(m, root, f) && IsKey(k) && d < 4
    ensures WalkFrom(m[f := m[root]], f, k, d) == WalkFrom(m, root, k, d)
    decreases 4 - d
  {
    hide Tree, IsTable, Slot;
    CopySlot(m, root, f, k, d);
    if d < 3 { CopyWalk(m, root, f, k, d + 1); }
  }

  // Switching to a copy of the root preserves every translation and keeps a tree.
  lemma CopyKeepsAll(m: seq<Table>, root: nat, f: nat)
    requires Tree(m, root) && root < |m| && f < |m| && !IsTable(m, root, f)
    ensures Tree(m[f := m[root]], f)
    ensures forall q | IsPath(q) :: TableAt(m[f := m[root]], f, q) == if q == [] then Some(f) else TableAt(m, root, q)
    ensures forall k | IsKey(k) :: Walk(m[f := m[root]], f, k) == Walk(m, root, k)
    ensures forall k | IsKey(k) :: NoHuge(m[f := m[root]], f, k) == NoHuge(m, root, k)
    ensures forall k | IsKey(k) :: LinkRights(m[f := m[root]], f, k) == LinkRights(m, root, k)
    ensures Pages(m[f := m[root]], f) == Pages(m, root)
  {
    hide Slot, WalkFrom, LinkRights, NoHuge;
    var m' := m[f := m[root]];
    forall q | IsPath(q) ensures TableAt(m', f, q) == if q == [] then Some(f) else TableAt(m, root, q) {
      CopyTables(m, root, f, q);
    }
    forall q, r | IsPath(q) && IsPath(r) && TableAt(m', f, q).Some? && TableAt(m', f, q) == TableAt(m', f, r)
      ensures q == r
    {
      if q != [] { assert TableAt(m, root, q) != Some(f); }
      if r != [] { assert TableAt(m, root, r) != Some(f); }
    }
    forall k | IsKey(k)
      ensures Walk(m', f, k) == Walk(m, root, k)
      ensures NoHuge(m', f, k) == NoHuge(m, root, k)
      ensures LinkRights(m', f, k) == LinkRights(m, root, k)
    {
      CopyKeepsKey(m, root, f, k);
    }
  }

  lemma CopyKeepsKey(m: seq<Table>, root: nat, f: nat, k: seq<nat>)
    requires Tree(m, root) && root < |m| && f < |m| && !IsTable(m, root, f) && IsKey(k)
    ensures Walk(m[f := m[root]], f, k) == Walk(m, root, k)
    ensures NoHuge(m[f := m[root]], f, k) == NoHuge(m, root, k)
    ensures LinkRights(m[f := m[root]], f, k) == LinkRights(m, root, k)
  {
    hide Tree, IsTable, Slot, WalkFrom, RightsOf, IsPresent, IsHuge;
    CopyWalk(m, root, f, k, 0);
    CopySlot(m, root, f, k, 0);
    CopySlot(m, root, f, k, 1);
    CopySlot(m, root, f, k, 2);
  }
}
