/** Multi-instance editing of a darkroom session: the module list `dev->iop`
    kept in pipeline order, the history list, and the callbacks that move an
    instance up or down inside its group, delete it, duplicate it, and change
    its panel visibility. The list operations are specified by functions on
    sequences; the class `Develop` performs them step by step, as the C
    callbacks walk their lists. */
module Develop {
  import opened IopTypes
  import opened Visibility

  // ---------------------------------------------------------------------
  // Invariants of a session
  // ---------------------------------------------------------------------

  /** A well-formed module list: in strict pipeline order, one entry per
      identity, one priority per instance group (duplicates share their
      base's priority and different operations have different priorities),
      and multi-priorities that are never negative (0 is the group's
      canonical member). */
  ghost predicate ValidIops(s: seq<Module>)
  {
    StrictlySorted(s) && UniqueIds(s) && GroupsByPriority(s) && NonNegative(s)
  }

  ghost predicate UniqueIds(s: seq<Module>)
  {
    forall i, j :: 0 <= i < |s| && 0 <= j < |s| && s[i].id == s[j].id ==> i == j
  }

  ghost predicate GroupsByPriority(s: seq<Module>)
  {
    forall i, j :: 0 <= i < |s| && 0 <= j < |s| ==>
      (s[i].instance == s[j].instance <==> s[i].priority == s[j].priority)
  }

  ghost predicate NonNegative(s: seq<Module>)
  {
    forall i :: 0 <= i < |s| ==> s[i].multiPriority >= 0
  }

  ghost function IdsOf(s: seq<Module>): set<nat>
  {
    set k | 0 <= k < |s| :: s[k].id
  }

  /** The fields a move, a deletion or a state change never alter. */
  datatype Shape = Shape(id: nat, instance: int, priority: int)

  function ShapeOf(m: Module): Shape
  {
    Shape(m.id, m.instance, m.priority)
  }

  /** Lists of the same shape, position by position, have the same
      identities and the same grouping. */
  lemma SameShape(r: seq<Module>, s: seq<Module>)
    requires |r| == |s| && forall k :: 0 <= k < |s| ==> ShapeOf(r[k]) == ShapeOf(s[k])
    requires UniqueIds(s) && GroupsByPriority(s)
    ensures UniqueIds(r) && GroupsByPriority(r) && IdsOf(r) == IdsOf(s)
  {
    assert forall k :: 0 <= k < |s| ==> r[k].id == s[k].id && r[k].instance == s[k].instance && r[k].priority == s[k].priority;
    forall m | m in IdsOf(r) ensures m in IdsOf(s) {
      var k :| 0 <= k < |r| && r[k].id == m;
      assert s[k].id == m;
    }
    forall m | m in IdsOf(s) ensures m in IdsOf(r) {
      var k :| 0 <= k < |s| && s[k].id == m;
      assert r[k].id == m;
    }
  }

  /** The shapes at `i` and `i + 1` trade places. */
  lemma SwappedShape(r: seq<Module>, s: seq<Module>, i: nat)
    requires i + 1 < |s| == |r|
    requires ShapeOf(r[i]) == ShapeOf(s[i + 1]) && ShapeOf(r[i + 1]) == ShapeOf(s[i])
    requires forall k :: 0 <= k < |s| && k != i && k != i + 1 ==> ShapeOf(r[k]) == ShapeOf(s[k])
    requires UniqueIds(s) && GroupsByPriority(s)
    ensures UniqueIds(r) && GroupsByPriority(r) && IdsOf(r) == IdsOf(s)
  {
    forall k | 0 <= k < |r|
      ensures ShapeOf(r[k]) == ShapeOf(s[if k == i then i + 1 else if k == i + 1 then i else k])
    {
    }
    forall a, b | 0 <= a < |r| && 0 <= b < |r| && r[a].id == r[b].id ensures a == b {
      var a', b' := (if a == i then i + 1 else if a == i + 1 then i else a), (if b == i then i + 1 else if b == i + 1 then i else b);
      assert s[a'].id == s[b'].id;
    }
    forall a, b | 0 <= a < |r| && 0 <= b < |r|
      ensures r[a].instance == r[b].instance <==> r[a].priority == r[b].priority
    {
      var a', b' := (if a == i then i + 1 else if a == i + 1 then i else a), (if b == i then i + 1 else if b == i + 1 then i else b);
      assert ShapeOf(r[a]) == ShapeOf(s[a']) && ShapeOf(r[b]) == ShapeOf(s[b']);
    }
    forall m | m in IdsOf(r) ensures m in IdsOf(s) {
      var k :| 0 <= k < |r| && r[k].id == m;
      var k' := if k == i then i + 1 else if k == i + 1 then i else k;
      assert s[k'].id == m;
    }
    forall m | m in IdsOf(s) ensures m in IdsOf(r) {
      var k :| 0 <= k < |s| && s[k].id == m;
      var k' := if k == i then i + 1 else if k == i + 1 then i else k;
      assert r[k'].id == m;
    }
  }

  /** The shape at `i` is removed and the later ones move down by one. */
  lemma RemovedShape(r: seq<Module>, s: seq<Module>, i: nat)
    requires i < |s| && |r| == |s| - 1
    requires forall k :: 0 <= k < i ==> ShapeOf(r[k]) == ShapeOf(s[k])
    requires forall k :: i <= k < |r| ==> ShapeOf(r[k]) == ShapeOf(s[k + 1])
    requires UniqueIds(s) && GroupsByPriority(s)
    ensures UniqueIds(r) && GroupsByPriority(r) && IdsOf(r) == IdsOf(s) - {s[i].id}
  {
    forall k | 0 <= k < |r| ensures ShapeOf(r[k]) == ShapeOf(s[if k < i then k else k + 1]) {
    }
    forall a, b | 0 <= a < |r| && 0 <= b < |r| && r[a].id == r[b].id ensures a == b {
      assert s[if a < i then a else a + 1].id == s[if b < i then b else b + 1].id;
    }
    forall a, b | 0 <= a < |r| && 0 <= b < |r|
      ensures r[a].instance == r[b].instance <==> r[a].priority == r[b].priority
    {
      assert ShapeOf(r[a]) == ShapeOf(s[if a < i then a else a + 1]);
      assert ShapeOf(r[b]) == ShapeOf(s[if b < i then b else b + 1]);
    }
    forall m | m in IdsOf(r) ensures m in IdsOf(s) - {s[i].id} {
      var k :| 0 <= k < |r| && r[k].id == m;
      var k' := if k < i then k else k + 1;
      assert s[k'].id == m;
    }
    forall m | m in IdsOf(s) - {s[i].id} ensures m in IdsOf(r) {
      var k :| 0 <= k < |s| && s[k].id == m;
      var k' := if k < i then k else k - 1;
      assert r[k'].id == m;
    }
  }

  /** Every history entry refers to a module of the list. */
  ghost predicate HistoryLive(s: seq<Module>, h: seq<HistoryItem>)
  {
    forall t :: 0 <= t < |h| ==> h[t].moduleId in IdsOf(s)
  }

  /** Every history entry carries its module's current multi-priority, so a
      replay of the history rebuilds the current order. */
  ghost predicate HistoryConsistent(s: seq<Module>, h: seq<HistoryItem>)
  {
    forall t :: 0 <= t < |h| ==> Agrees(s, h[t])
  }

  /** The entry carries the multi-priority of the module it refers to. */
  ghost predicate Agrees(s: seq<Module>, e: HistoryItem)
  {
    exists k :: 0 <= k < |s| && s[k].id == e.moduleId && s[k].multiPriority == e.multiPriority
  }

  lemma IdAt(s: seq<Module>, k: nat)
    requires ValidIops(s) && k < |s|
    ensures IndexOf(s, s[k].id) == Some(k)
  {
  }

  // ---------------------------------------------------------------------
  // Move up / move down
  // ---------------------------------------------------------------------

  /** The two modules at `i` and `j` trade multi-priorities. */
  function Exchange(s: seq<Module>, i: nat, j: nat): (r: seq<Module>)
    requires i < |s| && j < |s| && i != j
    ensures |r| == |s|
    ensures r[i] == s[i].(multiPriority := s[j].multiPriority)
    ensures r[j] == s[j].(multiPriority := s[i].multiPriority)
    ensures forall k :: 0 <= k < |s| && k != i && k != j ==> r[k] == s[k]
  {
    s[i := s[i].(multiPriority := s[j].multiPriority)][j := s[j].(multiPriority := s[i].multiPriority)]
  }

  /** Unlink the module at `i` and insert it again with `g_list_insert_sorted`. */
  function Reinsert(s: seq<Module>, i: nat): (r: seq<Module>)
    requires i < |s|
  {
    InsertSorted(RemoveAt(s, i), s[i])
  }

  /** `dt_iop_gui_moveup_callback` on the list: the partner is the first
      module of the same group after position `i`. */
  function MoveUpIops(s: seq<Module>, i: nat): seq<Module>
    requires i < |s|
  {
    match FirstInGroup(s, s[i].instance, i + 1)
    case None => s
    case Some(j) => Reinsert(Exchange(s, i, j), i)
  }

  /** `dt_iop_gui_movedown_callback` on the list: the partner is the last
      module of the same group before position `i`. */
  function MoveDownIops(s: seq<Module>, i: nat): seq<Module>
    requires i < |s|
  {
    match LastInGroupBefore(s, s[i].instance, i)
    case None => s
    case Some(j) => Reinsert(Exchange(s, i, j), i)
  }

  /** History rewrite of a move: entries of module `a` get `ma`, entries of
      module `b` get `mb`, all other entries stay. */
  function Retag(h: seq<HistoryItem>, a: nat, ma: int, b: nat, mb: int): (r: seq<HistoryItem>)
    ensures |r| == |h|
    ensures forall t :: 0 <= t < |h| ==> r[t].moduleId == h[t].moduleId && r[t].enabled == h[t].enabled
  {
    seq(|h|, t requires 0 <= t < |h| =>
      if h[t].moduleId == a then h[t].(multiPriority := ma)
      else if h[t].moduleId == b then h[t].(multiPriority := mb)
      else h[t])
  }

  function MoveUpHistory(s: seq<Module>, h: seq<HistoryItem>, i: nat): seq<HistoryItem>
    requires i < |s|
  {
    match FirstInGroup(s, s[i].instance, i + 1)
    case None => h
    case Some(j) => Retag(h, s[i].id, s[j].multiPriority, s[j].id, s[i].multiPriority)
  }

  function MoveDownHistory(s: seq<Module>, h: seq<HistoryItem>, i: nat): seq<HistoryItem>
    requires i < |s|
  {
    match LastInGroupBefore(s, s[i].instance, i)
    case None => h
    case Some(j) => Retag(h, s[i].id, s[j].multiPriority, s[j].id, s[i].multiPriority)
  }

  /** Neighbours `i` and `i + 1` trade places and multi-priorities. */
  function SwapNeighbours(s: seq<Module>, i: nat): (r: seq<Module>)
    requires i + 1 < |s|
    ensures |r| == |s|
  {
    s[i := s[i + 1].(multiPriority := s[i].multiPriority)][i + 1 := s[i].(multiPriority := s[i + 1].multiPriority)]
  }

  predicate SameKeys(r: seq<Module>, t: seq<Module>)
  {
    |r| == |t| && forall k :: 0 <= k < |r| ==> SameKey(r[k], t[k])
  }

  lemma SameKeysSorted(r: seq<Module>, t: seq<Module>)
    requires SameKeys(r, t) && StrictlySorted(t)
    ensures StrictlySorted(r)
  {
    forall a, b | 0 <= a < b < |r| ensures Precedes(r[a], r[b]) {
      assert SameKey(r[a], t[a]) && SameKey(r[b], t[b]);
    }
  }

  lemma SwapNeighboursValid(s: seq<Module>, i: nat)
    requires ValidIops(s) && i + 1 < |s| && s[i].instance == s[i + 1].instance
    ensures ValidIops(SwapNeighbours(s, i))
    ensures IdsOf(SwapNeighbours(s, i)) == IdsOf(s)
  {
    var r := SwapNeighbours(s, i);
    assert SameKeys(r, s);
    SameKeysSorted(r, s);
    SwappedShape(r, s, i);
  }

  /** Re-inserting the module at `i` after it traded multi-priorities with
      its same-priority neighbour `i + 1` swaps the two. */
  lemma ReinsertAfterExchange(s: seq<Module>, i: nat)
    requires StrictlySorted(s) && i + 1 < |s| && s[i].priority == s[i + 1].priority
    ensures Reinsert(Exchange(s, i, i + 1), i) == SwapNeighbours(s, i)
  {
    var e := Exchange(s, i, i + 1);
    var t := RemoveAt(e, i);
    var x := e[i];
    assert StrictlySorted(t) by {
      var u := RemoveAt(s, i + 1);
      assert SameKeys(t, u) by {
        forall k | 0 <= k < |t| ensures SameKey(t[k], u[k]) {
          if k != i { assert t[k] == u[k]; }
        }
      }
      RemoveKeepsStrict(s, i + 1);
      SameKeysSorted(t, u);
    }
    assert forall k :: 0 <= k < i + 1 ==> Precedes(t[k], x) by {
      forall k | 0 <= k < i + 1 ensures Precedes(t[k], x) {
        if k < i { assert t[k] == s[k] && Precedes(s[k], s[i]); }
      }
    }
    assert i + 1 < |t| ==> Precedes(x, t[i + 1]) by {
      if i + 1 < |t| {
        assert t[i + 1] == s[i + 2] && Precedes(s[i + 1], s[i + 2]);
      }
    }
    InsertSortedBetween(t, x, i + 1);
    SpliceAfter(s, i, t, x, e[i + 1]);
  }

  /** The same with the neighbour `i - 1` before it. */
  lemma ReinsertBeforeExchange(s: seq<Module>, i: nat)
    requires StrictlySorted(s) && 0 < i < |s| && s[i - 1].priority == s[i].priority
    ensures Reinsert(Exchange(s, i, i - 1), i) == SwapNeighbours(s, i - 1)
  {
    var e := Exchange(s, i, i - 1);
    var t := RemoveAt(e, i);
    var x := e[i];
    assert StrictlySorted(t) by {
      var u := RemoveAt(s, i - 1);
      assert SameKeys(t, u) by {
        forall k | 0 <= k < |t| ensures SameKey(t[k], u[k]) {
          if k != i - 1 { assert t[k] == u[k]; }
        }
      }
      RemoveKeepsStrict(s, i - 1);
      SameKeysSorted(t, u);
    }
    assert forall k :: 0 <= k < i - 1 ==> Precedes(t[k], x) by {
      forall k | 0 <= k < i - 1 ensures Precedes(t[k], x) {
        assert t[k] == s[k] && Precedes(s[k], s[i - 1]);
      }
    }
    assert Precedes(x, t[i - 1]) by {
      assert Precedes(s[i - 1], s[i]);
    }
    InsertSortedBetween(t, x, i - 1);
    Splice(s, i - 1, t, x, e[i - 1]);
  }

  /** Removing an element keeps a list strictly sorted. */
  lemma RemoveKeepsStrict(s: seq<Module>, p: nat)
    requires StrictlySorted(s) && p < |s|
    ensures StrictlySorted(RemoveAt(s, p))
  {
    var u := RemoveAt(s, p);
    forall a, b | 0 <= a < b < |u| ensures Precedes(u[a], u[b]) {
      assert u[a] == s[if a < p then a else a + 1];
      assert u[b] == s[if b < p then b else b + 1];
    }
  }

  /** `t` is `s` without position `p + 1` and with `y` at `p`; putting `x`
      back at `p` gives `s` with `x` at `p` and `y` at `p + 1`. */
  lemma Splice(s: seq<Module>, p: nat, t: seq<Module>, x: Module, y: Module)
    requires p + 1 < |s| && |t| == |s| - 1
    requires forall k :: 0 <= k < p ==> t[k] == s[k]
    requires t[p] == y
    requires forall k :: p < k < |t| ==> t[k] == s[k + 1]
    ensures t[..p] + [x] + t[p..] == s[p := x][p + 1 := y]
  {
    var r := t[..p] + [x] + t[p..];
    forall k | 0 <= k < |r| ensures r[k] == s[p := x][p + 1 := y][k] {
      if k < p { assert r[k] == t[k]; }
      else if k > p { assert r[k] == t[k - 1]; }
    }
  }

  /** Likewise, putting `x` back just after `y` gives `s` with `y` at `p` and
      `x` at `p + 1`. */
  lemma SpliceAfter(s: seq<Module>, p: nat, t: seq<Module>, x: Module, y: Module)
    requires p + 1 < |s| && |t| == |s| - 1
    requires forall k :: 0 <= k < p ==> t[k] == s[k]
    requires t[p] == y
    requires forall k :: p < k < |t| ==> t[k] == s[k + 1]
    ensures t[..p + 1] + [x] + t[p + 1..] == s[p := y][p + 1 := x]
  {
    var r := t[..p + 1] + [x] + t[p + 1..];
    forall k | 0 <= k < |r| ensures r[k] == s[p := y][p + 1 := x][k] {
      if k <= p { assert r[k] == t[k]; }
      else if k > p + 1 { assert r[k] == t[k - 1]; }
    }
  }

  /** Members of a group are adjacent in a valid list: the next member after
      `i`, if any, is at `i + 1`. */
  lemma NextInGroupIsNeighbour(s: seq<Module>, i: nat)
    requires StrictlySorted(s) && GroupsByPriority(s) && i < |s|
    requires FirstInGroup(s, s[i].instance, i + 1).Some?
    ensures FirstInGroup(s, s[i].instance, i + 1) == Some(i + 1)
  {
    var j := FirstInGroup(s, s[i].instance, i + 1).value;
    if j > i + 1 {
      assert false;
    }
  }

  /** And the last member before `i`, if any, is at `i - 1`. */
  lemma PreviousInGroupIsNeighbour(s: seq<Module>, i: nat)
    requires StrictlySorted(s) && GroupsByPriority(s) && i < |s|
    requires LastInGroupBefore(s, s[i].instance, i).Some?
    ensures i > 0 && LastInGroupBefore(s, s[i].instance, i) == Some(i - 1)
  {
    var j := LastInGroupBefore(s, s[i].instance, i).value;
    if j < i - 1 {
      assert false;
    }
  }

  /** The move up, when it has a partner, is a swap with the next module. */
  lemma MoveUpIsSwap(s: seq<Module>, i: nat)
    requires StrictlySorted(s) && GroupsByPriority(s) && i < |s|
    requires FirstInGroup(s, s[i].instance, i + 1).Some?
    ensures FirstInGroup(s, s[i].instance, i + 1) == Some(i + 1)
    ensures s[i + 1].instance == s[i].instance
    ensures MoveUpIops(s, i) == SwapNeighbours(s, i)
  {
    NextInGroupIsNeighbour(s, i);
    assert MoveUpIops(s, i) == Reinsert(Exchange(s, i, i + 1), i);
    ReinsertAfterExchange(s, i);
  }

  /** The move down, when it has a partner, is a swap with the previous one. */
  lemma MoveDownIsSwap(s: seq<Module>, i: nat)
    requires StrictlySorted(s) && GroupsByPriority(s) && i < |s|
    requires LastInGroupBefore(s, s[i].instance, i).Some?
    ensures i > 0 && LastInGroupBefore(s, s[i].instance, i) == Some(i - 1)
    ensures s[i - 1].instance == s[i].instance
    ensures MoveDownIops(s, i) == SwapNeighbours(s, i - 1)
  {
    PreviousInGroupIsNeighbour(s, i);
    assert MoveDownIops(s, i) == Reinsert(Exchange(s, i, i - 1), i);
    ReinsertBeforeExchange(s, i);
  }

  /** Under the session invariant, the partner of a move up is the very next
      module, and the move up swaps the two neighbours. */
  lemma MoveUpSwapsNeighbours(s: seq<Module>, i: nat)
    requires ValidIops(s) && i < |s|
    ensures FirstInGroup(s, s[i].instance, i + 1).Some? ==>
              FirstInGroup(s, s[i].instance, i + 1) == Some(i + 1) &&
              MoveUpIops(s, i) == SwapNeighbours(s, i)
    ensures FirstInGroup(s, s[i].instance, i + 1).None? ==> MoveUpIops(s, i) == s
    ensures ValidIops(MoveUpIops(s, i)) && IdsOf(MoveUpIops(s, i)) == IdsOf(s)
  {
    if FirstInGroup(s, s[i].instance, i + 1).Some? {
      MoveUpIsSwap(s, i);
      SwapNeighboursValid(s, i);
    }
  }

  /** Symmetrically, the partner of a move down is the module just before. */
  lemma MoveDownSwapsNeighbours(s: seq<Module>, i: nat)
    requires ValidIops(s) && i < |s|
    ensures LastInGroupBefore(s, s[i].instance, i).Some? ==>
              i > 0 && LastInGroupBefore(s, s[i].instance, i) == Some(i - 1) &&
              MoveDownIops(s, i) == SwapNeighbours(s, i - 1)
    ensures LastInGroupBefore(s, s[i].instance, i).None? ==> MoveDownIops(s, i) == s
    ensures ValidIops(MoveDownIops(s, i)) && IdsOf(MoveDownIops(s, i)) == IdsOf(s)
  {
    if LastInGroupBefore(s, s[i].instance, i).Some? {
      MoveDownIsSwap(s, i);
      SwapNeighboursValid(s, i - 1);
    }
  }

  lemma SwapNeighboursTwice(s: seq<Module>, i: nat)
    requires i + 1 < |s|
    ensures SwapNeighbours(SwapNeighbours(s, i), i) == s
  {
  }

  /** Retagging with exchanged multi-priorities and then back restores every
      entry that carried its module's multi-priority. */
  lemma RetagBack(h: seq<HistoryItem>, a: nat, ma: int, b: nat, mb: int)
    requires a != b
    requires forall t :: 0 <= t < |h| && h[t].moduleId == a ==> h[t].multiPriority == ma
    requires forall t :: 0 <= t < |h| && h[t].moduleId == b ==> h[t].multiPriority == mb
    ensures Retag(Retag(h, a, mb, b, ma), a, ma, b, mb) == h
  {
  }

  /** Moving a module up and then moving it down again restores the module
      list, and restores the history when it was consistent. */
  lemma MoveUpThenDown(s: seq<Module>, h: seq<HistoryItem>, i: nat)
    requires ValidIops(s) && i < |s| && HistoryConsistent(s, h)
    requires FirstInGroup(s, s[i].instance, i + 1).Some?
    ensures i + 1 < |MoveUpIops(s, i)|
    ensures MoveDownIops(MoveUpIops(s, i), i + 1) == s
    ensures MoveDownHistory(MoveUpIops(s, i), MoveUpHistory(s, h, i), i + 1) == h
  {
    MoveUpSwapsNeighbours(s, i);
    var s' := SwapNeighbours(s, i);
    assert LastInGroupBefore(s', s'[i + 1].instance, i + 1) == Some(i);
    MoveDownSwapsNeighbours(s', i + 1);
    SwapNeighboursTwice(s, i);
    var a, b := s[i].id, s[i + 1].id;
    forall t | 0 <= t < |h| && h[t].moduleId == a ensures h[t].multiPriority == s[i].multiPriority {
      var k :| 0 <= k < |s| && s[k].id == h[t].moduleId && s[k].multiPriority == h[t].multiPriority;
      assert k == i;
    }
    forall t | 0 <= t < |h| && h[t].moduleId == b ensures h[t].multiPriority == s[i + 1].multiPriority {
      var k :| 0 <= k < |s| && s[k].id == h[t].moduleId && s[k].multiPriority == h[t].multiPriority;
      assert k == i + 1;
    }
    RetagBack(h, a, s[i].multiPriority, b, s[i + 1].multiPriority);
  }

  /** A move keeps every history entry in step with its module. */
  lemma MoveUpKeepsHistoryConsistent(s: seq<Module>, h: seq<HistoryItem>, i: nat)
    requires ValidIops(s) && i < |s| && HistoryConsistent(s, h)
    ensures HistoryConsistent(MoveUpIops(s, i), MoveUpHistory(s, h, i))
  {
    MoveUpSwapsNeighbours(s, i);
    if FirstInGroup(s, s[i].instance, i + 1).Some? {
      var r := MoveUpIops(s, i);
      var g := MoveUpHistory(s, h, i);
      forall t | 0 <= t < |g|
        ensures Agrees(r, g[t])
      {
        var k :| 0 <= k < |s| && s[k].id == h[t].moduleId && s[k].multiPriority == h[t].multiPriority;
        var k' := if k == i then i + 1 else if k == i + 1 then i else k;
        assert r[k'].id == g[t].moduleId && r[k'].multiPriority == g[t].multiPriority;
      }
    }
  }

  // ---------------------------------------------------------------------
  // Delete
  // ---------------------------------------------------------------------

  /** The instance that takes over when the module at `i` is deleted: the
      nearest earlier module of the same group if there is one, otherwise
      the nearest later one. (The comment in the C code says the opposite
      preference; the loop does this.) */
  function Successor(s: seq<Module>, i: nat): (r: Option<nat>)
    requires i < |s|
    ensures r.Some? ==> r.value < |s| && r.value != i && s[r.value].instance == s[i].instance
    ensures r.None? <==> forall k :: 0 <= k < |s| && k != i ==> s[k].instance != s[i].instance
    ensures (exists k :: 0 <= k < i && s[k].instance == s[i].instance) ==>
              r.Some? && r.value < i && forall k :: r.value < k < i ==> s[k].instance != s[i].instance
  {
    match LastInGroupBefore(s, s[i].instance, i)
    case Some(k) => Some(k)
    case None => FirstInGroup(s, s[i].instance, i + 1)
  }

  /** The list after `dt_iop_gui_delete_callback`: nothing happens when the
      group has no other member; otherwise the module is removed and, if it
      was the canonical member (multi-priority 0), the successor becomes 0. */
  function DeleteIops(s: seq<Module>, i: nat): seq<Module>
    requires i < |s|
  {
    match Successor(s, i)
    case None => s
    case Some(n) =>
      RemoveAt(if s[i].multiPriority == 0 then s[n := s[n].(multiPriority := 0)] else s, i)
  }

  /** The history entries of module `id` removed, the others kept in order. */
  function DropModule(h: seq<HistoryItem>, id: nat): (r: seq<HistoryItem>)
    ensures |r| <= |h|
    ensures forall e :: e in r <==> e in h && e.moduleId != id
  {
    if h == [] then []
    else if h[0].moduleId == id then DropModule(h[1..], id)
    else [h[0]] + DropModule(h[1..], id)
  }

  /** Every history entry of module `id` set to multi-priority 0. */
  function ZeroModule(h: seq<HistoryItem>, id: nat): (r: seq<HistoryItem>)
    ensures |r| == |h|
  {
    seq(|h|, t requires 0 <= t < |h| =>
      if h[t].moduleId == id then h[t].(multiPriority := 0) else h[t])
  }

  function DeleteHistory(s: seq<Module>, h: seq<HistoryItem>, i: nat): seq<HistoryItem>
    requires i < |s|
  {
    match Successor(s, i)
    case None => h
    case Some(n) =>
      if s[i].multiPriority == 0 then ZeroModule(DropModule(h, s[i].id), s[n].id)
      else DropModule(h, s[i].id)
  }

  /** A canonical member being deleted is always the last of its group, so
      its successor is the module just before it. */
  lemma CanonicalSuccessor(s: seq<Module>, i: nat)
    requires ValidIops(s) && i < |s| && s[i].multiPriority == 0
    requires Successor(s, i).Some?
    ensures i > 0 && Successor(s, i) == Some(i - 1)
  {
    var n := Successor(s, i).value;
    if n > i {
      assert false;
    }
    if n < i - 1 {
      assert false;
    }
  }

  lemma RemoveValid(s: seq<Module>, i: nat)
    requires ValidIops(s) && i < |s|
    ensures ValidIops(RemoveAt(s, i))
  {
    var r := RemoveAt(s, i);
    forall a, b | 0 <= a < b < |r| ensures Precedes(r[a], r[b]) {
      assert r[a] == s[if a < i then a else a + 1];
      assert r[b] == s[if b < i then b else b + 1];
    }
    RemovedShape(r, s, i);
  }

  /** Deleting keeps the session invariant. */
  lemma DeleteValid(s: seq<Module>, i: nat)
    requires ValidIops(s) && i < |s|
    ensures ValidIops(DeleteIops(s, i))
  {
    match Successor(s, i)
    case None =>
    case Some(n) =>
      if s[i].multiPriority == 0 {
        CanonicalSuccessor(s, i);
        var u := s[n := s[n].(multiPriority := 0)];
        var r := RemoveAt(u, i);
        assert SameKeys(r, RemoveAt(s, i - 1));
        RemoveValid(s, i - 1);
        SameKeysSorted(r, RemoveAt(s, i - 1));
        RemovedShape(r, s, i);
      } else {
        RemoveValid(s, i);
      }
  }

  /** Deleting removes exactly the deleted instance, and only when its group
      has another member. */
  lemma DeleteRemovesOne(s: seq<Module>, i: nat)
    requires ValidIops(s) && i < |s|
    ensures Successor(s, i).None? ==> DeleteIops(s, i) == s
    ensures Successor(s, i).Some? ==> |DeleteIops(s, i)| == |s| - 1 && IdsOf(DeleteIops(s, i)) == IdsOf(s) - {s[i].id}
  {
    if Successor(s, i).Some? {
      var n := Successor(s, i).value;
      var u := if s[i].multiPriority == 0 then s[n := s[n].(multiPriority := 0)] else s;
      var r := RemoveAt(u, i);
      assert forall k :: 0 <= k < |u| ==> ShapeOf(u[k]) == ShapeOf(s[k]);
      RemovedShape(r, s, i);
    }
  }

  /** The group keeps a canonical member: if some member had multi-priority
      0 before the deletion, some member still has it afterwards. */
  lemma DeleteKeepsCanonical(s: seq<Module>, i: nat, z: nat)
    requires ValidIops(s) && i < |s| && z < |s|
    requires s[z].instance == s[i].instance && s[z].multiPriority == 0
    ensures exists k :: 0 <= k < |DeleteIops(s, i)| &&
              DeleteIops(s, i)[k].instance == s[i].instance && DeleteIops(s, i)[k].multiPriority == 0
  {
    var r := DeleteIops(s, i);
    match Successor(s, i)
    case None =>
      assert r[z] == s[z];
    case Some(n) =>
      if z == i {
        CanonicalSuccessor(s, i);
        assert r[i - 1] == s[i - 1].(multiPriority := 0);
      } else {
        var k := if z < i then z else z - 1;
        assert r[k].instance == s[z].instance;
      }
  }

  /** The history after a deletion refers only to modules still present. */
  lemma DeleteKeepsHistoryLive(s: seq<Module>, h: seq<HistoryItem>, i: nat)
    requires ValidIops(s) && i < |s| && HistoryLive(s, h)
    ensures HistoryLive(DeleteIops(s, i), DeleteHistory(s, h, i))
  {
    DeleteRemovesOne(s, i);
    match Successor(s, i)
    case None =>
    case Some(n) =>
      var d := DropModule(h, s[i].id);
      var g := DeleteHistory(s, h, i);
      forall t | 0 <= t < |g| ensures g[t].moduleId in IdsOf(DeleteIops(s, i)) {
        var t' := t;
        assert g[t].moduleId == d[t'].moduleId;
        assert d[t'] in d;
        var u :| 0 <= u < |h| && h[u] == d[t'];
      }
  }

  /** Two instances of one group, multi-priorities 1 and 0: deleting the
      canonical one promotes the other to 0, drops the deleted instance's
      history and rewrites the survivor's entries to 0. */
  lemma DeleteCanonicalOfTwo(a: Module, b: Module, h: seq<HistoryItem>)
    requires a.id != b.id && a.instance == b.instance && a.priority == b.priority
    requires a.multiPriority == 1 && b.multiPriority == 0
    requires h == [HistoryItem(a.id, 1, true), HistoryItem(b.id, 0, true), HistoryItem(a.id, 1, false)]
    ensures DeleteIops([a, b], 1) == [a.(multiPriority := 0)]
    ensures DeleteHistory([a, b], h, 1) == [HistoryItem(a.id, 0, true), HistoryItem(a.id, 0, false)]
  {
    var s := [a, b];
    assert LastInGroupBefore(s, b.instance, 1) == Some(0);
    assert DropModule(h, b.id) == [h[0], h[2]] by {
      assert DropModule(h[2..], b.id) == [h[2]] by {
        assert h[2..][1..] == [];
      }
      assert h[1..][1..] == h[2..];
    }
  }

  // ---------------------------------------------------------------------
  // Duplicate: the history rewrite
  // ---------------------------------------------------------------------

  /** Every history entry of group `inst` takes its module's current
      multi-priority; other entries are kept. */
  ghost predicate GroupHistorySynced(s: seq<Module>, h: seq<HistoryItem>, old_h: seq<HistoryItem>, inst: int)
  {
    && |h| == |old_h|
    && (forall t :: 0 <= t < |h| ==> h[t].moduleId == old_h[t].moduleId && h[t].enabled == old_h[t].enabled)
    && (forall t :: 0 <= t < |h| ==> EntrySynced(s, h[t], old_h[t], inst))
  }

  /** The entry refers to a module of the list; it carries that module's
      multi-priority if the module is in group `inst`, and its former value
      otherwise. */
  ghost predicate EntrySynced(s: seq<Module>, e: HistoryItem, before: HistoryItem, inst: int)
  {
    exists k :: 0 <= k < |s| && s[k].id == e.moduleId &&
      (s[k].instance == inst ==> e.multiPriority == s[k].multiPriority) &&
      (s[k].instance != inst ==> e.multiPriority == before.multiPriority)
  }

  /** The history rewrite after a duplication: an entry whose module belongs
      to group `inst` takes that module's current multi-priority. */
  function SyncHistory(s: seq<Module>, h: seq<HistoryItem>, inst: int): (r: seq<HistoryItem>)
    ensures |r| == |h|
  {
    seq(|h|, t requires 0 <= t < |h| =>
      match IndexOf(s, h[t].moduleId)
      case Some(k) => if s[k].instance == inst then h[t].(multiPriority := s[k].multiPriority) else h[t]
      case None => h[t])
  }

  /** After the rewrite every history entry of the group agrees with its
      module, and no other entry has changed. */
  lemma SyncHistorySynced(s: seq<Module>, h: seq<HistoryItem>, inst: int)
    requires HistoryLive(s, h)
    ensures GroupHistorySynced(s, SyncHistory(s, h, inst), h, inst)
  {
    var r := SyncHistory(s, h, inst);
    forall t | 0 <= t < |r|
      ensures r[t].moduleId == h[t].moduleId && r[t].enabled == h[t].enabled
      ensures EntrySynced(s, r[t], h[t], inst)
    {
      assert h[t].moduleId in IdsOf(s);
      var k := IndexOf(s, h[t].moduleId).value;
      assert s[k].id == r[t].moduleId;
    }
  }

  /** If the history was consistent outside the group, it is consistent
      everywhere after the rewrite. */
  lemma SyncHistoryConsistent(s: seq<Module>, h: seq<HistoryItem>, inst: int)
    requires ValidIops(s) && HistoryLive(s, h)
    requires forall t, k :: 0 <= t < |h| && 0 <= k < |s| && s[k].id == h[t].moduleId && s[k].instance != inst ==>
               s[k].multiPriority == h[t].multiPriority
    ensures HistoryConsistent(s, SyncHistory(s, h, inst))
  {
    var r := SyncHistory(s, h, inst);
    forall t | 0 <= t < |r|
      ensures Agrees(s, r[t])
    {
      assert h[t].moduleId in IdsOf(s);
      var k := IndexOf(s, h[t].moduleId).value;
      assert s[k].id == r[t].moduleId && s[k].multiPriority == r[t].multiPriority;
    }
  }

  // ---------------------------------------------------------------------
  // Visibility
  // ---------------------------------------------------------------------

  /** Every instance loaded from descriptor `so` takes state `st`. */
  function SetStateIops(s: seq<Module>, so: nat, st: State): (r: seq<Module>)
    ensures |r| == |s|
  {
    seq(|s|, k requires 0 <= k < |s| => if s[k].so == so then s[k].(state := st) else s[k])
  }

  /** Setting the state touches only the `state` field of the instances of
      one descriptor, so the session invariant and the identities survive. */
  lemma SetStateValid(s: seq<Module>, so: nat, st: State)
    requires ValidIops(s)
    ensures ValidIops(SetStateIops(s, so, st)) && IdsOf(SetStateIops(s, so, st)) == IdsOf(s)
    ensures forall k :: 0 <= k < |s| && s[k].so == so ==> SetStateIops(s, so, st)[k].state == st
    ensures forall k :: 0 <= k < |s| && s[k].so != so ==> SetStateIops(s, so, st)[k] == s[k]
  {
    var r := SetStateIops(s, so, st);
    assert forall k :: 0 <= k < |s| ==> r[k] == s[k].(state := r[k].state);
    assert SameKeys(r, s);
    SameKeysSorted(r, s);
    SameShape(r, s);
  }

  // ---------------------------------------------------------------------
  // The session
  // ---------------------------------------------------------------------

  /** A darkroom session (`dt_develop_t`): its module list and its history. */
  class Develop {
    var iop: seq<Module>
    var history: seq<HistoryItem>

    ghost predicate Valid()
      reads this
    {
      ValidIops(iop) && HistoryLive(iop, history)
    }

    constructor(modules: seq<Module>, h: seq<HistoryItem>)
      requires ValidIops(modules) && HistoryLive(modules, h)
      ensures Valid() && iop == modules && history == h
    {
      iop := modules;
      history := h;
    }

    /** The position of `m` in the list, found by identity. */
    ghost function PositionOf(m: Module): (i: nat)
      reads this
      requires Valid() && m in iop
      ensures i < |iop| && iop[i] == m
    {
      var k :| 0 <= k < |iop| && iop[k] == m;
      IdAt(iop, k);
      IndexOf(iop, m.id).value
    }

    /** Walk the list from the head; after passing `m`, stop at the first
      module of its group. */
    method FindNextInGroup(m: Module) returns (pos: nat, next: Option<nat>)
      requires Valid() && m in iop
      ensures pos == PositionOf(m)
      ensures next == FirstInGroup(iop, m.instance, pos + 1)
    {
      ghost var i := PositionOf(m);
      var find := false;
      pos, next := 0, None;
      var k := 0;
      while k < |iop|
        invariant 0 <= k <= |iop|
        invariant find <==> k > i
        invariant find ==> pos == i
        invariant find ==> forall t :: i < t < k ==> iop[t].instance != m.instance
        invariant next.None?
      {
        var mod := iop[k];
        if mod.id == m.id {
          find := true;
          pos := k;
        } else if mod.instance == m.instance && find {
          next := Some(k);
          break;
        }
        k := k + 1;
      }
    }

    /** Walk the list from the tail; after passing `m`, stop at the first
      module of its group. */
    method FindPreviousInGroup(m: Module) returns (pos: nat, next: Option<nat>)
      requires Valid() && m in iop
      ensures pos == PositionOf(m)
      ensures next == LastInGroupBefore(iop, m.instance, pos)
    {
      ghost var i := PositionOf(m);
      var find := false;
      pos, next := 0, None;
      var k := |iop|;
      while k > 0
        invariant 0 <= k <= |iop|
        invariant find <==> k <= i
        invariant find ==> pos == i
        invariant find ==> forall t :: k <= t < i ==> iop[t].instance != m.instance
        invariant next.None?
      {
        k := k - 1;
        var mod := iop[k];
        if mod.id == m.id {
          find := true;
          pos := k;
        } else if mod.instance == m.instance && find {
          next := Some(k);
          break;
        }
      }
    }

    /** Rewrite the history of a move: `a`'s entries get `ma`, `b`'s get `mb`. */
    method RetagHistory(a: nat, ma: int, b: nat, mb: int)
      modifies this`history
      ensures history == Retag(old(history), a, ma, b, mb)
    {
      ghost var h0 := history;
      var t := 0;
      while t < |history|
        invariant 0 <= t <= |history| == |h0|
        invariant forall u :: 0 <= u < |history| ==>
          history[u] == (if u < t then Retag(h0, a, ma, b, mb)[u] else h0[u])
      {
        var hist := history[t];
        if hist.moduleId == a {
          history := history[t := hist.(multiPriority := ma)];
        } else if hist.moduleId == b {
          history := history[t := hist.(multiPriority := mb)];
        }
        t := t + 1;
      }
    }

    /** `dt_iop_gui_moveup_callback`: trade multi-priorities with the first
      later module of the group, patch both modules' history entries, and
      re-insert the module into the sorted list. */
    method MoveUp(m: Module)
      requires Valid() && m in iop
      modifies this
      ensures Valid()
      ensures iop == MoveUpIops(old(iop), old(PositionOf(m)))
      ensures history == MoveUpHistory(old(iop), old(history), old(PositionOf(m)))
    {
      ghost var s := iop;
      var pos, prev := FindNextInGroup(m);
      MoveUpSwapsNeighbours(s, pos);
      if prev.None? {
        return;
      }
      var j := prev.value;
      var other := iop[j];
      var moved := m.(multiPriority := other.multiPriority);
      iop := iop[j := other.(multiPriority := m.multiPriority)][pos := moved];
      RetagHistory(m.id, moved.multiPriority, other.id, m.multiPriority);
      assert iop == Exchange(s, pos, j);
      iop := InsertSorted(RemoveAt(iop, pos), moved);
    }

    /** `dt_iop_gui_movedown_callback`: as `MoveUp`, with the last earlier
      module of the group as partner. */
    method MoveDown(m: Module)
      requires Valid() && m in iop
      modifies this
      ensures Valid()
      ensures iop == MoveDownIops(old(iop), old(PositionOf(m)))
      ensures history == MoveDownHistory(old(iop), old(history), old(PositionOf(m)))
    {
      ghost var s := iop;
      var pos, next := FindPreviousInGroup(m);
      MoveDownSwapsNeighbours(s, pos);
      if next.None? {
        return;
      }
      var j := next.value;
      var other := iop[j];
      var moved := m.(multiPriority := other.multiPriority);
      iop := iop[j := other.(multiPriority := m.multiPriority)][pos := moved];
      RetagHistory(m.id, moved.multiPriority, other.id, m.multiPriority);
      assert iop == Exchange(s, pos, j);
      iop := InsertSorted(RemoveAt(iop, pos), moved);
    }
      /** Walk the list from the head as the delete callback does: remember
      every other member of the group until `m` is passed, and stop at the
      first member after it only if none came before. */
    method FindSuccessor(m: Module) returns (pos: nat, next: Option<nat>)
      requires Valid() && m in iop
      ensures pos == PositionOf(m)
      ensures next == Successor(iop, pos)
    {
      ghost var i := PositionOf(m);
      var find := false;
      pos, next := 0, None;
      var k := 0;
      while k < |iop|
        invariant 0 <= k <= |iop|
        invariant find <==> k > i
        invariant find ==> pos == i
        invariant !find ==> next == LastInGroupBefore(iop, m.instance, k)
        invariant find ==> next.None? && LastInGroupBefore(iop, m.instance, i).None?
        invariant find ==> forall t :: i < t < k ==> iop[t].instance != m.instance
      {
        var mod := iop[k];
        if mod.id == m.id {
          find := true;
          pos := k;
          if next.Some? {
            break;
          }
        } else if mod.instance == m.instance {
          next := Some(k);
          if find {
            break;
          }
        }
        k := k + 1;
      }
    }

    /** Set every history entry of module `id` to multi-priority 0. */
    method ZeroHistory(id: nat)
      modifies this`history
      ensures history == ZeroModule(old(history), id)
    {
      ghost var h0 := history;
      var t := 0;
      while t < |history|
        invariant 0 <= t <= |history| == |h0|
        invariant forall u :: 0 <= u < |history| ==>
          history[u] == (if u < t then ZeroModule(h0, id)[u] else h0[u])
      {
        var hist := history[t];
        if hist.moduleId == id {
          history := history[t := hist.(multiPriority := 0)];
        }
        t := t + 1;
      }
    }

    /** `dt_iop_gui_delete_callback`: find the successor, remove the module
      and its history entries (the effect of `dt_dev_module_remove`), and
      when the module was the canonical member make the successor canonical,
      in the list and in its history entries. */
    method Delete(m: Module)
      requires Valid() && m in iop
      modifies this
      ensures Valid()
      ensures iop == DeleteIops(old(iop), old(PositionOf(m)))
      ensures history == DeleteHistory(old(iop), old(history), old(PositionOf(m)))
    {
      ghost var s, h := iop, history;
      var pos, next := FindSuccessor(m);
      DeleteValid(s, pos);
      DeleteKeepsHistoryLive(s, h, pos);
      if next.None? {
        return;
      }
      var n := next.value;
      var successor := iop[n];
      var isZero := m.multiPriority == 0;
      iop := RemoveAt(iop, pos);
      history := DropModule(history, m.id);
      if isZero {
        CanonicalSuccessor(s, pos);
        iop := iop[n := successor.(multiPriority := 0)];
        assert iop == RemoveAt(s[n := s[n].(multiPriority := 0)], pos);
        ZeroHistory(successor.id);
      }
    }

    /** `dt_iop_gui_duplicate`, list and history part: `duplicated` is the
      module list produced by `dt_dev_module_duplicate` (`None` when it
      fails, and then nothing changes); every history entry of the base's
      group is rewritten to its module's new multi-priority. */
    method Duplicate(base: Module, duplicated: Option<seq<Module>>)
      requires Valid() && base in iop
      requires duplicated.Some? ==> ValidIops(duplicated.value) && IdsOf(iop) <= IdsOf(duplicated.value)
      modifies this
      ensures Valid()
      ensures duplicated.None? ==> iop == old(iop) && history == old(history)
      ensures duplicated.Some? ==> iop == duplicated.value && history == SyncHistory(iop, old(history), base.instance)
    {
      if duplicated.None? {
        return;
      }
      iop := duplicated.value;
      ghost var h0 := history;
      var t := 0;
      while t < |history|
        invariant iop == duplicated.value
        invariant 0 <= t <= |history| == |h0|
        invariant forall u :: 0 <= u < |history| ==>
          history[u] == (if u < t then SyncHistory(iop, h0, base.instance)[u] else h0[u])
      {
        var hist := history[t];
        match IndexOf(iop, hist.moduleId) {
          case Some(k) =>
            if iop[k].instance == base.instance {
              history := history[t := hist.(multiPriority := iop[k].multiPriority)];
            }
          case None =>
        }
        t := t + 1;
      }
      assert HistoryLive(iop, history) by {
        forall u | 0 <= u < |history| ensures history[u].moduleId in IdsOf(iop) {
          assert history[u].moduleId == h0[u].moduleId;
        }
      }
    }

    /** `dt_iop_gui_set_state`: every instance of the module's descriptor
      takes the new state, and the two configuration keys of the operation
      are written so that reading them back gives that state. */
    method SetState(conf: Conf, m: Module, st: State)
      requires Valid()
      modifies this`iop, conf
      ensures Valid()
      ensures iop == SetStateIops(old(iop), m.so, st)
      ensures conf.bools == EncodeState(old(conf.bools), m.op, st)
      ensures DecodeState(conf.bools, m.op) == st
    {
      ghost var s, c := iop, conf.bools;
      SetStateValid(s, m.so, st);
      var k := 0;
      while k < |iop|
        invariant 0 <= k <= |iop| == |s|
        invariant forall u :: 0 <= u < |iop| ==>
          iop[u] == (if u < k then SetStateIops(s, m.so, st)[u] else s[u])
        invariant conf.bools == c
      {
        var mod := iop[k];
        if mod.so == m.so {
          iop := iop[k := mod.(state := st)];
        }
        k := k + 1;
      }
      assert iop == SetStateIops(s, m.so, st);
      KeysDistinct(m.op);
      if st == Hidden {
        conf.bools := conf.bools[VisibleKey(m.op) := false];
        conf.bools := conf.bools[FavoriteKey(m.op) := false];
      } else if st == Active {
        conf.bools := conf.bools[VisibleKey(m.op) := true];
        conf.bools := conf.bools[FavoriteKey(m.op) := false];
      } else {
        conf.bools := conf.bools[VisibleKey(m.op) := true];
        conf.bools := conf.bools[FavoriteKey(m.op) := true];
      }
      StateRoundTrip(c, m.op, st);
    }
  }
}
