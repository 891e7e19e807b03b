/** Records shared by the whole model of the image-operation (IOP) core:
    a module instance, a history entry, the pipeline order of `sort_plugins`,
    the insertion performed by `g_list_insert_sorted`, and the linear scans
    over the module list that the editing callbacks perform. */
module IopTypes {

  type byte = bv8

  datatype Option<T> = None | Some(value: T)

  /** Visibility of a module in the darkroom panel (`dt_iop_module_state_t`);
      `Hidden` is the zero value a freshly cleared module has. */
  datatype State = Hidden | Active | Favorite

  /** One live module instance (`dt_iop_module_t`). The C code identifies an
      instance by its address; here `id` plays that role. */
  datatype Module = Module(
    id: nat,
    op: string,                    // operation key, e.g. "exposure"
    so: nat,                       // the shared descriptor it was loaded from
    instance: int,                 // instance group: equal for duplicates
    priority: int,                 // pipeline position of the operation kind
    multiPriority: int,            // order inside the instance group
    enabled: bool,
    defaultEnabled: bool,
    state: State,
    params: seq<byte>,             // `params_size` bytes
    blendParams: seq<byte>,
    defaultBlendParams: seq<byte>)

  /** One entry of the editing history; `moduleId` refers to a `Module.id`. */
  datatype HistoryItem = HistoryItem(moduleId: nat, multiPriority: int, enabled: bool)

  // ---------------------------------------------------------------------
  // Pipeline order
  // ---------------------------------------------------------------------

  /** `a` runs strictly before `b`: lower priority first, and inside one
      priority the higher multi-priority first. */
  predicate Precedes(a: Module, b: Module)
  {
    a.priority < b.priority || (a.priority == b.priority && a.multiPriority > b.multiPriority)
  }

  predicate SameKey(a: Module, b: Module)
  {
    a.priority == b.priority && a.multiPriority == b.multiPriority
  }

  /** The comparator `sort_plugins`: negative when `a` comes first, positive
      when `b` comes first, zero only on equal keys. The C subtraction is on
      `int`; priorities are small, so it is modelled without overflow. */
  function SortPlugins(a: Module, b: Module): (r: int)
    ensures r < 0 <==> Precedes(a, b)
    ensures r > 0 <==> Precedes(b, a)
    ensures r == 0 <==> SameKey(a, b)
  {
    if a.priority == b.priority then b.multiPriority - a.multiPriority
    else a.priority - b.priority
  }

  lemma PrecedesTransitive(a: Module, b: Module, c: Module)
    requires Precedes(a, b) && Precedes(b, c)
    ensures Precedes(a, c)
  {
  }

  /** Non-strict order: every element is not after any later one. */
  ghost predicate Sorted(s: seq<Module>)
  {
    forall i, j :: 0 <= i < j < |s| ==> !Precedes(s[j], s[i])
  }

  /** Strict order: keys are pairwise distinct and ascending. */
  ghost predicate StrictlySorted(s: seq<Module>)
  {
    forall i, j :: 0 <= i < j < |s| ==> Precedes(s[i], s[j])
  }

  // ---------------------------------------------------------------------
  // g_list_insert_sorted
  // ---------------------------------------------------------------------

  /** `g_list_insert_sorted(s, x, sort_plugins)`: walk from the head while the
      comparator says `x` belongs after the current element, then insert. */
  function InsertSorted(s: seq<Module>, x: Module): (r: seq<Module>)
    ensures |r| == |s| + 1
  {
    if s == [] then [x]
    else if SortPlugins(x, s[0]) > 0 then
      assert s == [s[0]] + s[1..];
      [s[0]] + InsertSorted(s[1..], x)
    else [x] + s
  }

  /** Where `InsertSorted` places `x`: after the leading elements that
      precede it. */
  function InsertionPoint(s: seq<Module>, x: Module): (k: nat)
    ensures k <= |s|
    ensures forall j :: 0 <= j < k ==> Precedes(s[j], x)
    ensures k < |s| ==> !Precedes(s[k], x)
  {
    if s == [] || !Precedes(s[0], x) then 0 else 1 + InsertionPoint(s[1..], x)
  }

  lemma {:induction false} InsertSortedAt(s: seq<Module>, x: Module)
    ensures InsertSorted(s, x) == s[..InsertionPoint(s, x)] + [x] + s[InsertionPoint(s, x)..]
    decreases |s|
  {
    if s == [] {
    } else if Precedes(s[0], x) {
      var t := s[1..];
      InsertSortedAt(t, x);
      var k := InsertionPoint(t, x);
      calc {
        InsertSorted(s, x);
        [s[0]] + InsertSorted(t, x);
        [s[0]] + (t[..k] + [x] + t[k..]);
        { assert [s[0]] + t[..k] == s[..k + 1]; assert t[k..] == s[k + 1..]; }
        s[..k + 1] + [x] + s[k + 1..];
      }
    }
  }

  /** Insertion adds exactly `x`: the result is a permutation of `s + [x]`. */
  lemma InsertSortedPermutes(s: seq<Module>, x: Module)
    ensures multiset(InsertSorted(s, x)) == multiset(s) + multiset{x}
  {
    InsertSortedAt(s, x);
    var k := InsertionPoint(s, x);
    var a, b := s[..k], s[k..];
    assert s == a + b;
    calc {
      multiset(InsertSorted(s, x));
      multiset(a + [x] + b);
      multiset(a) + multiset{x} + multiset(b);
      multiset(s) + multiset{x};
    }
  }

  /** Inserting into a sorted list keeps it sorted. */
  lemma InsertSortedSorted(s: seq<Module>, x: Module)
    requires Sorted(s)
    ensures Sorted(InsertSorted(s, x))
  {
    InsertSortedAt(s, x);
    var k := InsertionPoint(s, x);
    var r := InsertSorted(s, x);
    forall i, j | 0 <= i < j < |r|
      ensures !Precedes(r[j], r[i])
    {
      if j == k {
        assert r[i] == s[i];
      } else if i == k {
        assert r[j] == s[j - 1];
        assert j - 1 > k ==> !Precedes(s[j - 1], s[k]);
      } else {
        var i' := if i < k then i else i - 1;
        var j' := if j < k then j else j - 1;
        assert r[i] == s[i'] && r[j] == s[j'];
      }
    }
  }

  /** Inserting an element whose key is strictly between `t[k-1]` and `t[k]`
      into a strictly sorted list puts it exactly at position `k`. */
  lemma InsertSortedBetween(t: seq<Module>, x: Module, k: nat)
    requires StrictlySorted(t) && k <= |t|
    requires forall j :: 0 <= j < k ==> Precedes(t[j], x)
    requires k < |t| ==> Precedes(x, t[k])
    ensures InsertionPoint(t, x) == k
    ensures InsertSorted(t, x) == t[..k] + [x] + t[k..]
    ensures StrictlySorted(InsertSorted(t, x))
  {
    InsertSortedAt(t, x);
    var r := InsertSorted(t, x);
    forall i, j | 0 <= i < j < |r|
      ensures Precedes(r[i], r[j])
    {
      if j == k {
        assert r[i] == t[i];
      } else if i == k {
        assert r[j] == t[j - 1];
        if j - 1 > k { PrecedesTransitive(x, t[k], t[j - 1]); }
      } else {
        var i' := if i < k then i else i - 1;
        var j' := if j < k then j else j - 1;
        assert r[i] == t[i'] && r[j] == t[j'];
      }
    }
  }

  // ---------------------------------------------------------------------
  // Scans over the module list
  // ---------------------------------------------------------------------

  /** The first position at or after `from` that belongs to instance group
      `inst`. */
  function FirstInGroup(s: seq<Module>, inst: int, from: nat): (r: Option<nat>)
    ensures r.Some? ==> from <= r.value < |s| && s[r.value].instance == inst
    ensures r.Some? ==> forall k :: from <= k < r.value ==> s[k].instance != inst
    ensures r.None? <==> forall k :: from <= k < |s| ==> s[k].instance != inst
    decreases |s| - from
  {
    if from >= |s| then None
    else if s[from].instance == inst then Some(from)
    else FirstInGroup(s, inst, from + 1)
  }

  /** The last position strictly before `upto` that belongs to group `inst`. */
  function LastInGroupBefore(s: seq<Module>, inst: int, upto: nat): (r: Option<nat>)
    requires upto <= |s|
    ensures r.Some? ==> r.value < upto && s[r.value].instance == inst
    ensures r.Some? ==> forall k :: r.value < k < upto ==> s[k].instance != inst
    ensures r.None? <==> forall k :: 0 <= k < upto ==> s[k].instance != inst
  {
    if upto == 0 then None
    else if s[upto - 1].instance == inst then Some(upto - 1)
    else LastInGroupBefore(s, inst, upto - 1)
  }

  /** Position of the instance with identity `id`. */
  function IndexOf(s: seq<Module>, id: nat): (r: Option<nat>)
    ensures r.Some? ==> r.value < |s| && s[r.value].id == id
    ensures r.Some? ==> forall k :: 0 <= k < r.value ==> s[k].id != id
    ensures r.None? <==> forall k :: 0 <= k < |s| ==> s[k].id != id
  {
    if s == [] then None
    else if s[0].id == id then Some(0)
    else match IndexOf(s[1..], id)
      case None => None
      case Some(k) => Some(k + 1)
  }

  /** The first instance loaded from descriptor `so` (`get_module_instance`). */
  function FirstWithSo(s: seq<Module>, so: nat): (r: Option<nat>)
    ensures r.Some? ==> r.value < |s| && s[r.value].so == so
    ensures r.Some? ==> forall k :: 0 <= k < r.value ==> s[k].so != so
    ensures r.None? <==> forall k :: 0 <= k < |s| ==> s[k].so != so
  {
    if s == [] then None
    else if s[0].so == so then Some(0)
    else match FirstWithSo(s[1..], so)
      case None => None
      case Some(k) => Some(k + 1)
  }

  function RemoveAt<T>(s: seq<T>, i: nat): (r: seq<T>)
    requires i < |s|
    ensures |r| == |s| - 1
    ensures forall k :: 0 <= k < i ==> r[k] == s[k]
    ensures forall k :: i <= k < |r| ==> r[k] == s[k + 1]
  {
    s[..i] + s[i + 1..]
  }
}
