/** Creating module instances from their shared descriptors: the validation
    of `dt_iop_load_module_by_so`, the parameter block of `simple_init`, the
    instance numbering of `dt_iop_load_modules`, and the two small decisions
    `dt_iop_is_hidden` and `dt_iop_module_colorspace`. */
module Load {
  import opened IopTypes
  import opened Visibility
  import opened Develop

  /** Why an instance is refused. */
  datatype LoadError = PriorityUnset | EmptyParams

  datatype Loaded = Loaded(created: Module) | Rejected(error: LoadError)

  /** What the operation's own `init` callback leaves in the instance. */
  datatype InitOutcome = InitOutcome(priority: int, params: seq<byte>, defaultEnabled: bool)

  /** The operation name is copied into a 20-byte buffer with `g_strlcpy`,
      which keeps at most 19 characters. */
  function OpName(op: string): (r: string)
    ensures |r| <= 19 && |r| <= |op| && r == op[..|r|]
    ensures |op| <= 19 ==> r == op
  {
    if |op| <= 19 then op else op[..19]
  }

  /** `dt_iop_load_module_by_so`: the instance starts disabled with
      multi-priority 0 and default blend parameters, takes the panel state
      stored in the configuration when a GUI is attached, runs `init`, and is
      refused when `init` left the priority at 0 (checked first) or the
      parameter block empty; otherwise it is enabled exactly when enabled by
      default. */
  function LoadModuleBySo(id: nat, so: nat, op: string, init: InitOutcome, guiAttached: bool,
                          conf: map<string, bool>, blendDefaults: seq<byte>): (r: Loaded)
    ensures init.priority == 0 ==> r == Rejected(PriorityUnset)
    ensures init.priority != 0 && |init.params| == 0 ==> r == Rejected(EmptyParams)
    ensures r.Loaded? <==> init.priority != 0 && |init.params| > 0
    ensures r.Loaded? ==> r.created.enabled == r.created.defaultEnabled == init.defaultEnabled
    ensures r.Loaded? ==> r.created.multiPriority == 0 && r.created.priority == init.priority
    ensures r.Loaded? ==> r.created.id == id && r.created.so == so && r.created.op == OpName(op)
    ensures r.Loaded? ==> r.created.params == init.params
    ensures r.Loaded? ==> r.created.blendParams == r.created.defaultBlendParams == blendDefaults
    ensures r.Loaded? && guiAttached ==> r.created.state == DecodeState(conf, OpName(op))
    ensures r.Loaded? && !guiAttached ==> r.created.state == Hidden
  {
    var name := OpName(op);
    var state := if guiAttached then DecodeState(conf, name) else Hidden;
    if init.priority == 0 then Rejected(PriorityUnset)
    else if |init.params| == 0 then Rejected(EmptyParams)
    else Loaded(Module(id, name, so, 0, init.priority, 0, init.defaultEnabled, init.defaultEnabled,
                       state, init.params, blendDefaults, blendDefaults))
  }

  /** What `dt_iop_load_module_by_so` does to the configuration. With a GUI
      attached it decodes the panel state and hands it to
      `dt_iop_gui_set_state`, which writes both keys back before `init` runs,
      so this happens whether or not the instance is then refused. Only the
      `favorite` key can change: it is cleared when `visible` is not set. */
  function LoadConf(op: string, guiAttached: bool, conf: map<string, bool>): (r: map<string, bool>)
    ensures !guiAttached ==> r == conf
    ensures forall key :: key != FavoriteKey(OpName(op)) ==> GetBool(r, key) == GetBool(conf, key)
    ensures GetBool(r, FavoriteKey(OpName(op))) ==
              (GetBool(conf, FavoriteKey(OpName(op))) && (guiAttached ==> GetBool(conf, VisibleKey(OpName(op)))))
  {
    var name := OpName(op);
    if guiAttached then
      var r := EncodeState(conf, name, DecodeState(conf, name));
      assert forall key :: key != FavoriteKey(name) ==> GetBool(r, key) == GetBool(conf, key) by {
        forall key | key != FavoriteKey(name)
          ensures GetBool(r, key) == GetBool(conf, key)
        {
          ReencodeDecoded(conf, name, key);
        }
      }
      ReencodeDecoded(conf, name, FavoriteKey(name));
      r
    else conf
  }

  /** Loading leaves the panel state of every operation as it reads. */
  lemma LoadConfKeepsStates(op: string, guiAttached: bool, conf: map<string, bool>, other: string)
    ensures DecodeState(LoadConf(op, guiAttached, conf), other) == DecodeState(conf, other)
  {
    var name := OpName(op);
    var r := LoadConf(op, guiAttached, conf);
    VisibleNotFavorite(other, name);
    assert GetBool(r, VisibleKey(other)) == GetBool(conf, VisibleKey(other));
    if other != name {
      KeysInjective(other, name);
      assert GetBool(r, FavoriteKey(other)) == GetBool(conf, FavoriteKey(other));
    }
  }

  // ---------------------------------------------------------------------
  // simple_init
  // ---------------------------------------------------------------------

  /** An element of a declarative ("simple") GUI description, with its
      default value as the 32-bit word stored in the parameter block (a
      slider's default is a float, kept here as its bit pattern). The list
      ends with `Terminator` (`DT_SIMPLE_GUI_NONE`). */
  datatype SimpleElement =
    | Slider(defaultBits: bv32)
    | Combobox(defaultValue: bv32)
    | Button(defaultValue: bv32)
    | ToggleButton(defaultValue: bv32)
    | Terminator

  predicate Terminated(elements: seq<SimpleElement>)
  {
    exists k :: 0 <= k < |elements| && elements[k] == Terminator
  }

  /** The number of elements before the first terminator. */
  function ElementCount(elements: seq<SimpleElement>): (n: nat)
    requires Terminated(elements)
    ensures n < |elements| && elements[n] == Terminator
    ensures forall k :: 0 <= k < n ==> elements[k] != Terminator
  {
    if elements[0] == Terminator then 0
    else
      assert Terminated(elements[1..]) by {
        var k :| 0 <= k < |elements| && elements[k] == Terminator;
        assert elements[1..][k - 1] == Terminator;
      }
      1 + ElementCount(elements[1..])
  }

  /** The default word an element contributes. */
  function DefaultWord(e: SimpleElement): bv32
  {
    match e
    case Slider(bits) => bits
    case Combobox(v) => v
    case Button(v) => v
    case ToggleButton(v) => v
    case Terminator => 0
  }

  /** `simple_init`: without a simple GUI description the parameter block
      stays empty; otherwise it holds one 32-bit word per element before the
      terminator, `params_size` is four bytes per element, the live
      parameters are a copy of the defaults, and the module is not enabled by
      default. */
  method SimpleInit(gui: Option<seq<SimpleElement>>, defaultEnabledBefore: bool)
    returns (paramsSize: nat, defaults: seq<bv32>, params: seq<bv32>, defaultEnabled: bool)
    requires gui.Some? ==> Terminated(gui.value)
    ensures gui.None? ==> paramsSize == 0 && defaults == [] && params == [] && defaultEnabled == defaultEnabledBefore
    ensures gui.Some? ==> !defaultEnabled
    ensures gui.Some? ==> paramsSize == 4 * ElementCount(gui.value) && |defaults| == ElementCount(gui.value)
    ensures gui.Some? ==> forall k :: 0 <= k < |defaults| ==> defaults[k] == DefaultWord(gui.value[k])
    ensures params == defaults && paramsSize == 4 * |defaults|
  {
    if gui.None? {
      return 0, [], [], defaultEnabledBefore;
    }
    var elements := gui.value;
    defaultEnabled := false;
    var count := 0;
    while elements[count] != Terminator
      invariant 0 <= count <= ElementCount(elements)
      decreases ElementCount(elements) - count
    {
      count := count + 1;
    }
    assert count == ElementCount(elements);
    paramsSize := 4 * count;
    var p := new bv32[count];
    var i := 0;
    while elements[i] != Terminator
      invariant 0 <= i <= count == ElementCount(elements) == p.Length
      invariant forall k :: 0 <= k < i ==> p[k] == DefaultWord(elements[k])
      decreases count - i
    {
      match elements[i] {
        case Slider(bits) => p[i] := bits;
        case Combobox(v) => p[i] := v;
        case Button(v) => p[i] := v;
        case ToggleButton(v) => p[i] := v;
      }
      i := i + 1;
    }
    defaults := p[..];
    params := defaults;
  }

  /** A simple-GUI module whose `init` is `simple_init` gets a parameter
      block of four bytes per element and is not enabled by default. Loading
      it (with its priority set) is refused exactly when the description has
      no elements before the terminator; otherwise it loads disabled. */
  lemma EmptySimpleGuiRefused(elements: seq<SimpleElement>, params: seq<byte>, id: nat, so: nat, op: string,
                              priority: int, guiAttached: bool, conf: map<string, bool>, blendDefaults: seq<byte>)
    requires Terminated(elements) && |params| == 4 * ElementCount(elements)
    requires priority != 0
    ensures var r := LoadModuleBySo(id, so, op, InitOutcome(priority, params, false), guiAttached, conf, blendDefaults);
            (r == Rejected(EmptyParams) <==> elements[0] == Terminator) &&
            (r.Loaded? ==> !r.created.enabled)
  {
    if ElementCount(elements) > 0 {
      assert elements[0] != Terminator;
    }
  }

  // ---------------------------------------------------------------------
  // dt_iop_load_modules
  // ---------------------------------------------------------------------

  /** One descriptor of `darktable.iop` with what `init` does for it. */
  datatype Descriptor = Descriptor(op: string, init: InitOutcome)

  predicate Loads(d: Descriptor)
  {
    d.init.priority != 0 && |d.init.params| > 0
  }

  /** The loop of `dt_iop_load_modules` as written: on a failed load the
      descriptor cursor is not advanced, so the same descriptor is tried
      again. */
  function NextDescriptorAsWritten(descs: seq<Descriptor>, k: nat): nat
    requires k < |descs|
  {
    if Loads(descs[k]) then k + 1 else k
  }

  function AfterSteps(descs: seq<Descriptor>, k: nat, n: nat): (r: nat)
    requires k <= |descs|
    ensures r <= |descs|
    decreases n
  {
    if n == 0 || k == |descs| then k else AfterSteps(descs, NextDescriptorAsWritten(descs, k), n - 1)
  }

  /** Once a descriptor fails to load, the loop as written never gets past
      it: after any number of iterations the cursor is still there. */
  lemma {:induction false} LoadModulesStalls(descs: seq<Descriptor>, k: nat, n: nat)
    requires k < |descs| && !Loads(descs[k])
    ensures AfterSteps(descs, k, n) == k
  {
    if n > 0 {
      LoadModulesStalls(descs, k, n - 1);
    }
  }

  /** The modules a load produces, before numbering: descriptor `k` gives
      identity `k`. */
  function LoadedAt(descs: seq<Descriptor>, k: nat, guiAttached: bool, conf: map<string, bool>,
                    blendDefaults: seq<byte>): Loaded
    requires k < |descs|
  {
    LoadModuleBySo(k, k, descs[k].op, descs[k].init, guiAttached, conf, blendDefaults)
  }

  /** The configuration after the descriptors have been loaded in turn. */
  function ConfAfterLoads(descs: seq<Descriptor>, guiAttached: bool, conf: map<string, bool>): map<string, bool>
    decreases |descs|
  {
    if descs == [] then conf
    else LoadConf(descs[|descs| - 1].op, guiAttached, ConfAfterLoads(descs[..|descs| - 1], guiAttached, conf))
  }

  /** However many modules are loaded, every operation's panel state reads
      as it did before. */
  lemma {:induction false} LoadsKeepStates(descs: seq<Descriptor>, guiAttached: bool, conf: map<string, bool>, other: string)
    ensures DecodeState(ConfAfterLoads(descs, guiAttached, conf), other) == DecodeState(conf, other)
    decreases |descs|
  {
    if descs != [] {
      var n := |descs| - 1;
      LoadsKeepStates(descs[..n], guiAttached, conf, other);
      LoadConfKeepsStates(descs[n].op, guiAttached, ConfAfterLoads(descs[..n], guiAttached, conf), other);
    }
  }

  /** A key that is not the `favorite` key of a loaded operation keeps its
      value. */
  lemma {:induction false} LoadsKeepOtherKeys(descs: seq<Descriptor>, guiAttached: bool, conf: map<string, bool>, key: string)
    requires forall k :: 0 <= k < |descs| ==> key != FavoriteKey(OpName(descs[k].op))
    ensures GetBool(ConfAfterLoads(descs, guiAttached, conf), key) == GetBool(conf, key)
    decreases |descs|
  {
    if descs != [] {
      var n := |descs| - 1;
      assert forall k :: 0 <= k < n ==> descs[..n][k] == descs[k];
      LoadsKeepOtherKeys(descs[..n], guiAttached, conf, key);
    }
  }

  /** The operation names of the descriptors. */
  function NamesOf(descs: seq<Descriptor>): set<string>
  {
    set k | 0 <= k < |descs| :: OpName(descs[k].op)
  }

  lemma NamesOfStep(descs: seq<Descriptor>)
    requires descs != []
    ensures NamesOf(descs) == NamesOf(descs[..|descs| - 1]) + {OpName(descs[|descs| - 1].op)}
  {
    var n := |descs| - 1;
    forall x | x in NamesOf(descs) ensures x in NamesOf(descs[..n]) + {OpName(descs[n].op)} {
      var k :| 0 <= k < |descs| && OpName(descs[k].op) == x;
      if k < n {
        assert descs[..n][k] == descs[k];
      }
    }
    forall x | x in NamesOf(descs[..n]) ensures x in NamesOf(descs) {
      var k :| 0 <= k < n && OpName(descs[..n][k].op) == x;
      assert descs[..n][k] == descs[k];
    }
  }

  /** With a GUI attached, after the loads an operation's `favorite` flag is
      set exactly when it was set before and, if one of the descriptors
      loads that operation, its `visible` flag was set: a favourite left on a
      hidden operation is lost. */
  lemma {:induction false} LoadsClearHiddenFavorites(descs: seq<Descriptor>, conf: map<string, bool>, name: string)
    ensures GetBool(ConfAfterLoads(descs, true, conf), FavoriteKey(name)) ==
              (GetBool(conf, FavoriteKey(name)) && (name in NamesOf(descs) ==> GetBool(conf, VisibleKey(name))))
    decreases |descs|
  {
    if descs != [] {
      var n := |descs| - 1;
      LoadsClearHiddenFavorites(descs[..n], conf, name);
      LastLoadFavorite(descs, conf, name);
      NamesOfStep(descs);
    }
  }

  /** The last load of a sequence changes an operation's `favorite` key only
      when it loads that operation, and then clears it unless the operation
      was visible. */
  lemma LastLoadFavorite(descs: seq<Descriptor>, conf: map<string, bool>, name: string)
    requires descs != []
    ensures var n := |descs| - 1;
            GetBool(ConfAfterLoads(descs, true, conf), FavoriteKey(name)) ==
              (GetBool(ConfAfterLoads(descs[..n], true, conf), FavoriteKey(name)) &&
               (name == OpName(descs[n].op) ==> GetBool(conf, VisibleKey(name))))
  {
    var n := |descs| - 1;
    var c := ConfAfterLoads(descs[..n], true, conf);
    LoadsKeepStates(descs[..n], true, conf, name);
    assert GetBool(c, VisibleKey(name)) == GetBool(conf, VisibleKey(name));
    if name != OpName(descs[n].op) {
      KeysInjective(name, OpName(descs[n].op));
    }
  }

  /** `dt_iop_load_modules`, with a failed descriptor skipped: every module
      that loads is inserted with `g_list_insert_sorted`, then the list is
      numbered from 0 in pipeline order. */
  method LoadModules(descs: seq<Descriptor>, guiAttached: bool, conf: map<string, bool>, blendDefaults: seq<byte>)
    returns (res: seq<Module>, confOut: map<string, bool>)
    ensures confOut == ConfAfterLoads(descs, guiAttached, conf)
    ensures Sorted(res)
    ensures IdsOf(res) == set k | 0 <= k < |descs| && Loads(descs[k])
    ensures forall k :: 0 <= k < |res| ==> res[k].instance == k && res[k].multiPriority == 0
    ensures forall k :: 0 <= k < |res| ==> (res[k].id < |descs| &&
              LoadedAt(descs, res[k].id, guiAttached, conf, blendDefaults).Loaded? &&
              res[k] == LoadedAt(descs, res[k].id, guiAttached, conf, blendDefaults).created.(instance := k))
  {
    var before;
    before, confOut := InsertLoadable(descs, guiAttached, conf, blendDefaults);
    assert forall j :: 0 <= j < |before| ==> before[j] in before;
    res := NumberInstances(before);
    assert SameKeys(res, before);
    SameKeysKeepSorted(res, before);
    assert IdsOf(res) == IdsOf(before) by {
      forall m | m in IdsOf(res) ensures m in IdsOf(before) {
        var j :| 0 <= j < |res| && res[j].id == m;
        assert before[j].id == m;
      }
      forall m | m in IdsOf(before) ensures m in IdsOf(res) {
        var j :| 0 <= j < |before| && before[j].id == m;
        assert res[j].id == m;
      }
    }
  }

  /** The first loop of `dt_iop_load_modules`: each descriptor that loads
      contributes its module, inserted in pipeline order. */
  method InsertLoadable(descs: seq<Descriptor>, guiAttached: bool, conf: map<string, bool>, blendDefaults: seq<byte>)
    returns (res: seq<Module>, confOut: map<string, bool>)
    ensures confOut == ConfAfterLoads(descs, guiAttached, conf)
    ensures Sorted(res)
    ensures IdsOf(res) == set k | 0 <= k < |descs| && Loads(descs[k])
    ensures forall m :: m in res ==> (m.id < |descs| &&
              LoadedAt(descs, m.id, guiAttached, conf, blendDefaults).Loaded? &&
              m == LoadedAt(descs, m.id, guiAttached, conf, blendDefaults).created)
  {
    res := [];
    confOut := conf;
    var d := 0;
    while d < |descs|
      invariant 0 <= d <= |descs|
      invariant confOut == ConfAfterLoads(descs[..d], guiAttached, conf)
      invariant InsertedUpTo(descs, d, guiAttached, conf, blendDefaults, res)
    {
      LoadStep(descs, d, guiAttached, conf, blendDefaults);
      InsertStep(descs, d, guiAttached, conf, blendDefaults, res);
      var r := LoadModuleBySo(d, d, descs[d].op, descs[d].init, guiAttached, confOut, blendDefaults);
      confOut := LoadConf(descs[d].op, guiAttached, confOut);
      if r.Loaded? {
        res := InsertSorted(res, r.created);
      }
      d := d + 1;
    }
    assert descs[..|descs|] == descs;
  }

  /** One iteration of the first loop: the instance is decoded from the
      configuration the earlier loads left, which reads as the original one,
      and the configuration then takes this load's rewrite. */
  lemma LoadStep(descs: seq<Descriptor>, d: nat, guiAttached: bool, conf: map<string, bool>, blendDefaults: seq<byte>)
    requires d < |descs|
    ensures LoadModuleBySo(d, d, descs[d].op, descs[d].init, guiAttached, ConfAfterLoads(descs[..d], guiAttached, conf), blendDefaults)
              == LoadedAt(descs, d, guiAttached, conf, blendDefaults)
    ensures ConfAfterLoads(descs[..d + 1], guiAttached, conf) ==
              LoadConf(descs[d].op, guiAttached, ConfAfterLoads(descs[..d], guiAttached, conf))
  {
    LoadsKeepStates(descs[..d], guiAttached, conf, OpName(descs[d].op));
    assert descs[..d + 1][..d] == descs[..d];
  }

  /** What the first loop has built after `d` descriptors: a sorted list of
      exactly the instances of those that load. */
  ghost predicate InsertedUpTo(descs: seq<Descriptor>, d: nat, guiAttached: bool, conf: map<string, bool>,
                               blendDefaults: seq<byte>, res: seq<Module>)
    requires d <= |descs|
  {
    Sorted(res) &&
    IdsOf(res) == (set k | 0 <= k < d && Loads(descs[k])) &&
    forall m :: m in res ==> (m.id < d &&
      LoadedAt(descs, m.id, guiAttached, conf, blendDefaults).Loaded? &&
      m == LoadedAt(descs, m.id, guiAttached, conf, blendDefaults).created)
  }

  /** One iteration of the first loop keeps `InsertedUpTo`. */
  lemma InsertStep(descs: seq<Descriptor>, d: nat, guiAttached: bool, conf: map<string, bool>,
                   blendDefaults: seq<byte>, res: seq<Module>)
    requires d < |descs| && InsertedUpTo(descs, d, guiAttached, conf, blendDefaults, res)
    ensures var r := LoadedAt(descs, d, guiAttached, conf, blendDefaults);
            InsertedUpTo(descs, d + 1, guiAttached, conf, blendDefaults, if r.Loaded? then InsertSorted(res, r.created) else res)
  {
    var r := LoadedAt(descs, d, guiAttached, conf, blendDefaults);
    LoadableStep(descs, d);
    if r.Loaded? {
      InsertSortedSorted(res, r.created);
      InsertedFrom(res, r.created);
      InsertedIds(res, r.created);
    }
  }

  /** The descriptors that load, among the first `d + 1`. */
  lemma LoadableStep(descs: seq<Descriptor>, d: nat)
    requires d < |descs|
    ensures (set k | 0 <= k < d + 1 && Loads(descs[k])) ==
            (set k | 0 <= k < d && Loads(descs[k])) + (if Loads(descs[d]) then {d} else {})
  {
  }

  /** The second loop of `dt_iop_load_modules`: walking the sorted list, the
      `k`-th module gets instance number `k`; nothing else changes. */
  method NumberInstances(before: seq<Module>) returns (res: seq<Module>)
    ensures |res| == |before|
    ensures forall j :: 0 <= j < |res| ==> res[j] == before[j].(instance := j)
  {
    res := before;
    var k := 0;
    while k < |res|
      invariant 0 <= k <= |res| == |before|
      invariant forall j :: 0 <= j < |res| ==> res[j] == (if j < k then before[j].(instance := j) else before[j])
    {
      res := res[k := res[k].(instance := k)];
      k := k + 1;
    }
  }

  /** Where each element of an insertion's result comes from. */
  lemma InsertedPositions(s: seq<Module>, x: Module) returns (p: nat)
    ensures p <= |s| && |InsertSorted(s, x)| == |s| + 1
    ensures forall k :: 0 <= k < p ==> InsertSorted(s, x)[k] == s[k]
    ensures InsertSorted(s, x)[p] == x
    ensures forall k :: p < k <= |s| ==> InsertSorted(s, x)[k] == s[k - 1]
  {
    InsertSortedAt(s, x);
    p := InsertionPoint(s, x);
  }

  /** Insertion adds `x` and keeps every element already there. */
  lemma InsertedFrom(s: seq<Module>, x: Module)
    ensures forall m :: m in InsertSorted(s, x) <==> m in s || m == x
  {
    var p := InsertedPositions(s, x);
    var r := InsertSorted(s, x);
    forall m ensures m in r <==> m in s || m == x {
      if m in r {
        var k :| 0 <= k < |r| && r[k] == m;
        if k < p { assert s[k] == m; } else if k > p { assert s[k - 1] == m; }
      }
      if m in s {
        var k :| 0 <= k < |s| && s[k] == m;
        assert r[if k < p then k else k + 1] == m;
      }
    }
  }

  /** The identities of a concatenation are those of its parts. */
  lemma IdsOfConcat(a: seq<Module>, b: seq<Module>)
    ensures IdsOf(a + b) == IdsOf(a) + IdsOf(b)
  {
    var c := a + b;
    forall m | m in IdsOf(c) ensures m in IdsOf(a) + IdsOf(b) {
      var k :| 0 <= k < |c| && c[k].id == m;
      if k < |a| {
        assert a[k] == c[k];
      } else {
        assert b[k - |a|] == c[k];
      }
    }
    forall m | m in IdsOf(a) + IdsOf(b) ensures m in IdsOf(c) {
      if m in IdsOf(a) {
        var k :| 0 <= k < |a| && a[k].id == m;
        assert c[k] == a[k];
      } else {
        var k :| 0 <= k < |b| && b[k].id == m;
        assert c[k + |a|] == b[k];
      }
    }
  }

  lemma InsertedIds(s: seq<Module>, x: Module)
    ensures IdsOf(InsertSorted(s, x)) == IdsOf(s) + {x.id}
  {
    var p := InsertionPoint(s, x);
    var a, b := s[..p], s[p..];
    assert InsertSorted(s, x) == a + [x] + b by {
      InsertSortedAt(s, x);
    }
    assert a + b == s;
    IdsOfSplice(a, x, b);
  }

  /** Putting `x` between two parts adds exactly its identity. */
  lemma IdsOfSplice(a: seq<Module>, x: Module, b: seq<Module>)
    ensures IdsOf(a + [x] + b) == IdsOf(a + b) + {x.id}
  {
    IdsOfConcat(a + [x], b);
    IdsOfConcat(a, [x]);
    IdsOfConcat(a, b);
    assert IdsOf([x]) == {x.id} by {
      assert [x][0].id == x.id;
    }
  }

  lemma SameKeysKeepSorted(r: seq<Module>, t: seq<Module>)
    requires SameKeys(r, t) && Sorted(t)
    ensures Sorted(r)
  {
    forall a, b | 0 <= a < b < |r| ensures !Precedes(r[b], r[a]) {
      assert SameKey(r[a], t[a]) && SameKey(r[b], t[b]);
    }
  }

  /** When the loaded operations have pairwise different priorities, the
      freshly loaded list satisfies the session invariant: strictly ordered,
      one group per operation, every multi-priority 0. */
  lemma LoadedListValid(res: seq<Module>)
    requires Sorted(res)
    requires forall k :: 0 <= k < |res| ==> res[k].instance == k && res[k].multiPriority == 0
    requires forall a, b :: 0 <= a < b < |res| ==> res[a].priority != res[b].priority
    requires forall a, b :: 0 <= a < b < |res| ==> res[a].id != res[b].id
    ensures ValidIops(res)
  {
    forall a, b | 0 <= a < b < |res| ensures Precedes(res[a], res[b]) {
      assert !Precedes(res[b], res[a]);
    }
  }

  // ---------------------------------------------------------------------
  // dt_iop_is_hidden
  // ---------------------------------------------------------------------

  /** A module is hidden when its flags say so, and also when it lacks a GUI
      constructor (`gui_init` or `gui_init_simple`) or a GUI destructor. */
  function IsHidden(flagHidden: bool, hasGuiInit: bool, hasGuiInitSimple: bool, hasGuiCleanup: bool): (r: bool)
    ensures !r <==> !flagHidden && (hasGuiInit || hasGuiInitSimple) && hasGuiCleanup
  {
    var hidden := true;
    if !flagHidden then
      if !hasGuiInit && !hasGuiInitSimple then hidden
      else if !hasGuiCleanup then hidden
      else false
    else hidden
  }

  // ---------------------------------------------------------------------
  // dt_iop_module_colorspace
  // ---------------------------------------------------------------------

  datatype Colorspace = Raw | Lab | Rgb

  /** The remembered priorities of `demosaic`, `colorout` and `colorin`; 0
      means not yet known. */
  datatype ColorCache = ColorCache(demosaic: int, colorout: int, colorin: int)

  function Remember(c: ColorCache, m: Module): (r: ColorCache)
    ensures m.op == "colorin" ==> r == c.(colorin := m.priority)
    ensures m.op == "colorout" ==> r == c.(colorout := m.priority)
    ensures m.op == "demosaic" ==> r == c.(demosaic := m.priority)
    ensures m.op != "colorin" && m.op != "colorout" && m.op != "demosaic" ==> r == c
  {
    if m.op == "colorin" then c.(colorin := m.priority)
    else if m.op == "colorout" then c.(colorout := m.priority)
    else if m.op == "demosaic" then c.(demosaic := m.priority)
    else c
  }

  predicate Complete(c: ColorCache)
  {
    c.colorout != 0 && c.colorin != 0 && c.demosaic != 0
  }

  /** The scan of the module list from position `k`: every module other
      than `self` updates the cache, and the scan stops as soon as all three
      priorities are known. */
  function Scan(s: seq<Module>, self: nat, c: ColorCache, k: nat): ColorCache
    requires k <= |s|
    decreases |s| - k
  {
    if k == |s| then c
    else
      var c' := if s[k].id != self then Remember(c, s[k]) else c;
      if Complete(c') then c' else Scan(s, self, c', k + 1)
  }

  /** The classification once the cache is filled: after `colorout` the
      pipeline is in RGB, after `colorin` in Lab, before `demosaic` in raw,
      and anything else falls back to RGB. */
  function Classify(p: int, c: ColorCache): (r: Colorspace)
    ensures r == Lab <==> c.colorin < p <= c.colorout
    ensures r == Raw <==> p <= c.colorout && p <= c.colorin && p < c.demosaic
  {
    if p > c.colorout then Rgb
    else if p > c.colorin then Lab
    else if p < c.demosaic then Raw
    else Rgb
  }

  /** The cache holds the priority of the module with each of the three
      names when each name belongs to exactly one module other than `self`
      and all three priorities are non-zero. */
  predicate Holds(s: seq<Module>, self: nat, name: string, p: int)
  {
    exists k :: 0 <= k < |s| && s[k].id != self && s[k].op == name && s[k].priority == p
  }

  predicate UniqueName(s: seq<Module>, self: nat, name: string)
  {
    forall a, b :: (0 <= a < |s| && 0 <= b < |s| && s[a].id != self && s[b].id != self &&
      s[a].op == name && s[b].op == name) ==> a == b
  }

  /** What the cache holds for one name after the scan has seen the
      positions before `k`: that module's priority if it was seen, else 0. */
  function Expected(s: seq<Module>, self: nat, name: string, k: nat): int
    requires k <= |s|
    decreases k
  {
    if k == 0 then 0
    else if s[k - 1].id != self && s[k - 1].op == name then s[k - 1].priority
    else Expected(s, self, name, k - 1)
  }

  lemma ExpectedFound(s: seq<Module>, self: nat, name: string, p: int, k: nat)
    requires k <= |s| && UniqueName(s, self, name)
    requires exists j :: 0 <= j < k && s[j].id != self && s[j].op == name && s[j].priority == p
    ensures Expected(s, self, name, k) == p
  {
    if s[k - 1].id != self && s[k - 1].op == name {
    } else {
      var j :| 0 <= j < k && s[j].id != self && s[j].op == name && s[j].priority == p;
      assert j < k - 1;
      ExpectedFound(s, self, name, p, k - 1);
    }
  }

  lemma {:induction false} ScanState(s: seq<Module>, self: nat, k: nat, c: ColorCache)
    requires k <= |s|
    requires c == ColorCache(Expected(s, self, "demosaic", k), Expected(s, self, "colorout", k), Expected(s, self, "colorin", k))
    ensures Scan(s, self, c, k) == ColorCache(Expected(s, self, "demosaic", |s|), Expected(s, self, "colorout", |s|),
                                             Expected(s, self, "colorin", |s|))
            || Complete(Scan(s, self, c, k))
    decreases |s| - k
  {
    if k < |s| {
      var c' := if s[k].id != self then Remember(c, s[k]) else c;
      assert c' == ColorCache(Expected(s, self, "demosaic", k + 1), Expected(s, self, "colorout", k + 1),
                              Expected(s, self, "colorin", k + 1));
      if !Complete(c') {
        ScanState(s, self, k + 1, c');
      }
    }
  }

  /** Starting from an empty cache, the scan finds the priorities of
      `colorin`, `colorout` and `demosaic`. */
  lemma ScanFindsPriorities(s: seq<Module>, self: nat, pin: int, pout: int, pdem: int)
    requires pin != 0 && pout != 0 && pdem != 0
    requires Holds(s, self, "colorin", pin) && UniqueName(s, self, "colorin")
    requires Holds(s, self, "colorout", pout) && UniqueName(s, self, "colorout")
    requires Holds(s, self, "demosaic", pdem) && UniqueName(s, self, "demosaic")
    ensures Scan(s, self, ColorCache(0, 0, 0), 0) == ColorCache(pdem, pout, pin)
  {
    ExpectedFound(s, self, "colorin", pin, |s|);
    ExpectedFound(s, self, "colorout", pout, |s|);
    ExpectedFound(s, self, "demosaic", pdem, |s|);
    ScanState(s, self, 0, ColorCache(0, 0, 0));
    ScanComplete(s, self, ColorCache(0, 0, 0), 0, pin, pout, pdem);
  }

  /** Where the scan stops early, all three entries already have their final
      values. */
  lemma {:induction false} ScanComplete(s: seq<Module>, self: nat, c: ColorCache, k: nat, pin: int, pout: int, pdem: int)
    requires k <= |s|
    requires c == ColorCache(Expected(s, self, "demosaic", k), Expected(s, self, "colorout", k), Expected(s, self, "colorin", k))
    requires pin != 0 && pout != 0 && pdem != 0
    requires UniqueName(s, self, "colorin") && UniqueName(s, self, "colorout") && UniqueName(s, self, "demosaic")
    requires Expected(s, self, "colorin", |s|) == pin && Expected(s, self, "colorout", |s|) == pout
    requires Expected(s, self, "demosaic", |s|) == pdem
    ensures Scan(s, self, c, k) == ColorCache(pdem, pout, pin)
    decreases |s| - k
  {
    if k < |s| {
      var c' := if s[k].id != self then Remember(c, s[k]) else c;
      assert c' == ColorCache(Expected(s, self, "demosaic", k + 1), Expected(s, self, "colorout", k + 1),
                              Expected(s, self, "colorin", k + 1));
      if Complete(c') {
        ExpectedStable(s, self, "colorin", k + 1);
        ExpectedStable(s, self, "colorout", k + 1);
        ExpectedStable(s, self, "demosaic", k + 1);
      } else {
        ScanComplete(s, self, c', k + 1, pin, pout, pdem);
      }
    }
  }

  /** Once a uniquely named module has been seen, its entry no longer
      changes. */
  lemma ExpectedStable(s: seq<Module>, self: nat, name: string, k: nat)
    requires k <= |s| && UniqueName(s, self, name) && Expected(s, self, name, k) != 0
    ensures Expected(s, self, name, |s|) == Expected(s, self, name, k)
  {
    var j := FoundAt(s, self, name, k);
    ExpectedFound(s, self, name, s[j].priority, |s|);
  }

  lemma FoundAt(s: seq<Module>, self: nat, name: string, k: nat) returns (j: nat)
    requires k <= |s| && Expected(s, self, name, k) != 0
    ensures j < k && s[j].id != self && s[j].op == name && s[j].priority == Expected(s, self, name, k)
  {
    if s[k - 1].id != self && s[k - 1].op == name {
      j := k - 1;
    } else {
      j := FoundAt(s, self, name, k - 1);
    }
  }

  /** `dt_iop_module_colorspace`: fill the cache by scanning the list if
      neither `colorout` nor `colorin` is known yet, then classify. */
  method ModuleColorspace(s: seq<Module>, self: Module, cache: ColorCache) returns (cs: Colorspace, cache': ColorCache)
    ensures cache' == (if cache.colorout == 0 && cache.colorin == 0 then Scan(s, self.id, cache, 0) else cache)
    ensures cs == Classify(self.priority, cache')
  {
    cache' := cache;
    if cache.colorout == 0 && cache.colorin == 0 {
      var k := 0;
      while k < |s|
        invariant 0 <= k <= |s|
        invariant Scan(s, self.id, cache, 0) == Scan(s, self.id, cache', k)
        decreases |s| - k
      {
        var m := s[k];
        if m.id != self.id {
          if m.op == "colorin" {
            cache' := cache'.(colorin := m.priority);
          } else if m.op == "colorout" {
            cache' := cache'.(colorout := m.priority);
          } else if m.op == "demosaic" {
            cache' := cache'.(demosaic := m.priority);
          }
        }
        if cache'.colorout != 0 && cache'.colorin != 0 && cache'.demosaic != 0 {
          break;
        }
        k := k + 1;
      }
    }
    if self.priority > cache'.colorout {
      cs := Rgb;
    } else if self.priority > cache'.colorin {
      cs := Lab;
    } else if self.priority < cache'.demosaic {
      cs := Raw;
    } else {
      cs := Rgb;
    }
  }
}
