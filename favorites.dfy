/** The favourites panel of the darkroom (`src/libs/favoritestoggle.cc`) and
    the logic its grid variant (`favoritestoggle.cpp`) shares with it: reading
    a preset name back from a menu label, the toggle decision for a selection,
    applying a preset to a module instance, the preset menu, and the button
    layout together with the check that decides when the panel is rebuilt.

    Each image's edit is represented by the module list that loading its
    history produces (`load_develop`) and that `save_and_cleanup` writes back;
    a `Library` maps image ids to those lists. */
module Favorites {
  import opened IopTypes
  import opened Visibility
  import Commit

  // ---------------------------------------------------------------------
  // Preset names read back from menu labels (`get_preset_name`)
  // ---------------------------------------------------------------------

  /** The first position at or after `from` that holds `c`, or `|s|`. */
  function Find(s: string, c: char, from: nat): (k: nat)
    requires from <= |s|
    ensures from <= k <= |s|
    ensures forall j :: from <= j < k ==> s[j] != c
    ensures k < |s| ==> s[k] == c
    decreases |s| - from
  {
    if from == |s| || s[from] == c then from else Find(s, c, from + 1)
  }

  /** The routine's own demand on its label: when there is a `<`, a `>`
      follows it (otherwise the C scan runs off the end of the string). */
  predicate TagClosed(text: string)
  {
    Find(text, '<', 0) < |text| ==> Find(text, '>', Find(text, '<', 0)) < |text|
  }

  /** Everything after the first `>` that follows the first `<`; the whole
      label when there is no `<`. */
  function StripLeadingTag(text: string): (r: string)
    requires TagClosed(text)
    ensures |r| <= |text|
  {
    var open := Find(text, '<', 0);
    if open == |text| then text else text[Find(text, '>', open) + 1..]
  }

  predicate OccursAt(s: string, pat: string, p: int)
  {
    0 <= p && p + |pat| <= |s| && s[p..p + |pat|] == pat
  }

  function LastOccurrenceUpTo(s: string, pat: string, p: int): (r: Option<nat>)
    ensures r.Some? ==> r.value <= p && OccursAt(s, pat, r.value)
    ensures r.Some? ==> forall q :: r.value < q <= p ==> !OccursAt(s, pat, q)
    ensures r.None? ==> forall q :: q <= p ==> !OccursAt(s, pat, q)
    decreases p + 1
  {
    if p < 0 then None
    else if OccursAt(s, pat, p) then Some(p)
    else LastOccurrenceUpTo(s, pat, p - 1)
  }

  /** `g_strrstr`: where the last occurrence of `pat` in `s` starts. */
  function LastOccurrence(s: string, pat: string): (r: Option<nat>)
    ensures r.Some? ==> OccursAt(s, pat, r.value)
    ensures r.Some? ==> forall q :: r.value < q ==> !OccursAt(s, pat, q)
    ensures r.None? ==> forall q :: !OccursAt(s, pat, q)
  {
    LastOccurrenceUpTo(s, pat, |s| - |pat|)
  }

  /** The marker the darkroom appends to the label of a default preset. */
  const DefaultMarker: string := "(default)"

  /** Cuts the name one character before the last marker, unless the marker
      starts the name. */
  function DropDefault(name: string): (r: string)
    ensures |r| <= |name| && r == name[..|r|]
  {
    match LastOccurrence(name, DefaultMarker)
    case Some(p) => if p > 0 then name[..p - 1] else name
    case None => name
  }

  /** The preset name a menu label stands for: the leading `<…>` tag removed,
      the text cut at the next `<`, and a trailing "(default)" marker dropped
      together with the character before it. */
  function PresetNameSpec(text: string): (r: string)
    requires TagClosed(text)
    ensures '<' !in r
    ensures |r| <= |text|
  {
    var body := StripLeadingTag(text);
    var name := body[..Find(body, '<', 0)];
    var r := DropDefault(name);
    assert forall j :: 0 <= j < |r| ==> r[j] == name[j];
    r
  }

  /** The scan `while(*c && *c != ch) c++` from the start of `s`. */
  method ScanTo(s: string, ch: char) returns (k: nat)
    ensures k == Find(s, ch, 0)
  {
    k := 0;
    while k < |s| && s[k] != ch
      invariant k <= |s|
      invariant forall j :: 0 <= j < k ==> s[j] != ch
    {
      k := k + 1;
    }
  }

  /** The scan `while(*c != '>') c++; c++;` from an opening `<`, which
      relies on a `>` following it. */
  method SkipTag(text: string, open: nat) returns (c: nat)
    requires open <= |text| && Find(text, '>', open) < |text|
    ensures c == Find(text, '>', open) + 1
  {
    ghost var close := Find(text, '>', open);
    c := open;
    while text[c] != '>'
      invariant open <= c <= close
      decreases close - c
    {
      c := c + 1;
    }
    c := c + 1;
  }

  /** `get_preset_name`: its pointer scans over the label. */
  method PresetName(text: string) returns (pn: string)
    requires TagClosed(text)
    ensures pn == PresetNameSpec(text)
  {
    var c := ScanTo(text, '<');
    if c == |text| {
      c := 0;
    }
    if c < |text| && text[c] == '<' {
      c := SkipTag(text, c);
    }
    pn := text[c..];
    assert pn == StripLeadingTag(text);
    var c2 := ScanTo(pn, '<');
    pn := pn[..c2];
    var last := LastOccurrence(pn, DefaultMarker);
    if last.Some? && last.value > 0 {
      pn := pn[..last.value - 1];
    }
  }

  lemma NoOpenMeansWhole(s: string)
    requires '<' !in s
    ensures Find(s, '<', 0) == |s| && TagClosed(s)
  {
  }

  /** A label without markup and without a "(default)" marker past its start
      is the preset name itself. */
  lemma PlainLabelKept(name: string)
    requires '<' !in name
    requires forall q :: 0 < q ==> !OccursAt(name, DefaultMarker, q)
    ensures TagClosed(name) && PresetNameSpec(name) == name
  {
    NoOpenMeansWhole(name);
    assert name[..|name|] == name;
  }

  /** The darkroom's "name (default)" label yields the name. */
  lemma DefaultMarkerDropped(name: string)
    requires '<' !in name
    ensures TagClosed(name + " (default)") && PresetNameSpec(name + " (default)") == name
  {
    var text := name + " (default)";
    NoOpenMeansWhole(text);
    assert text[..|text|] == text;
    var p := |name| + 1;
    assert text[p..p + |DefaultMarker|] == DefaultMarker;
    assert OccursAt(text, DefaultMarker, p);
    var last := LastOccurrence(text, DefaultMarker);
    assert last == Some(p);
    assert text[..p - 1] == name;
  }

  /** A leading `<…>` tag and everything from the following `<` on are
      dropped: a label marked up as bold reads back as the bare name. */
  lemma MarkupDropped(attrs: string, name: string, rest: string)
    requires '<' !in attrs && '>' !in attrs && '<' !in name
    ensures TagClosed(name)
    ensures TagClosed("<" + attrs + ">" + name + "<" + rest)
    ensures PresetNameSpec("<" + attrs + ">" + name + "<" + rest) == PresetNameSpec(name)
  {
    NoOpenMeansWhole(name);
    assert name[..|name|] == name;
    var body := name + "<" + rest;
    var text := "<" + attrs + ">" + body;
    assert text == "<" + attrs + ">" + name + "<" + rest;
    var close := |attrs| + 1;
    FindIs(text, '<', 0, 0);
    forall j | 0 <= j < close
      ensures text[j] != '>'
    {
      if j > 0 {
        assert text[j] == attrs[j - 1];
      }
    }
    FindIs(text, '>', 0, close);
    assert text[close + 1..] == body;
    forall j | 0 <= j < |name|
      ensures body[j] != '<'
    {
      assert body[j] == name[j];
    }
    FindIs(body, '<', 0, |name|);
    assert body[..|name|] == name;
  }

  /** `Find` stops at the first match. */
  lemma FindIs(s: string, c: char, from: nat, k: nat)
    requires from <= k < |s| && s[k] == c
    requires forall j :: from <= j < k ==> s[j] != c
    ensures Find(s, c, from) == k
  {
  }

  // ---------------------------------------------------------------------
  // The preset menu (`prepare_presets_popup_menu`)
  // ---------------------------------------------------------------------

  /** A preset of the module's operation: its name and the module version it
      was saved for. */
  datatype PresetEntry = PresetEntry(name: string, version: int)

  /** A menu entry. `pick` is `None` for an insensitive entry; otherwise
      activating it applies the preset to the selection, duplicating each
      image first when the flag is set. */
  datatype MenuItem = MenuItem(caption: string, pick: Option<bool>)

  const NoPresets: string := "no presets"

  function Item(p: PresetEntry, version: int, duplicate: bool): MenuItem
  {
    MenuItem(p.name, if p.version == version then Some(duplicate) else None)
  }

  /** The menu for a module of version `version`: one entry per preset in
      the given order, usable exactly when the preset's version is the
      module's, and a single insensitive "no presets" entry when there are
      none. */
  function MenuItems(presets: seq<PresetEntry>, version: int, duplicate: bool): (items: seq<MenuItem>)
    ensures |items| == if presets == [] then 1 else |presets|
    ensures presets == [] ==> items == [MenuItem(NoPresets, None)]
    ensures forall k :: 0 <= k < |presets| ==> items[k].caption == presets[k].name
    ensures forall k :: 0 <= k < |presets| ==> (items[k].pick.Some? <==> presets[k].version == version)
    ensures forall k :: 0 <= k < |presets| && items[k].pick.Some? ==> items[k].pick.value == duplicate
  {
    if presets == [] then [MenuItem(NoPresets, None)]
    else seq(|presets|, k requires 0 <= k < |presets| => Item(presets[k], version, duplicate))
  }

  /** The loop over the preset rows, counting them. */
  method PresetMenu(presets: seq<PresetEntry>, version: int, duplicate: bool) returns (items: seq<MenuItem>)
    ensures items == MenuItems(presets, version, duplicate)
  {
    items := [];
    var cnt := 0;
    while cnt < |presets|
      invariant cnt <= |presets|
      invariant |items| == cnt
      invariant forall k :: 0 <= k < cnt ==> items[k] == Item(presets[k], version, duplicate)
    {
      var p := presets[cnt];
      var mi := MenuItem(p.name, None);
      if p.version == version {
        mi := mi.(pick := Some(duplicate));
      }
      items := items + [mi];
      cnt := cnt + 1;
    }
    if cnt <= 0 {
      items := items + [MenuItem(NoPresets, None)];
    }
  }

  /** Picking a menu entry takes its label as markup: the entry of a preset
      whose name ends in " (default)" reads back as another preset's name. */
  lemma DefaultNamedPresetMangled(name: string, version: int, duplicate: bool)
    requires '<' !in name
    ensures var item := MenuItems([PresetEntry(name + " (default)", version)], version, duplicate)[0];
            item.caption == name + " (default)" && TagClosed(item.caption) && PresetNameSpec(item.caption) == name
  {
    DefaultMarkerDropped(name);
  }

  /** A preset name with a `<` and no `>` after it breaks the routine's
      demand: the scan of `get_preset_name` for `>` runs off the end of the label. */
  lemma UnclosedNameUnreadable(version: int, duplicate: bool)
    ensures var item := MenuItems([PresetEntry("a<b", version)], version, duplicate)[0];
            item.caption == "a<b" && !TagClosed(item.caption)
  {
    var s := "a<b";
    assert Find(s, '<', 1) == 1;
    assert Find(s, '<', 0) == 1;
    assert Find(s, '>', 3) == 3;
    assert Find(s, '>', 2) == 3;
    assert Find(s, '>', 1) == 3;
  }

  /** The name a favourites menu entry stands for, given that these menus
      label their entries with the bare preset name: the label itself. */
  function MenuPresetName(item: MenuItem): string
  {
    item.caption
  }

  /** Every usable entry of a menu reads back as its preset's name. */
  lemma MenuNamesRoundTrip(presets: seq<PresetEntry>, version: int, duplicate: bool)
    ensures forall k :: 0 <= k < |presets| ==>
              MenuPresetName(MenuItems(presets, version, duplicate)[k]) == presets[k].name
  {
  }

  /** A preset stored for the operation: its name, the module version it
      was saved for, and the row the preset query returns for it. The
      presets table is keyed by operation, version and name. */
  datatype StoredPreset = StoredPreset(name: string, version: int, row: PresetRow)

  function Entries(store: seq<StoredPreset>): (es: seq<PresetEntry>)
    ensures |es| == |store|
    ensures forall k :: 0 <= k < |store| ==> es[k] == PresetEntry(store[k].name, store[k].version)
  {
    seq(|store|, k requires 0 <= k < |store| => PresetEntry(store[k].name, store[k].version))
  }

  predicate Matches(p: StoredPreset, version: int, name: string)
  {
    p.name == name && p.version == version
  }

  /** No two stored presets share version and name. */
  predicate KeyedByName(store: seq<StoredPreset>)
  {
    forall i, j :: 0 <= i < j < |store| ==> !(store[i].name == store[j].name && store[i].version == store[j].version)
  }

  /** The query of `apply_preset_on_image`: the row of a preset with the
      module's version and the given name, searched from position `i`. */
  function LookupFrom(store: seq<StoredPreset>, version: int, name: string, i: nat): (r: Option<PresetRow>)
    requires i <= |store|
    ensures r.None? <==> forall k :: i <= k < |store| ==> !Matches(store[k], version, name)
    ensures r.Some? ==> exists k :: i <= k < |store| && Matches(store[k], version, name) && store[k].row == r.value
    decreases |store| - i
  {
    if i == |store| then None
    else if Matches(store[i], version, name) then Some(store[i].row)
    else LookupFrom(store, version, name, i + 1)
  }

  function LookupPreset(store: seq<StoredPreset>, version: int, name: string): Option<PresetRow>
  {
    LookupFrom(store, version, name, 0)
  }

  /** Taking a usable entry's caption as the preset name, as the menu's
      labelling intends, the query finds the very preset the entry was made
      for. */
  lemma MenuPickAppliesItsPreset(store: seq<StoredPreset>, version: int, duplicate: bool, k: nat)
    requires KeyedByName(store)
    requires k < |store| && MenuItems(Entries(store), version, duplicate)[k].pick.Some?
    ensures LookupPreset(store, version, MenuPresetName(MenuItems(Entries(store), version, duplicate)[k])) ==
            Some(store[k].row)
  {
    var name := MenuPresetName(MenuItems(Entries(store), version, duplicate)[k]);
    assert Matches(store[k], version, name);
    var r := LookupPreset(store, version, name);
    var j :| 0 <= j < |store| && Matches(store[j], version, name) && store[j].row == r.value;
    if j != k {
      assert false;
    }
  }

  /** As written, picking the entry of a preset named "n (default)" queries
      the name "n": when a preset "n" exists, that other preset is applied. */
  lemma MangledPickAppliesOtherPreset(n: string, version: int, duplicate: bool, plain: PresetRow, marked: PresetRow)
    requires '<' !in n
    ensures var store := [StoredPreset(n, version, plain), StoredPreset(n + " (default)", version, marked)];
            var item := MenuItems(Entries(store), version, duplicate)[1];
            item.pick.Some? && TagClosed(item.caption) &&
            LookupPreset(store, version, PresetNameSpec(item.caption)) == Some(plain)
  {
    var store := [StoredPreset(n, version, plain), StoredPreset(n + " (default)", version, marked)];
    DefaultNamedPresetMangled(n, version, duplicate);
    assert Entries(store)[1] == PresetEntry(n + " (default)", version);
    assert MenuItems(Entries(store), version, duplicate)[1].caption == n + " (default)";
  }

  // ---------------------------------------------------------------------
  // Toggling and presets on one module instance
  // ---------------------------------------------------------------------

  /** `toggle_module`: while the GUI is being reset nothing happens; otherwise
      the module takes the requested state (and a history item is added). */
  function ToggleModule(m: Module, active: bool, reset: bool): (r: Module)
    ensures r == m.(enabled := r.enabled)
    ensures reset ==> r == m
    ensures !reset ==> r.enabled == active
  {
    if reset then m else m.(enabled := active)
  }

  /** The toggle decision of `dt_togglefavorite_on_selection`, on its two
      counts: `enabledCount` is the number of history entries of selected
      images that enable the operation (an image can add several, or one
      that a later entry disables), `selectedCount` the number of selected
      images. It enables exactly when the first is below the second. */
  function ToggleTarget(enabledCount: nat, selectedCount: nat): (enable: bool)
    ensures enabledCount >= selectedCount ==> !enable
    ensures enabledCount == 0 && selectedCount > 0 ==> enable
    ensures enable ==> selectedCount > 0
  {
    enabledCount < selectedCount
  }

  /** The row the preset query returns: the parameter blob, the preset's
      enabled flag, the blend blob with its version, and write protection. */
  datatype PresetRow = PresetRow(
    opParams: Option<seq<byte>>,
    enabled: bool,
    blendParams: Option<seq<byte>>,
    blendVersion: int,
    writeProtect: bool)

  /** The module after the preset and whether it is stored as the last
      preset used. */
  datatype Applied = Applied(edited: Module, storesLast: bool)

  /** The parameter blob is taken only when its length is the module's
      parameter size. */
  predicate ParamsAccepted(m: Module, p: PresetRow)
  {
    p.opParams.Some? && |p.opParams.value| == |m.params|
  }

  /** The blend blob is copied only for the current blend version and the
      exact record size. */
  predicate BlendCopied(p: PresetRow, current: int)
  {
    p.blendParams.Some? && p.blendVersion == current && |p.blendParams.value| == Commit.BlendParamsSize
  }

  /** `apply_preset_on_image` on one instance. `row` is what the preset query
      found, `current` the blend version of this build, and `legacy` the
      outcome of the legacy blend migration: the record it writes when it
      succeeds. */
  function ApplyPreset(m: Module, row: Option<PresetRow>, current: int, legacy: Option<seq<byte>>, reset: bool)
    : (r: Applied)
    ensures r.edited == m.(params := r.edited.params, enabled := r.edited.enabled,
                           blendParams := r.edited.blendParams)
    ensures |r.edited.params| == |m.params|
    ensures !reset ==> r.edited.enabled
    ensures row.None? ==> r.edited == m.(enabled := r.edited.enabled) && !r.storesLast
    ensures row.Some? ==>
              r.edited.params ==
              (if ParamsAccepted(m, row.value) then row.value.opParams.value else m.params)
    ensures reset ==>
              r.edited.enabled ==
              (if row.Some? && ParamsAccepted(m, row.value) then row.value.enabled else m.enabled)
    ensures row.Some? ==>
              r.edited.blendParams ==
              (if BlendCopied(row.value, current) then row.value.blendParams.value
               else if row.value.blendParams.Some? && legacy.Some? then legacy.value
               else m.defaultBlendParams)
    ensures r.storesLast <==> row.Some? && !row.value.writeProtect
  {
    match row
    case None => Applied(ToggleModule(m, true, reset), false)
    case Some(p) =>
      var withParams := if ParamsAccepted(m, p) then m.(params := p.opParams.value, enabled := p.enabled) else m;
      var blend := if BlendCopied(p, current) then p.blendParams.value
                   else if p.blendParams.Some? && legacy.Some? then legacy.value
                   else m.defaultBlendParams;
      Applied(ToggleModule(withParams.(blendParams := blend), true, reset), !p.writeProtect)
  }

  /** Applying the same preset twice leaves the module as applying it once. */
  lemma ApplyPresetIdempotent(m: Module, row: Option<PresetRow>, current: int, legacy: Option<seq<byte>>, reset: bool)
    ensures var once := ApplyPreset(m, row, current, legacy, reset).edited;
            ApplyPreset(once, row, current, legacy, reset).edited == once
  {
  }

  // ---------------------------------------------------------------------
  // Edits on an image's module list
  // ---------------------------------------------------------------------

  /** What is done to a matching instance. */
  datatype ModuleEdit =
    | Enable(activate: bool)
    | Preset(row: Option<PresetRow>, current: int, legacy: Option<seq<byte>>)

  /** Which instances of descriptor `so` are edited: the first one
      (`get_module_instance`) or every one. */
  datatype ImageEdit = First(so: nat, edit: ModuleEdit) | Every(so: nat, edit: ModuleEdit)

  function EditModule(m: Module, e: ModuleEdit, reset: bool): (r: Module)
    ensures r.so == m.so && r.id == m.id
  {
    match e
    case Enable(a) => ToggleModule(m, a, reset)
    case Preset(row, current, legacy) => ApplyPreset(m, row, current, legacy, reset).edited
  }

  lemma EditModuleIdempotent(m: Module, e: ModuleEdit, reset: bool)
    ensures EditModule(EditModule(m, e, reset), e, reset) == EditModule(m, e, reset)
  {
    if e.Preset? {
      ApplyPresetIdempotent(m, e.row, e.current, e.legacy, reset);
    }
  }

  function EditFirst(s: seq<Module>, so: nat, e: ModuleEdit, reset: bool): (r: seq<Module>)
    ensures |r| == |s|
  {
    match FirstWithSo(s, so)
    case None => s
    case Some(i) => s[i := EditModule(s[i], e, reset)]
  }

  function EditEvery(s: seq<Module>, so: nat, e: ModuleEdit, reset: bool): (r: seq<Module>)
    ensures |r| == |s|
  {
    seq(|s|, k requires 0 <= k < |s| => if s[k].so == so then EditModule(s[k], e, reset) else s[k])
  }

  function EditStack(s: seq<Module>, ie: ImageEdit, reset: bool): (r: seq<Module>)
    ensures |r| == |s|
  {
    match ie
    case First(so, e) => EditFirst(s, so, e, reset)
    case Every(so, e) => EditEvery(s, so, e, reset)
  }

  /** Editing the first instance touches exactly that instance; editing every
      instance touches exactly the matching ones. */
  lemma EditStackTouches(s: seq<Module>, ie: ImageEdit, reset: bool)
    ensures |EditStack(s, ie, reset)| == |s|
    ensures ie.First? ==> forall k :: 0 <= k < |s| ==>
              EditStack(s, ie, reset)[k] ==
              (if Some(k) == FirstWithSo(s, ie.so) then EditModule(s[k], ie.edit, reset) else s[k])
    ensures ie.Every? ==> forall k :: 0 <= k < |s| ==>
              EditStack(s, ie, reset)[k] ==
              (if s[k].so == ie.so then EditModule(s[k], ie.edit, reset) else s[k])
  {
  }

  /** Doing the same edit to an image twice is doing it once. */
  lemma EditStackIdempotent(s: seq<Module>, ie: ImageEdit, reset: bool)
    ensures EditStack(EditStack(s, ie, reset), ie, reset) == EditStack(s, ie, reset)
  {
    var t := EditStack(s, ie, reset);
    match ie
    case First(so, e) => {
      match FirstWithSo(s, so)
      case None =>
      case Some(i) =>
        assert t[i].so == so;
        assert forall k :: 0 <= k < i ==> t[k] == s[k];
        assert FirstWithSo(t, so) == Some(i);
        EditModuleIdempotent(s[i], e, reset);
    }
    case Every(so, e) =>
      forall k | 0 <= k < |s| && s[k].so == so
        ensures EditModule(t[k], e, reset) == t[k]
      {
        EditModuleIdempotent(s[k], e, reset);
      }
  }

  /** The id the edit goes to (`get_image_id`): the duplicate's when
      duplicating (-1 when duplicating failed), else the image's own. */
  function ImageId(imgid: int, duplicate: bool, dupId: int): int
  {
    if duplicate then dupId else imgid
  }

  /** A successful duplicate starts with a copy of the original's history. */
  function Duplicated(st: map<int, seq<Module>>, imgid: int, duplicate: bool, dupId: int)
    : map<int, seq<Module>>
  {
    if duplicate && dupId != -1 && imgid in st then st[dupId := st[imgid]] else st
  }

  /** One image handled: duplicated if asked, then edited unless
      `checkIllegal` is set and the id is -1. An image that cannot be loaded
      is left alone. */
  function EditOne(st: map<int, seq<Module>>, imgid: int, duplicate: bool, dupId: int,
                   ie: ImageEdit, reset: bool, checkIllegal: bool): map<int, seq<Module>>
  {
    var st1 := Duplicated(st, imgid, duplicate, dupId);
    var id := ImageId(imgid, duplicate, dupId);
    if checkIllegal && id == -1 then st1
    else if id in st1 then st1[id := EditStack(st1[id], ie, reset)]
    else st1
  }

  /** The selected images handled one after the other, in order. */
  function EditSelection(st: map<int, seq<Module>>, imgs: seq<int>, dupIds: seq<int>, duplicate: bool,
                         ie: ImageEdit, reset: bool, checkIllegal: bool): map<int, seq<Module>>
    requires |dupIds| == |imgs|
    decreases |imgs|
  {
    if imgs == [] then st
    else EditSelection(EditOne(st, imgs[0], duplicate, dupIds[0], ie, reset, checkIllegal),
                       imgs[1..], dupIds[1..], duplicate, ie, reset, checkIllegal)
  }

  /** Without duplicating, handling a selection edits each selected image
      exactly as handling it once would, whatever the order and repetitions,
      and leaves every other image as it was. */
  lemma {:induction false} SelectionEditsEachOnce(st: map<int, seq<Module>>, imgs: seq<int>, dupIds: seq<int>,
                                                  ie: ImageEdit, reset: bool, checkIllegal: bool)
    requires |dupIds| == |imgs|
    requires -1 !in imgs
    ensures EditSelection(st, imgs, dupIds, false, ie, reset, checkIllegal).Keys == st.Keys
    ensures forall id :: id in st ==>
              EditSelection(st, imgs, dupIds, false, ie, reset, checkIllegal)[id] ==
              (if id in imgs then EditStack(st[id], ie, reset) else st[id])
    decreases |imgs|
  {
    if imgs != [] {
      var st1 := EditOne(st, imgs[0], false, dupIds[0], ie, reset, checkIllegal);
      assert imgs == [imgs[0]] + imgs[1..];
      SelectionEditsEachOnce(st1, imgs[1..], dupIds[1..], ie, reset, checkIllegal);
      var r := EditSelection(st, imgs, dupIds, false, ie, reset, checkIllegal);
      forall id | id in st
        ensures r[id] == (if id in imgs then EditStack(st[id], ie, reset) else st[id])
      {
        if id == imgs[0] && id in imgs[1..] {
          EditStackIdempotent(st[id], ie, reset);
        }
      }
    }
  }

  /** Toggling from the favourites panel makes every selected image agree:
      each one's first instance of the operation ends with the same state,
      the toggle target, and nothing else in the library changes. */
  lemma ToggleSelectionAgrees(st: map<int, seq<Module>>, imgs: seq<int>, dupIds: seq<int>, so: nat,
                              enabledCount: nat, selectedCount: nat)
    requires |dupIds| == |imgs|
    requires -1 !in imgs
    ensures var target := ToggleTarget(enabledCount, selectedCount);
            var r := EditSelection(st, imgs, dupIds, false, First(so, Enable(target)), false, false);
            r.Keys == st.Keys &&
            (forall id :: id in st ==> |r[id]| == |st[id]|) &&
            (forall id :: id in st && id in imgs && FirstWithSo(st[id], so).Some? ==>
               r[id][FirstWithSo(st[id], so).value] ==
               st[id][FirstWithSo(st[id], so).value].(enabled := target)) &&
            (forall id :: id in st && id !in imgs ==> r[id] == st[id])
  {
    var target := ToggleTarget(enabledCount, selectedCount);
    SelectionEditsEachOnce(st, imgs, dupIds, First(so, Enable(target)), false, false);
  }

  /** Applying a preset from the favourites panel with the GUI live leaves
      the operation enabled on every selected image that has it. */
  lemma PresetSelectionEnables(st: map<int, seq<Module>>, imgs: seq<int>, dupIds: seq<int>, so: nat,
                               row: Option<PresetRow>, current: int, legacy: Option<seq<byte>>)
    requires |dupIds| == |imgs|
    requires -1 !in imgs
    ensures var r := EditSelection(st, imgs, dupIds, false, First(so, Preset(row, current, legacy)), false, true);
            r.Keys == st.Keys &&
            (forall id :: id in st ==> |r[id]| == |st[id]|) &&
            (forall id :: id in st && id in imgs && FirstWithSo(st[id], so).Some? ==>
               r[id][FirstWithSo(st[id], so).value].enabled)
  {
    SelectionEditsEachOnce(st, imgs, dupIds, First(so, Preset(row, current, legacy)), false, true);
  }

  /** The outcome of applying a preset to one image. `NotLoaded` stands for an
      image that cannot be loaded or lacks an instance of the operation. */
  datatype ApplyOutcome = IllegalImage | NotLoaded | Done(storesLast: bool)

  /** `get_module_instance`: the walk over the module list. */
  method GetModuleInstance(s: seq<Module>, so: nat) returns (r: Option<nat>)
    ensures r == FirstWithSo(s, so)
  {
    var i := 0;
    while i < |s|
      invariant i <= |s|
      invariant forall k :: 0 <= k < i ==> s[k].so != so
    {
      if s[i].so == so {
        assert FirstWithSo(s, so) == Some(i);
        return Some(i);
      }
      i := i + 1;
    }
    r := None;
  }

  /** The edits of all images (history as loaded and written back), changed
      in place by the panel's actions. */
  class Library {
    var stacks: map<int, seq<Module>>

    constructor(stacks: map<int, seq<Module>>)
      ensures this.stacks == stacks
    {
      this.stacks := stacks;
    }

    /** `get_image_id`: `dupId` is what duplicating the image returned. */
    method GetImageId(imgid: int, duplicate: bool, dupId: int) returns (newimgid: int)
      modifies this
      ensures newimgid == ImageId(imgid, duplicate, dupId)
      ensures stacks == Duplicated(old(stacks), imgid, duplicate, dupId)
    {
      if duplicate {
        newimgid := dupId;
        if newimgid != -1 && imgid in stacks {
          stacks := stacks[newimgid := stacks[imgid]];
        }
      } else {
        newimgid := imgid;
      }
    }

    /** `togglefavorite_on_image`: only the first matching instance. */
    method ToggleOnImage(so: nat, imgid: int, duplicate: bool, dupId: int, activate: bool, reset: bool)
      modifies this
      ensures stacks == EditOne(old(stacks), imgid, duplicate, dupId, First(so, Enable(activate)), reset, false)
    {
      var id := GetImageId(imgid, duplicate, dupId);
      if id in stacks {
        var s := stacks[id];
        var iop := GetModuleInstance(s, so);
        if iop.Some? {
          stacks := stacks[id := s[iop.value := ToggleModule(s[iop.value], activate, reset)]];
        }
      }
    }

    /** `dt_togglefavorite_on_selection`: the target is decided once from the
        two counts and applied to each selected image in order; `logged`
        tells whether "no image selected" was reported. */
    method ToggleOnSelection(so: nat, imgs: seq<int>, dupIds: seq<int>, duplicate: bool,
                             enabledCount: nat, selectedCount: nat, reset: bool)
      returns (logged: bool)
      requires |dupIds| == |imgs|
      modifies this
      ensures stacks == EditSelection(old(stacks), imgs, dupIds, duplicate,
                                      First(so, Enable(ToggleTarget(enabledCount, selectedCount))), reset, false)
      ensures logged <==> imgs == []
    {
      var enabled := enabledCount < selectedCount;
      var i := 0;
      while i < |imgs|
        invariant i <= |imgs|
        invariant EditSelection(stacks, imgs[i..], dupIds[i..], duplicate, First(so, Enable(enabled)), reset, false)
               == EditSelection(old(stacks), imgs, dupIds, duplicate, First(so, Enable(enabled)), reset, false)
      {
        assert imgs[i..][1..] == imgs[i + 1..] && dupIds[i..][1..] == dupIds[i + 1..];
        ToggleOnImage(so, imgs[i], duplicate, dupIds[i], enabled, reset);
        i := i + 1;
      }
      logged := |imgs| == 0;
    }

    /** `apply_preset_on_image` for an image: nothing happens when the id is
        -1, otherwise the preset goes to the first instance of the operation. */
    method ApplyPresetOnImage(so: nat, imgid: int, duplicate: bool, dupId: int,
                              row: Option<PresetRow>, current: int, legacy: Option<seq<byte>>, reset: bool)
      returns (outcome: ApplyOutcome)
      modifies this
      ensures stacks == EditOne(old(stacks), imgid, duplicate, dupId, First(so, Preset(row, current, legacy)), reset, true)
      ensures outcome == IllegalImage <==> ImageId(imgid, duplicate, dupId) == -1
      ensures outcome.Done? ==> (outcome.storesLast <==> row.Some? && !row.value.writeProtect)
    {
      var id := GetImageId(imgid, duplicate, dupId);
      if id == -1 {
        return IllegalImage;
      }
      if id !in stacks {
        return NotLoaded;
      }
      var s := stacks[id];
      var inst := GetModuleInstance(s, so);
      if inst.None? {
        return NotLoaded;
      }
      var applied := ApplyPreset(s[inst.value], row, current, legacy, reset);
      stacks := stacks[id := s[inst.value := applied.edited]];
      outcome := Done(applied.storesLast);
    }

    /** `apply_preset_on_selection`: the preset applied to each selected
        image in order. */
    method ApplyPresetOnSelection(so: nat, imgs: seq<int>, dupIds: seq<int>, duplicate: bool,
                                  row: Option<PresetRow>, current: int, legacy: Option<seq<byte>>, reset: bool)
      requires |dupIds| == |imgs|
      modifies this
      ensures stacks == EditSelection(old(stacks), imgs, dupIds, duplicate,
                                      First(so, Preset(row, current, legacy)), reset, true)
    {
      var i := 0;
      while i < |imgs|
        invariant i <= |imgs|
        invariant EditSelection(stacks, imgs[i..], dupIds[i..], duplicate, First(so, Preset(row, current, legacy)), reset, true)
               == EditSelection(old(stacks), imgs, dupIds, duplicate, First(so, Preset(row, current, legacy)), reset, true)
      {
        assert imgs[i..][1..] == imgs[i + 1..] && dupIds[i..][1..] == dupIds[i + 1..];
        var _ := ApplyPresetOnImage(so, imgs[i], duplicate, dupIds[i], row, current, legacy, reset);
        i := i + 1;
      }
    }
  }

  // ---------------------------------------------------------------------
  // The panel's buttons (`gui_add_buttons`, `gui_requires_rebuild`)
  // ---------------------------------------------------------------------

  /** An operation descriptor as the panel sees it: its key, its display
      name and the width of its icon. */
  datatype Plugin = Plugin(op: string, name: string, iconWidth: int)

  predicate IsFavorite(conf: map<string, bool>, p: Plugin)
  {
    GetBool(conf, FavoriteKey(p.op))
  }

  /** The names of the favourite operations, in descriptor order. */
  function FavoriteNames(plugins: seq<Plugin>, conf: map<string, bool>): (names: seq<string>)
    ensures |names| <= |plugins|
  {
    if plugins == [] then []
    else (if IsFavorite(conf, plugins[0]) then [plugins[0].name] else []) + FavoriteNames(plugins[1..], conf)
  }

  /** The icon widths of the favourite operations, in descriptor order. */
  function FavoriteWidths(plugins: seq<Plugin>, conf: map<string, bool>): (widths: seq<int>)
    ensures |widths| == |FavoriteNames(plugins, conf)|
  {
    if plugins == [] then []
    else (if IsFavorite(conf, plugins[0]) then [plugins[0].iconWidth] else []) + FavoriteWidths(plugins[1..], conf)
  }

  lemma FavoritesSplit(plugins: seq<Plugin>, i: nat, conf: map<string, bool>)
    requires i < |plugins|
    ensures FavoriteNames(plugins[i..], conf) ==
            (if IsFavorite(conf, plugins[i]) then [plugins[i].name] else []) + FavoriteNames(plugins[i + 1..], conf)
    ensures FavoriteWidths(plugins[i..], conf) ==
            (if IsFavorite(conf, plugins[i]) then [plugins[i].iconWidth] else []) + FavoriteWidths(plugins[i + 1..], conf)
  {
    assert plugins[i..][1..] == plugins[i + 1..];
  }

  /** A grid cell. */
  datatype Cell = Cell(column: int, line: int)

  /** The cells of buttons of the given widths, starting on `line` at
      `column` with `lineWidth` already used: each button takes the next
      column, and once the widths (each with its gap) reach `limit` the next
      button starts a new line. */
  function LayoutFrom(widths: seq<int>, limit: int, gap: int, line: nat, column: nat, lineWidth: int)
    : (cells: seq<Cell>)
    ensures |cells| == |widths|
  {
    if widths == [] then []
    else
      var w := lineWidth + widths[0] + gap;
      if w >= limit then [Cell(column, line)] + LayoutFrom(widths[1..], limit, gap, line + 1, 0, 0)
      else [Cell(column, line)] + LayoutFrom(widths[1..], limit, gap, line, column + 1, w)
  }

  /** The panel is `panelWidth - 90` wide and a line is full once it reaches
      15 less than that. */
  function Layout(widths: seq<int>, panelWidth: int, gap: int): seq<Cell>
  {
    LayoutFrom(widths, panelWidth - 90 - 15, gap, 0, 0, 0)
  }

  predicate Before(a: Cell, b: Cell)
  {
    a.line < b.line || (a.line == b.line && a.column < b.column)
  }

  /** The state after placing a button of width `w`: the next line when the
      line is full, else the next column. */
  function NextLine(w: int, limit: int, gap: int, line: nat, lineWidth: int): nat
  {
    if lineWidth + w + gap >= limit then line + 1 else line
  }

  function NextColumn(w: int, limit: int, gap: int, column: nat, lineWidth: int): nat
  {
    if lineWidth + w + gap >= limit then 0 else column + 1
  }

  function NextWidth(w: int, limit: int, gap: int, lineWidth: int): int
  {
    if lineWidth + w + gap >= limit then 0 else lineWidth + w + gap
  }

  lemma LayoutFromUnfold(widths: seq<int>, limit: int, gap: int, line: nat, column: nat, lineWidth: int)
    requires widths != []
    ensures LayoutFrom(widths, limit, gap, line, column, lineWidth) ==
            [Cell(column, line)] +
            LayoutFrom(widths[1..], limit, gap, NextLine(widths[0], limit, gap, line, lineWidth),
                       NextColumn(widths[0], limit, gap, column, lineWidth), NextWidth(widths[0], limit, gap, lineWidth))
  {
  }

  lemma {:induction false} LayoutFromAfter(widths: seq<int>, limit: int, gap: int, line: nat, column: nat, lineWidth: int)
    ensures var cells := LayoutFrom(widths, limit, gap, line, column, lineWidth);
            forall k :: 0 <= k < |cells| ==> cells[k] == Cell(column, line) || Before(Cell(column, line), cells[k])
    decreases |widths|
  {
    if widths != [] {
      var line', column' := NextLine(widths[0], limit, gap, line, lineWidth), NextColumn(widths[0], limit, gap, column, lineWidth);
      var width' := NextWidth(widths[0], limit, gap, lineWidth);
      LayoutFromAfter(widths[1..], limit, gap, line', column', width');
      LayoutFromUnfold(widths, limit, gap, line, column, lineWidth);
      var rest := LayoutFrom(widths[1..], limit, gap, line', column', width');
      var cells := LayoutFrom(widths, limit, gap, line, column, lineWidth);
      forall k | 0 < k < |cells|
        ensures Before(Cell(column, line), cells[k])
      {
        assert cells[k] == rest[k - 1];
      }
    }
  }

  lemma {:induction false} LayoutFromOrdered(widths: seq<int>, limit: int, gap: int, line: nat, column: nat, lineWidth: int)
    ensures var cells := LayoutFrom(widths, limit, gap, line, column, lineWidth);
            forall i, j :: 0 <= i < j < |cells| ==> Before(cells[i], cells[j])
    decreases |widths|
  {
    if widths != [] {
      var line', column' := NextLine(widths[0], limit, gap, line, lineWidth), NextColumn(widths[0], limit, gap, column, lineWidth);
      var width' := NextWidth(widths[0], limit, gap, lineWidth);
      LayoutFromOrdered(widths[1..], limit, gap, line', column', width');
      LayoutFromAfter(widths[1..], limit, gap, line', column', width');
      LayoutFromUnfold(widths, limit, gap, line, column, lineWidth);
      var rest := LayoutFrom(widths[1..], limit, gap, line', column', width');
      var cells := LayoutFrom(widths, limit, gap, line, column, lineWidth);
      forall i, j | 0 <= i < j < |cells|
        ensures Before(cells[i], cells[j])
      {
        assert cells[j] == rest[j - 1];
        if i > 0 {
          assert cells[i] == rest[i - 1];
        }
      }
    }
  }

  /** Buttons are laid out in reading order, so no two share a cell. */
  lemma LayoutCellsDistinct(widths: seq<int>, panelWidth: int, gap: int)
    ensures var cells := Layout(widths, panelWidth, gap);
            forall i, j :: 0 <= i < j < |cells| ==> Before(cells[i], cells[j]) && cells[i] != cells[j]
  {
    var cells := Layout(widths, panelWidth, gap);
    assert cells == LayoutFrom(widths, panelWidth - 90 - 15, gap, 0, 0, 0);
    LayoutFromOrdered(widths, panelWidth - 90 - 15, gap, 0, 0, 0);
    forall i, j | 0 <= i < j < |cells|
      ensures Before(cells[i], cells[j]) && cells[i] != cells[j]
    {
      assert Before(cells[i], cells[j]);
    }
  }

  lemma {:induction false} LayoutFromSteps(widths: seq<int>, limit: int, gap: int, line: nat, column: nat, lineWidth: int)
    ensures var cells := LayoutFrom(widths, limit, gap, line, column, lineWidth);
            (|cells| > 0 ==> cells[0] == Cell(column, line)) &&
            forall k :: 0 <= k < |cells| - 1 ==>
              cells[k + 1] == Cell(cells[k].column + 1, cells[k].line) || cells[k + 1] == Cell(0, cells[k].line + 1)
    decreases |widths|
  {
    if widths != [] {
      var w := lineWidth + widths[0] + gap;
      if w >= limit {
        LayoutFromSteps(widths[1..], limit, gap, line + 1, 0, 0);
      } else {
        LayoutFromSteps(widths[1..], limit, gap, line, column + 1, w);
      }
    }
  }

  lemma LayoutFromCons(w: int, rest: seq<int>, limit: int, gap: int, line: nat, column: nat, lineWidth: int)
    ensures LayoutFrom([w] + rest, limit, gap, line, column, lineWidth) ==
            [Cell(column, line)] +
            (if lineWidth + w + gap >= limit then LayoutFrom(rest, limit, gap, line + 1, 0, 0)
             else LayoutFrom(rest, limit, gap, line, column + 1, lineWidth + w + gap))
  {
    assert ([w] + rest)[1..] == rest;
  }

  /** One descriptor handled by the button loop: a favourite takes the
      next cell and appends its name, any other descriptor changes nothing. */
  lemma ButtonStep(plugins: seq<Plugin>, i: nat, conf: map<string, bool>, names: seq<string>, placed: seq<Cell>,
                   limit: int, gap: int, line: nat, column: nat, lineWidth: int)
    requires i < |plugins|
    ensures var p := plugins[i];
            var names' := FavoriteNames(plugins[i + 1..], conf);
            var widths' := FavoriteWidths(plugins[i + 1..], conf);
            if IsFavorite(conf, p) then
              names + FavoriteNames(plugins[i..], conf) == (names + [p.name]) + names' &&
              placed + LayoutFrom(FavoriteWidths(plugins[i..], conf), limit, gap, line, column, lineWidth) ==
              (placed + [Cell(column, line)]) +
              LayoutFrom(widths', limit, gap, NextLine(p.iconWidth, limit, gap, line, lineWidth),
                         NextColumn(p.iconWidth, limit, gap, column, lineWidth), NextWidth(p.iconWidth, limit, gap, lineWidth))
            else
              FavoriteNames(plugins[i..], conf) == names' && FavoriteWidths(plugins[i..], conf) == widths'
  {
    FavoritesSplit(plugins, i, conf);
    var p := plugins[i];
    if IsFavorite(conf, p) {
      var widths' := FavoriteWidths(plugins[i + 1..], conf);
      LayoutFromUnfold([p.iconWidth] + widths', limit, gap, line, column, lineWidth);
      assert ([p.iconWidth] + widths')[1..] == widths';
    }
  }

  /** The first button sits at the origin, and each next one either takes
      the next column of the same line or starts the next line at column 0. */
  lemma LayoutSteps(widths: seq<int>, panelWidth: int, gap: int)
    ensures var cells := Layout(widths, panelWidth, gap);
            (|cells| > 0 ==> cells[0] == Cell(0, 0)) &&
            forall k :: 0 <= k < |cells| - 1 ==>
              cells[k + 1] == Cell(cells[k].column + 1, cells[k].line) || cells[k + 1] == Cell(0, cells[k].line + 1)
  {
    LayoutFromSteps(widths, panelWidth - 90 - 15, gap, 0, 0, 0);
  }

  lemma PrefixThenDifferent(stored: seq<string>, count: nat, name: string, names: seq<string>, favs: seq<string>)
    requires count <= |stored|
    requires favs == stored[..count] + ([name] + names)
    requires count == |stored| || stored[count] != name
    ensures favs != stored
  {
    assert favs[count] == name;
  }

  lemma PrefixExtends(stored: seq<string>, count: nat, names: seq<string>)
    requires count < |stored|
    ensures stored[..count] + ([stored[count]] + names) == stored[..count + 1] + names
  {
    assert stored[..count] + [stored[count]] == stored[..count + 1];
  }

  /** What the unguarded walk of `gui_requires_rebuild` concludes: a decision,
      or a read through the stored-names iterator at its end. */
  datatype Verdict = Decided(rebuild: bool) | PastEnd

  /** The rebuild check over the remaining favourite names, `count` of them
      already matched against `stored`. */
  function VerdictFrom(favs: seq<string>, stored: seq<string>, count: nat): Verdict
    decreases |favs|
  {
    if favs == [] then Decided(count != |stored|)
    else if count >= |stored| then PastEnd
    else if stored[count] != favs[0] then Decided(true)
    else VerdictFrom(favs[1..], stored, count + 1)
  }

  function RebuildVerdict(favs: seq<string>, stored: seq<string>): Verdict
  {
    VerdictFrom(favs, stored, 0)
  }

  lemma {:induction false} VerdictFromCases(favs: seq<string>, stored: seq<string>, count: nat)
    requires count <= |stored|
    ensures VerdictFrom(favs, stored, count) == PastEnd <==>
            |stored| - count < |favs| && favs[..|stored| - count] == stored[count..]
    ensures VerdictFrom(favs, stored, count) != PastEnd ==>
            VerdictFrom(favs, stored, count) == Decided(favs != stored[count..])
    decreases |favs|
  {
    if favs != [] && count < |stored| {
      VerdictFromCases(favs[1..], stored, count + 1);
      if stored[count] == favs[0] {
        assert stored[count..] == [favs[0]] + stored[count + 1..];
        assert favs == [favs[0]] + favs[1..];
        if |stored| - (count + 1) < |favs[1..]| {
          assert favs[..|stored| - count] == [favs[0]] + favs[1..][..|stored| - (count + 1)];
        }
      } else {
        assert favs[0] != stored[count..][0];
      }
    } else if favs != [] {
      assert favs[..0] == stored[count..];
    }
  }

  /** `gui_requires_rebuild` reads past the stored names exactly when they are
      a proper prefix of the current favourites, and otherwise answers
      whether the two lists differ. */
  lemma RebuildVerdictCases(favs: seq<string>, stored: seq<string>)
    ensures RebuildVerdict(favs, stored) == PastEnd <==> |stored| < |favs| && favs[..|stored|] == stored
    ensures RebuildVerdict(favs, stored) != PastEnd ==> RebuildVerdict(favs, stored) == Decided(favs != stored)
  {
    VerdictFromCases(favs, stored, 0);
    assert stored[0..] == stored;
  }

  /** Marking one more operation as favourite after all the stored ones
      sends `gui_requires_rebuild` past the end of the stored names. */
  lemma NewTrailingFavoriteReadsPastEnd()
    ensures RebuildVerdict(["exposure", "sharpen"], ["exposure"]) == PastEnd
  {
  }

  /** The favourites panel: the names of the favourites it shows, in order,
      and the cells of their buttons. */
  class Panel {
    var favorites: seq<string>
    var cells: seq<Cell>

    /** `gui_init`: an empty panel filled with the current favourites. */
    constructor(plugins: seq<Plugin>, conf: map<string, bool>, panelWidth: int, gap: int)
      ensures favorites == FavoriteNames(plugins, conf)
      ensures cells == Layout(FavoriteWidths(plugins, conf), panelWidth, gap)
    {
      favorites := [];
      cells := [];
      new;
      AddButtons(plugins, conf, panelWidth, gap);
    }

    /** `gui_add_buttons`: one button per favourite, in descriptor order,
        with `gap` the scaled spacing between icons. */
    method AddButtons(plugins: seq<Plugin>, conf: map<string, bool>, panelWidth: int, gap: int)
      modifies this
      ensures favorites == old(favorites) + FavoriteNames(plugins, conf)
      ensures cells == old(cells) + Layout(FavoriteWidths(plugins, conf), panelWidth, gap)
    {
      var line: nat, column: nat := 0, 0;
      var width := panelWidth - 90;
      var lineWidth := 0;
      var names: seq<string> := [];
      var placed: seq<Cell> := [];
      var i := 0;
      while i < |plugins|
        invariant i <= |plugins|
        invariant favorites == old(favorites) && cells == old(cells)
        invariant names + FavoriteNames(plugins[i..], conf) == FavoriteNames(plugins, conf)
        invariant placed + LayoutFrom(FavoriteWidths(plugins[i..], conf), width - 15, gap, line, column, lineWidth)
               == Layout(FavoriteWidths(plugins, conf), panelWidth, gap)
      {
        ButtonStep(plugins, i, conf, names, placed, width - 15, gap, line, column, lineWidth);
        var p := plugins[i];
        if IsFavorite(conf, p) {
          ghost var line0, column0, lineWidth0 := line, column, lineWidth;
          placed := placed + [Cell(column, line)];
          column := column + 1;
          lineWidth := lineWidth + p.iconWidth + gap;
          if lineWidth >= width - 15 {
            line := line + 1;
            column := 0;
            lineWidth := 0;
          }
          names := names + [p.name];
          assert line == NextLine(p.iconWidth, width - 15, gap, line0, lineWidth0);
          assert column == NextColumn(p.iconWidth, width - 15, gap, column0, lineWidth0);
          assert lineWidth == NextWidth(p.iconWidth, width - 15, gap, lineWidth0);
        }
        i := i + 1;
      }
      assert plugins[i..] == [];
      assert names == FavoriteNames(plugins, conf);
      assert placed == Layout(FavoriteWidths(plugins, conf), panelWidth, gap);
      favorites := favorites + names;
      cells := cells + placed;
    }

    /** `gui_requires_rebuild` as written: the iterator over the stored names
        is read without checking for its end. */
    method RequiresRebuildAsWritten(plugins: seq<Plugin>, conf: map<string, bool>) returns (v: Verdict)
      ensures v == RebuildVerdict(FavoriteNames(plugins, conf), favorites)
    {
      var stored := favorites;
      var count := 0;
      var i := 0;
      while i < |plugins|
        invariant i <= |plugins|
        invariant VerdictFrom(FavoriteNames(plugins[i..], conf), stored, count)
               == RebuildVerdict(FavoriteNames(plugins, conf), stored)
      {
        FavoritesSplit(plugins, i, conf);
        var p := plugins[i];
        ghost var names := FavoriteNames(plugins[i + 1..], conf);
        if IsFavorite(conf, p) {
          if count >= |stored| {
            return PastEnd;
          }
          if stored[count] != p.name {
            return Decided(true);
          }
          assert ([p.name] + names)[1..] == names;
          count := count + 1;
        } else {
          assert FavoriteNames(plugins[i..], conf) == names;
        }
        i := i + 1;
      }
      v := Decided(count != |stored|);
    }

    /** The rebuild check with the end of the stored names tested first: a
        rebuild is needed exactly when the favourites differ from the names
        the panel shows. */
    method RequiresRebuild(plugins: seq<Plugin>, conf: map<string, bool>) returns (r: bool)
      ensures r <==> FavoriteNames(plugins, conf) != favorites
    {
      var stored := favorites;
      ghost var favs := FavoriteNames(plugins, conf);
      var count := 0;
      var i := 0;
      while i < |plugins|
        invariant i <= |plugins|
        invariant count <= |stored|
        invariant favs == stored[..count] + FavoriteNames(plugins[i..], conf)
      {
        FavoritesSplit(plugins, i, conf);
        var p := plugins[i];
        ghost var names := FavoriteNames(plugins[i + 1..], conf);
        if IsFavorite(conf, p) {
          if count >= |stored| || stored[count] != p.name {
            PrefixThenDifferent(stored, count, p.name, names, favs);
            return true;
          }
          PrefixExtends(stored, count, names);
          count := count + 1;
        } else {
          assert FavoriteNames(plugins[i..], conf) == names;
        }
        i := i + 1;
      }
      assert favs == stored[..count];
      r := count != |stored|;
      assert !r ==> stored[..count] == stored;
    }

    /** `gui_refresh` with the guarded check: after it the panel shows
        exactly the current favourites, and buttons are laid out anew only
        when the favourites changed. */
    method Refresh(plugins: seq<Plugin>, conf: map<string, bool>, panelWidth: int, gap: int)
      modifies this
      ensures favorites == FavoriteNames(plugins, conf)
      ensures old(favorites) != favorites ==> cells == Layout(FavoriteWidths(plugins, conf), panelWidth, gap)
      ensures old(favorites) == favorites ==> cells == old(cells)
    {
      var rebuild := RequiresRebuild(plugins, conf);
      if rebuild {
        favorites := [];
        cells := [];
        AddButtons(plugins, conf, panelWidth, gap);
      }
    }
  }
}
