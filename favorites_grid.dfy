/** The grid variant of the favourites panel (`src/libs/favoritestoggle.cpp`):
    buttons on a fixed four-column grid, and toggling that reaches every
    instance of the operation on an image rather than the first one. Preset
    names, the preset menu and applying presets behave as in `Favorites`. */
module FavoritesGrid {
  import opened IopTypes
  import opened Favorites

  /** `COL_WIDTH`: buttons per grid row. */
  const ColWidth: nat := 4

  /** The cell of the `k`-th favourite button. */
  function GridCell(k: nat): (c: Cell)
    ensures 0 <= c.column < ColWidth
    ensures c.line >= 0 && c.line * ColWidth + c.column == k
  {
    Cell(k % ColWidth, k / ColWidth)
  }

  /** Reading a cell back in row-major order gives the button's index, so
      distinct buttons get distinct cells. */
  lemma GridCellsDistinct(i: nat, j: nat)
    requires i != j
    ensures GridCell(i) != GridCell(j)
  {
  }

  /** A button starts a new row exactly after every fourth button. */
  lemma GridRowsOfFour(k: nat)
    ensures GridCell(k + 1) == (if GridCell(k).column == ColWidth - 1 then Cell(0, GridCell(k).line + 1)
                               else Cell(GridCell(k).column + 1, GridCell(k).line))
  {
    var a, b := GridCell(k), GridCell(k + 1);
    if a.column == ColWidth - 1 {
      assert k + 1 == (a.line + 1) * ColWidth + 0;
      GridCellUnique(k + 1, a.line + 1, 0);
    } else {
      assert k + 1 == a.line * ColWidth + (a.column + 1);
      GridCellUnique(k + 1, a.line, a.column + 1);
    }
  }

  lemma GridCellUnique(k: nat, line: nat, column: nat)
    requires column < ColWidth && k == line * ColWidth + column
    ensures GridCell(k) == Cell(column, line)
  {
  }

  /** `gui_init`: a button for each favourite, the `k`-th at `GridCell(k)`. */
  method GridInit(plugins: seq<Plugin>, conf: map<string, bool>) returns (cells: seq<Cell>)
    ensures |cells| == |FavoriteNames(plugins, conf)|
    ensures forall k :: 0 <= k < |cells| ==> cells[k] == GridCell(k)
  {
    var line := 0;
    cells := [];
    var i := 0;
    while i < |plugins|
      invariant i <= |plugins|
      invariant line == |cells|
      invariant line + |FavoriteNames(plugins[i..], conf)| == |FavoriteNames(plugins, conf)|
      invariant forall k :: 0 <= k < |cells| ==> cells[k] == GridCell(k)
    {
      FavoritesSplit(plugins, i, conf);
      if IsFavorite(conf, plugins[i]) {
        cells := cells + [Cell(line % ColWidth, line / ColWidth)];
        line := line + 1;
      }
      i := i + 1;
    }
  }

  /** The loop of `dt_togglefavorite_on_image` over the image's module list:
      every instance loaded from `so` is toggled. */
  method ToggleEvery(s: seq<Module>, so: nat, activate: bool, reset: bool) returns (r: seq<Module>)
    ensures r == EditEvery(s, so, Enable(activate), reset)
  {
    r := s;
    var i := 0;
    while i < |r|
      invariant i <= |r| == |s|
      invariant forall k :: 0 <= k < i ==> r[k] == (if s[k].so == so then ToggleModule(s[k], activate, reset) else s[k])
      invariant forall k :: i <= k < |r| ==> r[k] == s[k]
    {
      if r[i].so == so {
        r := r[i := ToggleModule(r[i], activate, reset)];
      }
      i := i + 1;
    }
  }

  /** Toggling every instance and toggling the first one agree on an image
      that holds at most one instance of the operation; with two instances
      the grid panel also toggles the second. */
  lemma EveryAgreesWithFirst(s: seq<Module>, so: nat, e: ModuleEdit, reset: bool)
    requires forall i, j :: 0 <= i < j < |s| && s[i].so == so ==> s[j].so != so
    ensures EditEvery(s, so, e, reset) == EditFirst(s, so, e, reset)
  {
    var a, b := EditEvery(s, so, e, reset), EditFirst(s, so, e, reset);
    forall k | 0 <= k < |s|
      ensures a[k] == b[k]
    {
      match FirstWithSo(s, so)
      case None =>
      case Some(f) =>
    }
  }

  /** `dt_togglefavorite_on_image` of the grid panel on the library. */
  method ToggleOnImage(lib: Library, so: nat, duplicate: bool, imgid: int, dupId: int, activate: bool, reset: bool)
    modifies lib
    ensures lib.stacks == EditOne(old(lib.stacks), imgid, duplicate, dupId, Every(so, Enable(activate)), reset, false)
  {
    var id := lib.GetImageId(imgid, duplicate, dupId);
    if id in lib.stacks {
      var r := ToggleEvery(lib.stacks[id], so, activate, reset);
      lib.stacks := lib.stacks[id := r];
    }
  }

  /** `dt_togglefavorite_on_selection` of the grid panel: one target for the
      whole selection, each selected image toggled in order; `logged` tells
      whether "no image selected" was reported. */
  method ToggleOnSelection(lib: Library, so: nat, imgs: seq<int>, dupIds: seq<int>, duplicate: bool,
                           enabledCount: nat, selectedCount: nat, reset: bool)
    returns (logged: bool)
    requires |dupIds| == |imgs|
    modifies lib
    ensures lib.stacks == EditSelection(old(lib.stacks), imgs, dupIds, duplicate,
                                        Every(so, Enable(ToggleTarget(enabledCount, selectedCount))), reset, false)
    ensures logged <==> imgs == []
  {
    var selected := false;
    var enabled := enabledCount < selectedCount;
    var i := 0;
    while i < |imgs|
      invariant i <= |imgs|
      invariant selected <==> i > 0
      invariant EditSelection(lib.stacks, imgs[i..], dupIds[i..], duplicate, Every(so, Enable(enabled)), reset, false)
             == EditSelection(old(lib.stacks), imgs, dupIds, duplicate, Every(so, Enable(enabled)), reset, false)
    {
      assert imgs[i..][1..] == imgs[i + 1..] && dupIds[i..][1..] == dupIds[i + 1..];
      ToggleOnImage(lib, so, duplicate, imgs[i], dupIds[i], enabled, reset);
      selected := true;
      i := i + 1;
    }
    logged := !selected;
  }

  /** With the grid panel every instance of the operation on every selected
      image ends with the toggle target, and other images are unchanged. */
  lemma ToggleSelectionEveryAgrees(st: map<int, seq<Module>>, imgs: seq<int>, dupIds: seq<int>, so: nat,
                                   enabledCount: nat, selectedCount: nat)
    requires |dupIds| == |imgs|
    requires -1 !in imgs
    ensures var target := ToggleTarget(enabledCount, selectedCount);
            var r := EditSelection(st, imgs, dupIds, false, Every(so, Enable(target)), false, false);
            r.Keys == st.Keys &&
            (forall id :: id in st ==> |r[id]| == |st[id]|) &&
            (forall id, k :: id in st && id in imgs && 0 <= k < |st[id]| ==>
               r[id][k] == (if st[id][k].so == so then st[id][k].(enabled := target) else st[id][k])) &&
            (forall id :: id in st && id !in imgs ==> r[id] == st[id])
  {
    var target := ToggleTarget(enabledCount, selectedCount);
    SelectionEditsEachOnce(st, imgs, dupIds, Every(so, Enable(target)), false, false);
  }
}
