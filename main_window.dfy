/**
  The main window of the shopping list: the store of product records
  (savedTiles), the panel of tile buttons (TilePanel.Children), the products
  file, and the three handlers that change them.
 */
module Shoppy {
  import opened Wrappers
  import opened Sequences
  import opened Tiles
  import opened Brushes

  /** The information message boxes the handlers show instead of acting. */
  datatype Notice = NoName | NoSelection

  /** string.IsNullOrEmpty, with None standing for null. */
  predicate IsNullOrEmpty(s: Option<string>): (r: bool)
    ensures !r ==> s.Some? && |s.value| > 0
  {
    s.None? || s.value == ""
  }

  /** A tile button as CreateTile builds it: its Tag and its two brushes. */
  class Tile {
    const tag: ProductTile
    var background: Brush
    var borderBrush: Brush

    function Appearance(): Look
      reads this
    {
      Look(background, borderBrush)
    }

    /**
      The test the delete handler makes. On a consistent pair of colours it
      agrees with the border test the click handler makes.
     */
    predicate Selected(): (r: bool)
      reads this
      ensures Consistent(Appearance()) ==> (r <==> borderBrush == Goldenrod)
    {
      ShowsSelected(Appearance())
    }

    /** CreateTile: a white tile tagged with the product, border left to the theme. */
    constructor (product: ProductTile)
      ensures tag == product && Appearance() == Initial
    {
      tag := product;
      background := White;
      borderBrush := ThemeDefault;
    }

    /** The click handler CreateTile attaches to the button. */
    method Click()
      modifies this
      ensures Appearance() == AfterClick(old(Appearance()))
    {
      if borderBrush == Goldenrod {
        background := White;
        borderBrush := Black;
      } else {
        background := LightGoldenrodYellow;
        borderBrush := Goldenrod;
      }
    }
  }

  /** The abstract view of a sequence of tiles. */
  function ViewOf(ts: seq<Tile>): (v: seq<TileView>)
    reads ts
    ensures |v| == |ts|
  {
    if ts == [] then []
    else [TileView(ts[0].tag, ts[0].Selected())] + ViewOf(ts[1..])
  }

  lemma {:induction false} ViewOfAt(ts: seq<Tile>, i: nat)
    requires i < |ts|
    ensures |ViewOf(ts)| == |ts| && ViewOf(ts)[i] == TileView(ts[i].tag, ts[i].Selected())
  {
    if i > 0 {
      ViewOfAt(ts[1..], i - 1);
    }
  }

  lemma {:induction false} ViewOfAppend(ts: seq<Tile>, t: Tile)
    ensures ViewOf(ts + [t]) == ViewOf(ts) + [TileView(t.tag, t.Selected())]
  {
    if ts != [] {
      assert (ts + [t])[1..] == ts[1..] + [t];
      ViewOfAppend(ts[1..], t);
    }
  }

  /** Guid.NewGuid(), as far as the window relies on it: some id not in used. */
  method NewGuid(used: set<Id>) returns (id: Id)
    ensures id !in used
  {
    assert IdBound(used) !in used;
    id :| id !in used;
  }

  /** The unselected tiles, in their order. */
  function UnselectedTiles(ts: seq<Tile>): (r: seq<Tile>)
    reads ts
    ensures |r| <= |ts|
  {
    if ts == [] then []
    else if ts[0].Selected() then UnselectedTiles(ts[1..])
    else [ts[0]] + UnselectedTiles(ts[1..])
  }

  lemma {:induction false} ViewOfUnselected(ts: seq<Tile>)
    ensures ViewOf(UnselectedTiles(ts)) == Kept(ViewOf(ts))
  {
    if ts != [] {
      ViewOfUnselected(ts[1..]);
      var v := ViewOf(ts);
      assert v[1..] == ViewOf(ts[1..]);
      if !ts[0].Selected() {
        assert ViewOf([ts[0]] + UnselectedTiles(ts[1..])) == [v[0]] + ViewOf(UnselectedTiles(ts[1..]));
      }
    }
  }

  /** Filtering out the collected tiles is filtering out the selected ones. */
  lemma {:induction false} WithoutSelected(ts: seq<Tile>, rs: seq<Tile>)
    requires forall t :: t in ts ==> (t in rs <==> t.Selected())
    ensures Without(ts, rs) == UnselectedTiles(ts)
  {
    if ts != [] {
      assert forall t :: t in ts[1..] ==> t in ts;
      WithoutSelected(ts[1..], rs);
    }
  }

  /** The selected tiles, in their order: what the delete handler collects. */
  function SelectedTiles(ts: seq<Tile>): (r: seq<Tile>)
    reads ts
    ensures |r| <= |ts|
  {
    if ts == [] then []
    else if ts[0].Selected() then [ts[0]] + SelectedTiles(ts[1..])
    else SelectedTiles(ts[1..])
  }

  lemma {:induction false} SelectedTilesAppend(ts: seq<Tile>, t: Tile)
    ensures SelectedTiles(ts + [t]) == SelectedTiles(ts) + (if t.Selected() then [t] else [])
  {
    if ts != [] {
      assert (ts + [t])[1..] == ts[1..] + [t];
      SelectedTilesAppend(ts[1..], t);
    }
  }

  /** The panel splits into the tiles the delete handler removes and the ones it keeps. */
  lemma {:induction false} SelectedUnselectedSplit(ts: seq<Tile>)
    ensures multiset(SelectedTiles(ts)) + multiset(UnselectedTiles(ts)) == multiset(ts)
  {
    if ts != [] {
      SelectedUnselectedSplit(ts[1..]);
      assert ts == [ts[0]] + ts[1..];
    }
  }

  /**
    A tile is collected exactly when it is selected, and nothing is
    collected exactly when no tile shows as selected.
   */
  lemma {:induction false} SelectedTilesShown(ts: seq<Tile>)
    ensures forall t :: t in SelectedTiles(ts) ==> t in ts && t.Selected()
    ensures forall t :: t in ts ==> (t in SelectedTiles(ts) <==> t.Selected())
    ensures SelectedTiles(ts) == [] <==> !AnySelected(ViewOf(ts))
  {
    if ts != [] {
      SelectedTilesShown(ts[1..]);
      var v := ViewOf(ts);
      assert v[1..] == ViewOf(ts[1..]);
      assert v[0].selected == ts[0].Selected();
      forall t | t in SelectedTiles(ts)
        ensures t in ts && t.Selected()
      {
        if t != ts[0] {
          assert t in SelectedTiles(ts[1..]);
        }
      }
      forall t | t in ts && t.Selected()
        ensures t in SelectedTiles(ts)
      {
        if t != ts[0] {
          assert t in ts[1..];
        }
      }
      if AnySelected(v) {
        var j :| 0 <= j < |v| && v[j].selected;
        if j > 0 {
          assert v[1..][j - 1].selected;
        }
      }
      if AnySelected(v[1..]) {
        var j :| 0 <= j < |v[1..]| && v[1..][j].selected;
        assert v[j + 1].selected;
      }
    }
  }

  /** Keeping the unselected tiles of a valid panel keeps it valid. */
  lemma {:induction false} UnselectedTilesValid(ts: seq<Tile>)
    requires Distinct(ts)
    requires forall i :: 0 <= i < |ts| ==> Consistent(ts[i].Appearance())
    ensures Distinct(UnselectedTiles(ts))
    ensures forall t :: t in UnselectedTiles(ts) ==> t in ts
    ensures forall i :: 0 <= i < |UnselectedTiles(ts)| ==> Consistent(UnselectedTiles(ts)[i].Appearance())
  {
    if ts != [] {
      var t := ts[1..];
      assert forall i, j :: 0 <= i < j < |t| ==> t[i] == ts[i + 1] && t[j] == ts[j + 1];
      UnselectedTilesValid(t);
      if !ts[0].Selected() {
        assert ts[0] !in t;
        DistinctCons(ts[0], UnselectedTiles(t));
      }
    }
  }

  /** One step of the delete handler's scan over the panel. */
  lemma ScanStep(ts: seq<Tile>, i: nat, s0: seq<ProductTile>)
    requires i < |ts|
    ensures RemoveIds(s0, SelectedIds(ViewOf(ts[..i + 1]))) ==
      var r := RemoveIds(s0, SelectedIds(ViewOf(ts[..i])));
      if ts[i].Selected() then RemoveIds(r, {ts[i].tag.id}) else r
    ensures SelectedTiles(ts[..i + 1]) ==
      SelectedTiles(ts[..i]) + (if ts[i].Selected() then [ts[i]] else [])
  {
    assert ts[..i + 1] == ts[..i] + [ts[i]];
    SelectedTilesAppend(ts[..i], ts[i]);
    ViewOfAppend(ts[..i], ts[i]);
    RemoveIdsStep(s0, ViewOf(ts[..i]), TileView(ts[i].tag, ts[i].Selected()));
  }

  /** Each button appears once and shows one of the two colour pairs. */
  ghost predicate PanelValid(ts: seq<Tile>)
    reads ts
  {
    Distinct(ts) && forall i :: 0 <= i < |ts| ==> Consistent(ts[i].Appearance())
  }

  /**
    What the delete handler's two loops achieve on a valid panel whose
    collected tiles are exactly its selected ones.
   */
  lemma DeleteOutcome(ts: seq<Tile>, rs: seq<Tile>)
    requires PanelValid(ts)
    requires forall t :: t in ts ==> (t in rs <==> t.Selected())
    ensures Without(ts, rs) == UnselectedTiles(ts)
    ensures forall t :: t in UnselectedTiles(ts) ==> t in ts
    ensures PanelValid(UnselectedTiles(ts))
    ensures ViewOf(UnselectedTiles(ts)) == Kept(ViewOf(ts))
  {
    WithoutSelected(ts, rs);
    ViewOfUnselected(ts);
    UnselectedTilesValid(ts);
  }

  class MainWindow {
    /** The product records, in insertion order. */
    var savedTiles: seq<ProductTile>
    /** TilePanel.Children: the tile buttons, in display order. */
    var tilePanel: seq<Tile>
    /** What products.json holds. */
    var file: StoredFile

    /** The panel holds each button once and every button shows one of the two colour pairs. */
    ghost predicate Valid()
      reads this`tilePanel, tilePanel
    {
      PanelValid(tilePanel)
    }

    function View(): seq<TileView>
      reads this`tilePanel, tilePanel
    {
      ViewOf(tilePanel)
    }

    /** The panel shows the store's records one to one, in order, and the ids are unique. */
    ghost predicate Synced()
      reads this`savedTiles, this`tilePanel, tilePanel
    {
      Records(View()) == savedTiles && UniqueIds(savedTiles)
    }

    /** The window's constructor: an empty store and panel, then LoadSavedTiles, whose tiles are all new. */
    constructor (file: StoredFile)
      ensures Valid() && this.file == file
      ensures savedTiles == (if file.Present? && file.content.Some? then file.content.value else [])
      ensures View() == Project(savedTiles)
      ensures UniqueIds(savedTiles) ==> Synced()
      ensures forall j :: 0 <= j < |tilePanel| ==> fresh(tilePanel[j])
    {
      savedTiles := [];
      tilePanel := [];
      this.file := file;
      new;
      LoadSavedTiles();
    }

    /** SaveTiles: the file is overwritten with the whole store. */
    method SaveTiles()
      modifies this`file
      ensures file == Present(Some(savedTiles))
      ensures View() == old(View()) && Valid() == old(Valid())
    {
      file := Present(Some(savedTiles));
    }

    /**
      LoadSavedTiles: when the file exists, the store becomes its content
      (empty for a null list) and one unselected tile per record is appended.
     */
    method LoadSavedTiles()
      requires Valid()
      modifies this`savedTiles, this`tilePanel
      ensures Valid() && file == old(file)
      ensures file.Missing? ==> savedTiles == old(savedTiles) && tilePanel == old(tilePanel)
      ensures file.Present? ==>
        savedTiles == (if file.content.Some? then file.content.value else []) &&
        View() == old(View()) + Project(savedTiles) &&
        tilePanel[..|old(tilePanel)|] == old(tilePanel)
      ensures forall j :: |old(tilePanel)| <= j < |tilePanel| ==> fresh(tilePanel[j])
    {
      if file.Present? {
        var records := if file.content.Some? then file.content.value else [];
        savedTiles := records;
        ghost var p0, v0 := tilePanel, View();
        var k := 0;
        while k < |records|
          invariant 0 <= k <= |records|
          invariant |tilePanel| == |p0| + k && tilePanel[..|p0|] == p0
          invariant forall j :: |p0| <= j < |tilePanel| ==> fresh(tilePanel[j])
          invariant Valid()
          invariant View() == v0 + Project(records[..k])
          modifies this`tilePanel
        {
          ProjectAppend(records[..k], records[k]);
          assert records[..k + 1] == records[..k] + [records[k]];
          AddTile(records[k]);
          k := k + 1;
        }
        assert records[..k] == records;
      }
    }

    /** TilePanel.Children.Add(CreateTile(product)): a new unselected tile at the end of the panel. */
    method AddTile(product: ProductTile)
      requires Valid()
      modifies this`tilePanel
      ensures Valid()
      ensures |tilePanel| == |old(tilePanel)| + 1 && tilePanel[..|old(tilePanel)|] == old(tilePanel)
      ensures fresh(tilePanel[|old(tilePanel)|])
      ensures View() == old(View()) + [TileView(product, false)]
    {
      ghost var p0 := tilePanel;
      var tile := new Tile(product);
      ViewOfAppend(p0, tile);
      DistinctAppend(p0, tile);
      assert forall j :: 0 <= j < |p0| ==> Consistent(p0[j].Appearance());
      tilePanel := tilePanel + [tile];
      assert forall j :: 0 <= j < |p0| ==> tilePanel[j] == p0[j];
    }

    /** A click on the i-th tile of the panel. */
    method ClickTile(i: nat)
      requires Valid() && i < |tilePanel|
      modifies tilePanel[i]
      ensures Valid()
      ensures tilePanel == old(tilePanel) && savedTiles == old(savedTiles) && file == old(file)
      ensures View() == Toggle(old(View()), i)
      ensures old(Synced()) ==> Synced()
    {
      ghost var v0 := View();
      forall j | 0 <= j < |tilePanel|
        ensures v0[j] == TileView(tilePanel[j].tag, tilePanel[j].Selected())
      {
        ViewOfAt(tilePanel, j);
      }
      tilePanel[i].Click();
      forall j | 0 <= j < |tilePanel|
        ensures View()[j] == Toggle(v0, i)[j] && Consistent(tilePanel[j].Appearance())
      {
        ViewOfAt(tilePanel, j);
      }
    }

    /**
      btn_NewProduct_Click: with a name, a record with a fresh id is appended
      to the store, a new unselected tile to the panel, and the store is saved.
     */
    method NewProductClick(name: Option<string>, symbol: string) returns (notice: Option<Notice>)
      requires Valid()
      modifies this`savedTiles, this`tilePanel, this`file
      ensures Valid()
      ensures notice == (if IsNullOrEmpty(name) then Some(NoName) else None)
      ensures IsNullOrEmpty(name) ==>
        savedTiles == old(savedTiles) && tilePanel == old(tilePanel) && file == old(file)
      ensures !IsNullOrEmpty(name) ==>
        var n := |old(savedTiles)|;
        |savedTiles| == n + 1 && savedTiles[..n] == old(savedTiles) &&
        savedTiles[n].name == name.value && savedTiles[n].symbol == symbol &&
        savedTiles[n].id !in Ids(old(savedTiles)) + Ids(Records(old(View()))) &&
        |tilePanel| == |old(tilePanel)| + 1 && tilePanel[..|old(tilePanel)|] == old(tilePanel) &&
        fresh(tilePanel[|old(tilePanel)|]) &&
        View() == old(View()) + [TileView(savedTiles[n], false)] &&
        file == Present(Some(savedTiles))
      ensures old(Synced()) ==> Synced()
    {
      if IsNullOrEmpty(name) {
        notice := Some(NoName);
        return;
      }
      ghost var s0 := savedTiles;
      // Guid.NewGuid(): an id no record or tile has.
      var id := NewGuid(Ids(savedTiles) + Ids(Records(View())));
      var product := ProductTile(id, name.value, symbol);
      UniqueIdsAppend(savedTiles, product);
      RecordsAppend(View(), [TileView(product, false)]);
      savedTiles := savedTiles + [product];
      AddTile(product);
      SaveTiles();
      notice := None;
    }

    /**
      The first loop of btn_DeleteProduct_Click: every selected tile, in
      panel order, is collected, and its id is removed from the store;
      the store that results is returned rather than written back.
     */
    method CollectSelected() returns (toRemove: seq<Tile>, store: seq<ProductTile>)
      ensures store == RemoveIds(savedTiles, SelectedIds(View()))
      ensures toRemove == SelectedTiles(tilePanel)
      ensures forall t :: t in tilePanel ==> (t in toRemove <==> t.Selected())
      ensures toRemove == [] <==> !AnySelected(View())
    {
      RemoveIdsNone(savedTiles, {});
      toRemove := [];
      store := savedTiles;
      var i := 0;
      while i < |tilePanel|
        invariant 0 <= i <= |tilePanel|
        invariant toRemove == SelectedTiles(tilePanel[..i])
        invariant store == RemoveIds(savedTiles, SelectedIds(ViewOf(tilePanel[..i])))
      {
        var tile := tilePanel[i];
        ScanStep(tilePanel, i, savedTiles);
        if tile.background == LightGoldenrodYellow {
          store := RemoveIds(store, {tile.tag.id});
          toRemove := toRemove + [tile];
        }
        i := i + 1;
      }
      assert tilePanel[..i] == tilePanel;
      SelectedTilesShown(tilePanel);
    }

    /**
      The second loop of btn_DeleteProduct_Click: each collected tile leaves
      the panel; when the collected tiles are the selected ones, the panel
      keeps exactly its unselected tiles.
     */
    method RemoveTiles(toRemove: seq<Tile>)
      requires Distinct(tilePanel)
      modifies this`tilePanel
      ensures tilePanel == Without(old(tilePanel), toRemove)
    {
      ghost var p0 := tilePanel;
      var k := 0;
      while k < |toRemove|
        invariant 0 <= k <= |toRemove|
        invariant tilePanel == Without(p0, toRemove[..k])
      {
        RemoveFirstFromWithout(p0, toRemove[..k], toRemove[k]);
        assert toRemove[..k + 1] == toRemove[..k] + [toRemove[k]];
        tilePanel := RemoveFirst(tilePanel, toRemove[k]);
        k := k + 1;
      }
      assert toRemove[..k] == toRemove;
    }

    /**
      The rest of btn_DeleteProduct_Click once some tile is selected: the
      store loses the selected ids, the panel its selected tiles, and the
      store is saved.
     */
    method DeleteSelected(toRemove: seq<Tile>, store: seq<ProductTile>)
      requires Valid()
      requires forall t :: t in tilePanel ==> (t in toRemove <==> t.Selected())
      requires store == RemoveIds(savedTiles, SelectedIds(View()))
      modifies this`savedTiles, this`tilePanel, this`file
      ensures Valid()
      ensures savedTiles == store
      ensures tilePanel == old(UnselectedTiles(tilePanel))
      ensures View() == Kept(old(View()))
      ensures file == Present(Some(savedTiles))
      ensures old(Synced()) ==> Synced()
    {
      ghost var s0, p0, v0 := savedTiles, tilePanel, View();
      SyncAfterDelete(v0, s0);
      DeleteOutcome(p0, toRemove);
      ghost var u, k := UnselectedTiles(p0), Kept(v0);
      assert ViewOf(u) == k && PanelValid(u);
      savedTiles := store;
      RemoveTiles(toRemove);
      assert tilePanel == u;
      assert ViewOf(u) == k;
      assert PanelValid(u);
      SaveTiles();
    }

    /**
      btn_DeleteProduct_Click: the selected tiles' ids are removed from the
      store and the tiles from the panel, and the store is saved; with no
      tile selected nothing changes.
     */
    method DeleteProductClick() returns (notice: Option<Notice>)
      requires Valid()
      modifies this`savedTiles, this`tilePanel, this`file
      ensures Valid()
      ensures notice == (if AnySelected(old(View())) then None else Some(NoSelection))
      ensures !AnySelected(old(View())) ==>
        savedTiles == old(savedTiles) && tilePanel == old(tilePanel) && file == old(file)
      ensures AnySelected(old(View())) ==>
        savedTiles == RemoveIds(old(savedTiles), SelectedIds(old(View()))) &&
        tilePanel == old(UnselectedTiles(tilePanel)) &&
        View() == Kept(old(View())) &&
        file == Present(Some(savedTiles))
      ensures old(Synced()) ==> Synced()
    {
      var toRemove, store := CollectSelected();
      if |toRemove| == 0 {
        notice := Some(NoSelection);
        return;
      }
      DeleteSelected(toRemove, store);
      notice := None;
    }
  }
}
