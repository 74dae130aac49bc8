/**
  The product records of the shopping list and the abstract view of the tile
  panel: each rendered tile reduced to the record it carries (its Tag) and
  whether it is selected. The functions here specify the window's handlers.
 */
module Tiles {
  import opened Wrappers
  import opened Sequences

  /** A product id. The application uses a System.Guid; only equality matters. */
  type Id = nat

  /** The ProductTile record: an id generated at creation, a name and a symbol. */
  datatype ProductTile = ProductTile(id: Id, name: string, symbol: string)

  /** One rendered tile: the record in its Tag and its selected flag. */
  datatype TileView = TileView(product: ProductTile, selected: bool)

  /**
    The products file as the application sees it at start-up: absent, or
    present with the list it deserialises to (None when the JSON is `null`).
   */
  datatype StoredFile = Missing | Present(content: Option<seq<ProductTile>>)

  /** The ids occurring in a list of records. */
  function Ids(s: seq<ProductTile>): (r: set<Id>)
    ensures forall i :: 0 <= i < |s| ==> s[i].id in r
  {
    if s == [] then {} else {s[0].id} + Ids(s[1..])
  }

  /** Ids(s) holds no id other than those of s's records. */
  lemma {:induction false} IdsOnly(s: seq<ProductTile>, id: Id)
    requires forall i :: 0 <= i < |s| ==> s[i].id != id
    ensures id !in Ids(s)
  {
    if s != [] {
      assert forall i :: 0 <= i < |s| - 1 ==> s[1..][i] == s[i + 1];
      IdsOnly(s[1..], id);
    }
  }

  /** No id occurs twice in the list. */
  predicate UniqueIds(s: seq<ProductTile>) {
    s == [] || (s[0].id !in Ids(s[1..]) && UniqueIds(s[1..]))
  }

  lemma {:induction false} UniqueIdsByIndex(s: seq<ProductTile>)
    ensures UniqueIds(s) <==> forall i, j :: 0 <= i < j < |s| ==> s[i].id != s[j].id
  {
    if s != [] {
      var t := s[1..];
      UniqueIdsByIndex(t);
      if UniqueIds(s) {
        forall i, j | 0 <= i < j < |s| ensures s[i].id != s[j].id {
          assert s[j] == t[j - 1];
          if i > 0 {
            assert s[i] == t[i - 1];
          }
        }
      }
      if forall i, j :: 0 <= i < j < |s| ==> s[i].id != s[j].id {
        forall i, j | 0 <= i < j < |t| ensures t[i].id != t[j].id {
          assert t[i] == s[i + 1] && t[j] == s[j + 1];
        }
        assert forall k :: 0 <= k < |t| ==> t[k] == s[k + 1];
        IdsOnly(t, s[0].id);
      }
    }
  }

  lemma {:induction false} IdsAppend(a: seq<ProductTile>, b: seq<ProductTile>)
    ensures Ids(a + b) == Ids(a) + Ids(b)
  {
    if a != [] {
      assert (a + b)[1..] == a[1..] + b;
      IdsAppend(a[1..], b);
    } else {
      assert a + b == b;
    }
  }

  /** Appending a record whose id is new keeps the ids unique, and only then. */
  lemma {:induction false} UniqueIdsAppend(s: seq<ProductTile>, p: ProductTile)
    requires p.id !in Ids(s)
    ensures UniqueIds(s + [p]) <==> UniqueIds(s)
  {
    if s != [] {
      assert (s + [p])[1..] == s[1..] + [p];
      assert Ids(s) == {s[0].id} + Ids(s[1..]);
      IdsAppend(s[1..], [p]);
      assert Ids([p]) == {p.id};
      UniqueIdsAppend(s[1..], p);
    } else {
      assert [] + [p] == [p];
    }
  }

  /**
    The store after List<ProductTile>.RemoveAll(p => ids contains p.Id):
    every record whose id is in ids is gone, every other record stays.
   */
  function RemoveIds(s: seq<ProductTile>, ids: set<Id>): (r: seq<ProductTile>)
    ensures |r| <= |s|
  {
    if s == [] then []
    else
      var rest := RemoveIds(s[1..], ids);
      if s[0].id in ids then rest else [s[0]] + rest
  }

  lemma {:induction false} RemoveIdsMembers(s: seq<ProductTile>, ids: set<Id>)
    ensures forall p :: p in RemoveIds(s, ids) <==> p in s && p.id !in ids
    ensures Ids(RemoveIds(s, ids)) == Ids(s) - ids
  {
    if s != [] {
      RemoveIdsMembers(s[1..], ids);
      assert Ids(s) == {s[0].id} + Ids(s[1..]);
      assert forall p :: p in s <==> p == s[0] || p in s[1..];
    }
  }

  /** RemoveAll with ids no record has leaves the store as it is. */
  lemma {:induction false} RemoveIdsNone(s: seq<ProductTile>, ids: set<Id>)
    requires Ids(s) !! ids
    ensures RemoveIds(s, ids) == s
  {
    if s != [] {
      assert Ids(s) == {s[0].id} + Ids(s[1..]);
      RemoveIdsNone(s[1..], ids);
      assert s == [s[0]] + s[1..];
    }
  }

  lemma {:induction false} RemoveIdsKeepsOrder(s: seq<ProductTile>, ids: set<Id>)
    ensures IsSubsequence(RemoveIds(s, ids), s)
  {
    if s != [] {
      RemoveIdsKeepsOrder(s[1..], ids);
      var rest := RemoveIds(s[1..], ids);
      if s[0].id !in ids {
        assert RemoveIds(s, ids) == [s[0]] + rest;
        assert ([s[0]] + rest)[1..] == rest;
      }
    }
  }

  /** Two successive RemoveAll calls remove the union of their ids. */
  lemma {:induction false} RemoveIdsTwice(s: seq<ProductTile>, a: set<Id>, b: set<Id>)
    ensures RemoveIds(RemoveIds(s, a), b) == RemoveIds(s, a + b)
  {
    if s != [] {
      RemoveIdsTwice(s[1..], a, b);
    }
  }

  /**
    The delete handler calls RemoveAll once per selected tile, in panel
    order; after the calls for the tiles of v and then x, exactly the ids
    of the selected tiles of v + [x] are gone.
   */
  lemma RemoveIdsStep(s: seq<ProductTile>, v: seq<TileView>, x: TileView)
    ensures RemoveIds(s, SelectedIds(v + [x])) ==
      var r := RemoveIds(s, SelectedIds(v));
      if x.selected then RemoveIds(r, {x.product.id}) else r
  {
    SelectedIdsAppend(v, [x]);
    assert SelectedIds([x]) == if x.selected then {x.product.id} else {};
    RemoveIdsTwice(s, SelectedIds(v), {x.product.id});
  }

  lemma {:induction false} RemoveIdsUniqueIds(s: seq<ProductTile>, ids: set<Id>)
    requires UniqueIds(s)
    ensures UniqueIds(RemoveIds(s, ids))
  {
    if s != [] {
      RemoveIdsUniqueIds(s[1..], ids);
      RemoveIdsMembers(s[1..], ids);
    }
  }

  /** The records carried by the tiles, in panel order. */
  function Records(v: seq<TileView>): (r: seq<ProductTile>)
  {
    seq(|v|, i requires 0 <= i < |v| => v[i].product)
  }

  lemma RecordsAppend(a: seq<TileView>, b: seq<TileView>)
    ensures Records(a + b) == Records(a) + Records(b)
  {
  }

  /** Some tile is selected. */
  predicate AnySelected(v: seq<TileView>) {
    exists i :: 0 <= i < |v| && v[i].selected
  }

  /** The ids of the selected tiles. */
  function SelectedIds(v: seq<TileView>): (r: set<Id>)
    ensures r == {} <==> !AnySelected(v)
  {
    if v == [] then {}
    else
      var rest := SelectedIds(v[1..]);
      assert AnySelected(v[1..]) ==> AnySelected(v) by {
        if AnySelected(v[1..]) {
          var k :| 0 <= k < |v| - 1 && v[1..][k].selected;
          assert v[k + 1].selected;
        }
      }
      (if v[0].selected then {v[0].product.id} else {}) + rest
  }

  /** Exactly the selected tiles' ids, which are ids of the panel's records. */
  lemma {:induction false} SelectedIdsMembers(v: seq<TileView>)
    ensures forall i :: 0 <= i < |v| && v[i].selected ==> v[i].product.id in SelectedIds(v)
    ensures forall id :: id in SelectedIds(v) ==> exists i :: 0 <= i < |v| && v[i].selected && v[i].product.id == id
    ensures SelectedIds(v) <= Ids(Records(v))
  {
    if v != [] {
      SelectedIdsMembers(v[1..]);
      assert Records(v) == [v[0].product] + Records(v[1..]);
      assert forall i :: 1 <= i < |v| ==> v[i] == v[1..][i - 1];
      forall id | id in SelectedIds(v)
        ensures exists i :: 0 <= i < |v| && v[i].selected && v[i].product.id == id
      {
        if !(v[0].selected && id == v[0].product.id) {
          var j :| 0 <= j < |v[1..]| && v[1..][j].selected && v[1..][j].product.id == id;
          assert v[j + 1] == v[1..][j];
        }
      }
    }
  }

  lemma {:induction false} SelectedIdsAppend(a: seq<TileView>, b: seq<TileView>)
    ensures SelectedIds(a + b) == SelectedIds(a) + SelectedIds(b)
  {
    if a != [] {
      assert (a + b)[1..] == a[1..] + b;
      SelectedIdsAppend(a[1..], b);
    } else {
      assert a + b == b;
    }
  }

  /** The tiles a delete keeps: the unselected ones, in their order. */
  function Kept(v: seq<TileView>): (r: seq<TileView>)
    ensures |r| <= |v|
  {
    if v == [] then []
    else if v[0].selected then Kept(v[1..])
    else [v[0]] + Kept(v[1..])
  }

  /** Kept keeps exactly the unselected tiles, and all of them when none is selected. */
  lemma {:induction false} KeptMembers(v: seq<TileView>)
    ensures forall t :: t in Kept(v) <==> t in v && !t.selected
    ensures !AnySelected(v) ==> Kept(v) == v
  {
    if v != [] {
      KeptMembers(v[1..]);
      assert v == [v[0]] + v[1..];
      assert !AnySelected(v) ==> !AnySelected(v[1..]) by {
        if AnySelected(v[1..]) {
          var k :| 0 <= k < |v| - 1 && v[1..][k].selected;
          assert v[k + 1].selected;
        }
      }
    }
  }

  lemma {:induction false} RemoveIdsIgnoresAbsent(s: seq<ProductTile>, ids: set<Id>, id: Id)
    requires id !in Ids(s)
    ensures RemoveIds(s, {id} + ids) == RemoveIds(s, ids)
  {
    if s != [] {
      RemoveIdsIgnoresAbsent(s[1..], ids, id);
    }
  }

  /**
    With unique ids, removing the selected tiles' ids from the panel's
    records leaves exactly the records of the unselected tiles.
   */
  lemma {:induction false} RemoveSelectedIds(v: seq<TileView>)
    requires UniqueIds(Records(v))
    ensures RemoveIds(Records(v), SelectedIds(v)) == Records(Kept(v))
  {
    if v != [] {
      var t, x := v[1..], v[0];
      var r, s, id := Records(v), Records(t), x.product.id;
      assert r[0] == x.product && r[1..] == s;
      assert id !in Ids(s) && UniqueIds(s);
      RemoveSelectedIds(t);
      if x.selected {
        // x's id occurs nowhere else, so also removing it from the rest changes nothing.
        calc {
          RemoveIds(r, SelectedIds(v));
          RemoveIds(s, {id} + SelectedIds(t));
          { RemoveIdsIgnoresAbsent(s, SelectedIds(t), id); }
          RemoveIds(s, SelectedIds(t));
        }
      } else {
        var sel := SelectedIds(t);
        SelectedIdsMembers(t);
        assert SelectedIds(v) == sel;
        assert id !in sel;
        assert RemoveIds(r, sel) == [x.product] + RemoveIds(s, sel);
        assert Kept(v) == [x] + Kept(t);
        RecordsAppend([x], Kept(t));
      }
    }
  }

  /**
    A delete keeps a store and a panel in sync: if the panel shows the
    store's records with unique ids, it still does after the selected ids
    leave the store and the selected tiles leave the panel.
   */
  lemma SyncAfterDelete(v: seq<TileView>, s: seq<ProductTile>)
    ensures Records(v) == s && UniqueIds(s) ==>
      var r := RemoveIds(s, SelectedIds(v));
      Records(Kept(v)) == r && UniqueIds(r)
  {
    if Records(v) == s && UniqueIds(s) {
      RemoveSelectedIds(v);
      RemoveIdsUniqueIds(s, SelectedIds(v));
    }
  }

  /** Without unique ids the delete handler loses the sync between store and panel. */
  lemma SyncNeedsUniqueIds()
    ensures exists v :: RemoveIds(Records(v), SelectedIds(v)) != Records(Kept(v))
  {
    var p := ProductTile(0, "Apple", "A");
    var q := ProductTile(0, "Pear", "P");
    var v := [TileView(p, true), TileView(q, false)];
    assert v[1..] == [TileView(q, false)] && v[1..][1..] == [];
    assert Kept(v[1..]) == [TileView(q, false)] + Kept([]);
    assert Kept(v) == [TileView(q, false)];
    assert Records(Kept(v)) == [q];
    assert SelectedIds(v) == {0};
    assert RemoveIds(Records(v), {0}) == [];
  }

  /**
    LoadSavedTiles' projection: one tile per record, in order, none selected.
   */
  function Project(s: seq<ProductTile>): (v: seq<TileView>)
    ensures Records(v) == s
    ensures !AnySelected(v)
  {
    seq(|s|, i requires 0 <= i < |s| => TileView(s[i], false))
  }

  lemma ProjectAppend(s: seq<ProductTile>, p: ProductTile)
    ensures Project(s + [p]) == Project(s) + [TileView(p, false)]
  {
  }

  /** The view after clicking tile i: its flag flips, nothing else changes. */
  function Toggle(v: seq<TileView>, i: nat): (r: seq<TileView>)
    requires i < |v|
    ensures |r| == |v|
    ensures Records(r) == Records(v)
    ensures r[i].selected == !v[i].selected
    ensures forall j :: 0 <= j < |v| && j != i ==> r[j] == v[j]
  {
    v[i := v[i].(selected := !v[i].selected)]
  }

  lemma ToggleTwice(v: seq<TileView>, i: nat)
    requires i < |v|
    ensures Toggle(Toggle(v, i), i) == v
  {
  }

  /** A strict upper bound of a finite set of ids, so an id outside the set exists. */
  ghost function IdBound(used: set<Id>): (b: Id)
    ensures forall id :: id in used ==> id < b
    decreases used
  {
    if used == {} then 0
    else
      var x :| x in used;
      var b := IdBound(used - {x});
      assert forall id :: id in used ==> id == x || id in used - {x};
      if x < b then b else x + 1
  }
}
