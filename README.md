# Shoppy shopping-list window, modelled in Dafny

This project models the main window of the Shoppy shopping-list application
(`MainWindow.xaml.cs`). The window keeps two ordered collections:

- the store `savedTiles`, which holds product records (id, name, symbol);
- the panel `TilePanel.Children`, which holds one button ("tile") per product.
  Each tile carries its record in its `Tag`. Whether a tile is selected is
  encoded only in its colours.

Four handlers change this state:

- the constructor loads the products file;
- the add button appends a product;
- a click on a tile toggles its selection;
- the delete button removes the selected products from the store and the
  panel, then saves.

Modules:

- `Brushes`: the colour pairs of a tile and what a click does to them.
- `Tiles`: pure values and specification functions. These are the
  `ProductTile` record, the abstract view of the panel (`TileView` = record +
  selected flag), `RemoveIds` (what `List.RemoveAll` by id leaves), `Kept`,
  `SelectedIds`, `Project` and `Toggle`, with lemmas about them.
- `Sequences`: generic sequence facts. `RemoveFirst` is
  `UIElementCollection.Remove`; `Without` filters out a list of elements.
- `Shoppy`: the imperative part.
  - `Tile` is a button with mutable `background`/`borderBrush` fields and its
    click handler.
  - `MainWindow` is a class with the fields `savedTiles`, `tilePanel` and
    `file`. Its handlers are methods whose contracts state the new state in
    terms of the `Tiles` functions.

Two predicates describe the window state:

- `MainWindow.Valid()`: the panel holds every button at most once, and every
  button shows one of the two consistent colour pairs.
- `MainWindow.Synced()`: the panel shows the store's records one to one and in
  order, and the ids are unique. Every handler preserves it. The constructor
  establishes it whenever the file's ids are unique.

Behaviour of the code that the model keeps and that is easy to miss:

- A click decides by the border brush (line 70). The delete handler tests the
  background (line 143). They agree only because every click writes both
  colours together: `Brushes.Consistent` is the invariant that makes them
  agree.
- A second click restores the selected flag but not the original colours. The
  border becomes `Black`, not the theme's default (`Brushes.DoubleClick`).
- Deleting with duplicate ids in the store (which only the file can introduce)
  can break the one-to-one match between store and panel: it does when a
  selected tile shares its id with an unselected one
  (`Tiles.SyncNeedsUniqueIds`). Because of this, `Synced` includes unique ids.

## Model

| member | source | states |
|---|---|---|
| Brushes.AfterClick | MainWindow.xaml.cs:66-81 | After a click the colours are a consistent pair. From a consistent pair the selection flips, and the border test the handler makes agrees with the background test used by delete. |
| Brushes.InitialUnselected | MainWindow.xaml.cs:35-38 | A new tile (White background, border left to the theme) is consistent and unselected. |
| Brushes.DoubleClick | MainWindow.xaml.cs:66-81 | Two clicks restore the selected flag. A new tile clicked twice ends White/Black, which differs from its initial colours. |
| Shoppy.IsNullOrEmpty | MainWindow.xaml.cs:92 | `string.IsNullOrEmpty`, with None for null: a name it accepts is present and has at least one character. |
| Shoppy.Tile.Selected | MainWindow.xaml.cs:143 | The delete handler's background test. On a consistent pair of colours it holds exactly when the border is Goldenrod, the test the click handler makes at line 70. |
| Shoppy.Tile.constructor | MainWindow.xaml.cs:29-38 | CreateTile: the tile carries the product as its Tag and has the initial colours. |
| Shoppy.Tile.Click | MainWindow.xaml.cs:66-81 | The click handler sets the colours to `AfterClick` of the previous ones. |
| Tiles.Ids | MainWindow.xaml.cs:22-27 | Every record's id is among the ids of the list. |
| Tiles.IdsOnly | MainWindow.xaml.cs:22-27 | An id that no record has is not among the ids. |
| Tiles.IdsAppend | MainWindow.xaml.cs:101 | The ids of a concatenation are the union of the ids of its parts. |
| Tiles.UniqueIdsByIndex | MainWindow.xaml.cs:24 | The recursive definition of unique ids is equivalent to "no two positions share an id". |
| Tiles.UniqueIdsAppend | MainWindow.xaml.cs:100-101 | Appending a record with a new id keeps the ids unique, and the ids are unique afterwards only if they were before. |
| Tiles.RemoveIds | MainWindow.xaml.cs:148 | `List.RemoveAll` of the records whose id is in the given set: it never adds records (its members are stated by `Tiles.RemoveIdsMembers`). |
| Tiles.RemoveIdsMembers | MainWindow.xaml.cs:148 | After RemoveAll, a record remains exactly when it was in the store and its id is not removed. The remaining ids are the old ids minus the removed ones. |
| Tiles.RemoveIdsNone | MainWindow.xaml.cs:148 | RemoveAll with ids that no record has changes nothing. |
| Tiles.RemoveIdsKeepsOrder | MainWindow.xaml.cs:148 | The remaining records keep their relative order (result is a subsequence of the store). |
| Tiles.RemoveIdsTwice | MainWindow.xaml.cs:148 | Two RemoveAll calls in a row remove the union of their ids. |
| Tiles.RemoveIdsStep | MainWindow.xaml.cs:141-152 | One RemoveAll per selected tile, in panel order, removes exactly the ids of all selected tiles. |
| Tiles.RemoveIdsUniqueIds | MainWindow.xaml.cs:148 | RemoveAll keeps the ids unique. |
| Tiles.RecordsAppend | MainWindow.xaml.cs:104 | The records of a concatenated panel are the concatenation of the records. |
| Tiles.SelectedIds | MainWindow.xaml.cs:141-152 | The set of selected ids is empty exactly when no tile is selected. |
| Tiles.SelectedIdsMembers | MainWindow.xaml.cs:143-148 | An id is selected exactly when some selected tile carries it. Such ids are ids of the panel's records. |
| Tiles.SelectedIdsAppend | MainWindow.xaml.cs:141-152 | The selected ids of a concatenated panel are the union of its parts' selected ids. |
| Tiles.Kept | MainWindow.xaml.cs:150-161 | The view of the panel after a delete: the unselected tiles, in order, never more than before (its members are stated by `Tiles.KeptMembers`). |
| Tiles.KeptMembers | MainWindow.xaml.cs:150-161 | A tile view is kept exactly when it was on the panel and is not selected. With nothing selected, everything is kept. |
| Tiles.RemoveSelectedIds | MainWindow.xaml.cs:141-161 | With unique ids, removing the selected ids from the panel's records leaves exactly the records of the unselected tiles, in order. |
| Tiles.SyncAfterDelete | MainWindow.xaml.cs:141-161 | If the panel matches the store with unique ids before a delete, it still matches afterwards. |
| Tiles.SyncNeedsUniqueIds | MainWindow.xaml.cs:148 | There is a panel with duplicate ids where the delete loses the match between store and panel. |
| Tiles.Project | MainWindow.xaml.cs:126-130 | Loading shows exactly the store's records, in order, with no tile selected. |
| Tiles.ProjectAppend | MainWindow.xaml.cs:126-130 | Projecting one more record appends one unselected tile. |
| Tiles.Toggle | MainWindow.xaml.cs:66-81 | A click flips only the clicked tile's flag. No record and no other tile changes. |
| Tiles.ToggleTwice | MainWindow.xaml.cs:66-81 | Clicking the same tile twice restores the view. |
| Tiles.IdBound | MainWindow.xaml.cs:24 | Every finite set of ids has an upper bound, so a fresh id exists. |
| Sequences.DistinctAppend | MainWindow.xaml.cs:104 | Appending a new element keeps a sequence free of duplicates. |
| Sequences.DistinctCons | MainWindow.xaml.cs:160-161 | Prepending a new element keeps a sequence free of duplicates. |
| Sequences.RemoveFirst | MainWindow.xaml.cs:161 | Removing an element that is absent changes nothing. |
| Sequences.RemoveFirstMultiset | MainWindow.xaml.cs:161 | Children.Remove takes away exactly one occurrence of the element, if there is one. |
| Sequences.Without | MainWindow.xaml.cs:160-161 | Filtering out nothing changes nothing. |
| Sequences.WithoutMembers | MainWindow.xaml.cs:160-161 | An element survives the filter exactly when it was there and is not in the removal list. |
| Sequences.WithoutIsSubsequence | MainWindow.xaml.cs:160-161 | The filtered panel keeps its relative order. |
| Sequences.WithoutIgnoresAbsent | MainWindow.xaml.cs:160-161 | Adding an absent element to the removal list changes nothing. |
| Sequences.RemoveFirstFromWithout | MainWindow.xaml.cs:160-161 | On a panel without duplicates, removing the listed tiles one by one equals filtering them out at once. |
| Shoppy.ViewOf | MainWindow.xaml.cs:141-146 | The view has one entry per tile. |
| Shoppy.ViewOfAt | MainWindow.xaml.cs:141-146 | Entry i of the view is tile i's Tag and its background test. |
| Shoppy.ViewOfAppend | MainWindow.xaml.cs:104 | Appending a tile appends its view entry. |
| Shoppy.NewGuid | MainWindow.xaml.cs:24 | Guid.NewGuid returns an id outside the given set of used ids. |
| Shoppy.ViewOfUnselected | MainWindow.xaml.cs:160-161 | The view of the unselected tiles is `Kept` of the panel's view. |
| Shoppy.WithoutSelected | MainWindow.xaml.cs:150-161 | If the collected tiles are exactly the selected ones, filtering them out leaves the unselected tiles. |
| Shoppy.SelectedTiles | MainWindow.xaml.cs:141-151 | The `toRemove` list: never longer than the panel (its members are stated by `Shoppy.SelectedTilesShown`). |
| Shoppy.UnselectedTiles | MainWindow.xaml.cs:160-161 | The tiles the second loop keeps: never more than the panel (stated exactly by `Shoppy.DeleteOutcome`). |
| Shoppy.SelectedUnselectedSplit | MainWindow.xaml.cs:141-161 | The removed tiles and the kept tiles together are exactly the panel, counted with multiplicity. |
| Shoppy.SelectedTilesAppend | MainWindow.xaml.cs:141-152 | Scanning one more tile adds it to the collected list exactly when it is selected. |
| Shoppy.SelectedTilesShown | MainWindow.xaml.cs:141-158 | A tile is collected exactly when it is selected. Nothing is collected exactly when no tile shows as selected. |
| Shoppy.UnselectedTilesValid | MainWindow.xaml.cs:160-161 | Keeping the unselected tiles keeps the panel free of duplicates and its colours consistent. |
| Shoppy.ScanStep | MainWindow.xaml.cs:141-152 | One iteration of the delete scan extends both the store removal and the collected list correctly. |
| Shoppy.DeleteOutcome | MainWindow.xaml.cs:150-161 | On a valid panel whose collected tiles are its selected ones, the second loop leaves the unselected tiles in order. The panel stays valid and its view is `Kept` of the old view. |
| Shoppy.MainWindow.constructor | MainWindow.xaml.cs:15-19 | A missing file gives an empty store and panel. A present file gives its records (empty for null) and one new unselected tile per record, in order. With unique ids the window starts in sync. |
| Shoppy.MainWindow.SaveTiles | MainWindow.xaml.cs:114-118 | The file afterwards holds the whole store. Nothing else changes. |
| Shoppy.MainWindow.LoadSavedTiles | MainWindow.xaml.cs:120-132 | If the file exists, the store becomes its content (empty for null) and the panel gains one new unselected tile per record, the old tiles unchanged. If it is missing, nothing changes. |
| Shoppy.MainWindow.AddTile | MainWindow.xaml.cs:103-104 | A new unselected tile for the product is appended to the panel. Earlier tiles are unchanged and the panel stays valid. |
| Shoppy.MainWindow.ClickTile | MainWindow.xaml.cs:66-81 | A click toggles only that tile's flag. Store, panel order and file are untouched, and sync is kept. |
| Shoppy.MainWindow.NewProductClick | MainWindow.xaml.cs:87-108 | A null or empty name shows NoName and changes nothing. Otherwise the store gains exactly one record at the end, with that name and symbol and an id no record or tile had. The panel gains one unselected tile for it, earlier entries are unchanged, the file is saved, and sync is kept. |
| Shoppy.MainWindow.CollectSelected | MainWindow.xaml.cs:137-152 | The first loop collects exactly the selected tiles, in panel order. It computes the store minus the selected ids, and collects nothing exactly when nothing is selected. |
| Shoppy.MainWindow.RemoveTiles | MainWindow.xaml.cs:160-161 | Removing the collected tiles one by one leaves the panel filtered by them. |
| Shoppy.MainWindow.DeleteSelected | MainWindow.xaml.cs:148-163 | With something selected: the store loses exactly the selected ids, the panel keeps exactly the unselected tiles in order, the file is saved, and sync is kept. |
| Shoppy.MainWindow.DeleteProductClick | MainWindow.xaml.cs:135-164 | With no selection it shows NoSelection and changes nothing. Otherwise the store keeps the records whose ids are not selected and the panel keeps the unselected tiles, both in order. The file is saved and validity and sync are kept. |

## Left out

- JSON (`JsonConvert.SerializeObject` / `DeserializeObject`, lines 116 and 125) is a call into Newtonsoft, which is not part of this model. The file is modelled as the list it stands for (`StoredFile`). Saving is assumed to write, and loading to read back, exactly the store, so the round trip through JSON is assumed rather than proved. Malformed JSON, which makes `DeserializeObject` throw, is not modelled. Neither is a well-formed list with a null element (such as `[null]`): `StoredFile` cannot hold one, and in the program `CreateTile` would throw on `product.Symbol` (line 46).
- File I/O (`File.Exists`, `ReadAllText`, `WriteAllText`) is reduced to the `file` field. Its `Missing` case is `File.Exists` returning false.
- The WPF layout of a tile (sizes, fonts, margins, text blocks, cursor; lines 31-64) and `InitializeComponent` are not modelled. Only the Tag and the two brushes are kept.
- `MessageBox.Show` is modelled as the returned `Notice` on the early-return paths.
- The text boxes are inputs to `NewProductClick`: the name as an optional string (None for null) and the symbol as a string.
- Guid randomness becomes a natural number chosen outside the ids in use. The model relies only on its uniqueness.
- Shoppy.MainWindow.DeleteProductClick: the `Tag as ProductTile` null check (line 146) is not modelled, because every tile in this model carries a record.
- Shoppy.MainWindow.CollectSelected: the store is computed in a local variable and written back once after the loop, instead of by a `RemoveAll` in every iteration. Nothing reads the store in between, so the final state is the same.
- Duplicate ids arriving from the file: the source does not say what happens. `Synced` therefore includes unique ids, and the constructor establishes it only when the file's ids are unique.
- Event dispatch and threading: handlers are methods called one at a time.
