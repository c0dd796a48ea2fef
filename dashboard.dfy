/**
 * The decision logic of the dashboard's redraw: which workstations are
 * shown under the (manufacturer, ticked models, pending-only) filter, which
 * update rows each shown technician lists, where each card goes in grid or
 * list mode, the placeholder fill of the grid, and the technician counter.
 *
 * The redraw clears the grid first, so it depends only on the tables and
 * the filter; it is a method that computes the placements instead of
 * adding widgets to a layout.
 */
module Dashboard {
  import opened Schema
  import opened Queries

  const MAX_COLS: int := 10
  const MAX_ROWS: int := 6

  datatype ViewMode = Grid | List

  /** The combo box's text, the ticked models, and the pending-only box. */
  datatype Filter = Filter(manufacturer: string, selectedModels: seq<string>, pendingOnly: bool)

  predicate FilterActive(f: Filter)
  {
    f.manufacturer != ALL || |f.selectedModels| > 0
  }

  // ---------------------------------------------------------------------
  // Which workstations are shown
  // ---------------------------------------------------------------------

  predicate ServesManufacturer(devs: seq<(string, string)>, manufacturer: string)
  {
    exists p :: p in devs && p.0 == manufacturer
  }

  predicate ServesSelectedModel(devs: seq<(string, string)>, models: seq<string>)
  {
    exists p :: p in devs && p.1 in models
  }

  /** The two device checks on a technician, each over all of the
      technician's devices on its own. */
  predicate PassesDeviceFilter(db: Db, f: Filter, t: int)
  {
    var devs := TechnicianDevices(db, t);
    && (f.manufacturer != ALL ==> ServesManufacturer(devs, f.manufacturer))
    && (f.selectedModels != [] ==> ServesSelectedModel(devs, f.selectedModels))
  }

  predicate HasPending(db: Db, f: Filter, t: int)
  {
    PendingUpdatesCount(db, t, Some(f.manufacturer), f.selectedModels) != 0
  }

  /** A technician counts as pending exactly when one of its joined update
      rows is unconfirmed and passes the manufacturer and model filters. */
  lemma HasPendingIff(db: Db, f: Filter, t: int)
    ensures HasPending(db, f, t) <==>
      exists y :: y in JoinRows(db, t) && IsPending(y) && MatchesFilters(y, Some(f.manufacturer), f.selectedModels)
  {
    PendingUpdatesCountZero(db, t, Some(f.manufacturer), f.selectedModels);
  }

  /** Whether the redraw builds a card for the row. */
  predicate Shown(db: Db, f: Filter, x: WsRow)
  {
    match x.techId
    case None => !FilterActive(f) && !f.pendingOnly
    case Some(t) =>
      && (FilterActive(f) ==> PassesDeviceFilter(db, f, t))
      && (f.pendingOnly ==> HasPending(db, f, t))
  }

  function ShownRows(db: Db, f: Filter, rows: seq<WsRow>): (r: seq<WsRow>)
    ensures |r| <= |rows|
    ensures forall x :: x in r <==> x in rows && Shown(db, f, x)
  {
    if rows == [] then []
    else
      var prefix, x := rows[..|rows| - 1], rows[|rows| - 1];
      assert rows == prefix + [x];
      ShownRows(db, f, prefix) + (if Shown(db, f, x) then [x] else [])
  }

  /** Filtering keeps enumeration order: one more row adds its card at the end, if shown. */
  lemma ShownRowsAppend(db: Db, f: Filter, rows: seq<WsRow>, x: WsRow)
    ensures ShownRows(db, f, rows + [x]) == ShownRows(db, f, rows) + (if Shown(db, f, x) then [x] else [])
  {
    assert (rows + [x])[..|rows|] == rows;
  }

  /** An unassigned workstation is shown exactly when no filter is set and
      pending-only is off; under a filter every shown card has a technician. */
  lemma UnassignedShownIffNoFilter(db: Db, f: Filter, rows: seq<WsRow>, x: WsRow)
    requires x in rows && x.techId.None?
    ensures x in ShownRows(db, f, rows) <==> !FilterActive(f) && !f.pendingOnly
  {
  }

  /** A shown technician passes both device checks under an active filter
      and has a pending update under pending-only. */
  lemma ShownTechnicianPassesChecks(db: Db, f: Filter, rows: seq<WsRow>, x: WsRow)
    requires x in ShownRows(db, f, rows) && x.techId.Some?
    ensures FilterActive(f) && f.manufacturer != ALL ==>
      exists p :: p in TechnicianDevices(db, x.techId.value) && p.0 == f.manufacturer
    ensures FilterActive(f) && f.selectedModels != [] ==>
      exists p :: p in TechnicianDevices(db, x.techId.value) && p.1 in f.selectedModels
    ensures f.pendingOnly ==> PendingUpdatesCount(db, x.techId.value, Some(f.manufacturer), f.selectedModels) >= 1
    ensures f.pendingOnly ==>
      exists y :: y in UpdatesForTechnician(db, x.techId.value)
        && IsPending(y) && MatchesFilters(y, Some(f.manufacturer), f.selectedModels)
  {
    if f.pendingOnly {
      var t := x.techId.value;
      PendingUpdatesCountZero(db, t, Some(f.manufacturer), f.selectedModels);
      var y :| y in JoinRows(db, t) && IsPending(y) && MatchesFilters(y, Some(f.manufacturer), f.selectedModels);
      JoinRowsListed(db, t, y);
    }
  }

  /** With the default filter every workstation gets a card. */
  lemma {:induction false} DefaultFilterShowsAll(db: Db, rows: seq<WsRow>)
    ensures ShownRows(db, Filter(ALL, [], false), rows) == rows
  {
    if rows != [] {
      DefaultFilterShowsAll(db, rows[..|rows| - 1]);
      assert rows == rows[..|rows| - 1] + [rows[|rows| - 1]];
    }
  }

  /** The two device checks need not hold on the same device: a technician
      linked to a device of manufacturer m and to a device of model y
      passes the filter (m, [y]) even when no device is both. */
  lemma ChecksAreIndependent(db: Db, t: int, l1: Link, d1: Device, l2: Link, d2: Device, m: string, y: string)
    requires WellFormed(db)
    requires l1 in db.links && l1.technicianId == t && d1 in db.devices && d1.id == l1.deviceId
    requires l2 in db.links && l2.technicianId == t && d2 in db.devices && d2.id == l2.deviceId
    requires d1.manufacturer == m && d2.model == y
    ensures PassesDeviceFilter(db, Filter(m, [y], false), t)
  {
    TechnicianDevicesComplete(db, t, l1, d1);
    TechnicianDevicesComplete(db, t, l2, d2);
    assert ServesManufacturer(TechnicianDevices(db, t), m);
    assert ServesSelectedModel(TechnicianDevices(db, t), [y]);
  }

  /** ... and the card of such a technician then lists no update line,
      since the line filter needs both on the same row. */
  lemma NoLineWithoutMatchingDevice(db: Db, t: int, m: string, y: string)
    requires m != ALL
    requires forall d :: d in db.devices ==> d.manufacturer != m || d.model != y
    ensures Entries(UpdatesForTechnician(db, t), Filter(m, [y], false)) == []
  {
    var f := Filter(m, [y], false);
    var rows := UpdatesForTechnician(db, t);
    forall x | x in rows ensures !RowSelected(f, x) {
      var d :| d in LinkedDevices(db, t) && IsJoinRow(db, t, d, x);
      assert d in db.devices;
      if x != NullUpdateRow(d) {
        var u :| u in db.updates && u.deviceId == d.id && x == UpdateRow(db, t, d, u);
      }
      assert x.manufacturer == d.manufacturer && x.model == d.model;
    }
    EntriesNone(rows, f);
  }

  // ---------------------------------------------------------------------
  // The update rows listed on a card
  // ---------------------------------------------------------------------

  /** What a card line offers: nothing for a confirmed row, otherwise a
      button that confirms the row's update id (null for the row of a
      device without updates). */
  datatype ConfirmAction = AlreadyConfirmed | ConfirmButton(target: Option<int>)

  datatype Entry = Entry(manufacturer: string, model: string, version: Option<string>, action: ConfirmAction)

  /** The per-row filter: the model must be ticked (if any is) and the
      manufacturer must be the chosen one (unless "Todas"). */
  predicate RowSelected(f: Filter, x: TechUpdate)
  {
    && (f.selectedModels != [] ==> x.model in f.selectedModels)
    && (f.manufacturer != ALL ==> x.manufacturer == f.manufacturer)
  }

  function EntryOf(x: TechUpdate): (e: Entry)
    ensures e.manufacturer == x.manufacturer && e.model == x.model && e.version == x.version
    ensures e.action == AlreadyConfirmed <==> x.confirmed != 0
    ensures e.action.ConfirmButton? ==> e.action.target == x.updateId
  {
    Entry(x.manufacturer, x.model, x.version,
          if x.confirmed != 0 then AlreadyConfirmed else ConfirmButton(x.updateId))
  }

  /** The selected rows, as card lines, in query order. */
  function Entries(rows: seq<TechUpdate>, f: Filter): (r: seq<Entry>)
    ensures |r| <= |rows|
    ensures forall e :: e in r ==> exists x :: x in rows && RowSelected(f, x) && e == EntryOf(x)
  {
    if rows == [] then []
    else
      var prefix, x := rows[..|rows| - 1], rows[|rows| - 1];
      assert rows == prefix + [x];
      Entries(prefix, f) + (if RowSelected(f, x) then [EntryOf(x)] else [])
  }

  lemma {:induction false} EntriesComplete(rows: seq<TechUpdate>, f: Filter, x: TechUpdate)
    requires x in rows && RowSelected(f, x)
    ensures EntryOf(x) in Entries(rows, f)
  {
    var prefix := rows[..|rows| - 1];
    assert rows == prefix + [rows[|rows| - 1]];
    if x != rows[|rows| - 1] {
      assert x in prefix;
      EntriesComplete(prefix, f, x);
    }
  }

  lemma {:induction false} EntriesNone(rows: seq<TechUpdate>, f: Filter)
    requires forall x :: x in rows ==> !RowSelected(f, x)
    ensures Entries(rows, f) == []
  {
    if rows != [] {
      var prefix := rows[..|rows| - 1];
      assert rows == prefix + [rows[|rows| - 1]];
      EntriesNone(prefix, f);
    }
  }

  /** Filtering keeps query order: it distributes over concatenation. */
  lemma {:induction false} EntriesAppend(a: seq<TechUpdate>, b: seq<TechUpdate>, f: Filter)
    ensures Entries(a + b, f) == Entries(a, f) + Entries(b, f)
  {
    if b != [] {
      var prefix, x := b[..|b| - 1], b[|b| - 1];
      assert (a + b)[..|a + b| - 1] == a + prefix;
      EntriesAppend(a, prefix, f);
    } else {
      assert a + b == a;
    }
  }

  /** The card lines, built row by row. */
  method VisibleEntries(rows: seq<TechUpdate>, f: Filter) returns (es: seq<Entry>)
    ensures es == Entries(rows, f)
  {
    es := [];
    var i := 0;
    while i < |rows|
      invariant 0 <= i <= |rows|
      invariant es == Entries(rows[..i], f)
    {
      var x := rows[i];
      assert rows[..i + 1][..i] == rows[..i];
      if (f.selectedModels == [] || x.model in f.selectedModels)
        && (f.manufacturer == ALL || x.manufacturer == f.manufacturer) {
        es := es + [EntryOf(x)];
      }
      i := i + 1;
    }
    assert rows[..i] == rows;
  }

  // ---------------------------------------------------------------------
  // Cards and where they go
  // ---------------------------------------------------------------------

  datatype Body = NoTechnician | Staffed(techName: Option<string>, entries: seq<Entry>)
  datatype Widget = Card(wsId: int, title: string, body: Body) | Placeholder
  datatype Placement = Placement(row: int, col: int, widget: Widget)

  /** The card title: the workstation name, then the PC serial in
      parentheses when there is a non-empty one. */
  function Title(x: WsRow): (s: string)
    ensures x.wsName <= s
    ensures |s| > |x.wsName| <==> x.pcSerial.Some? && x.pcSerial.value != ""
  {
    x.wsName + (if x.pcSerial.Some? && x.pcSerial.value != "" then " (" + x.pcSerial.value + ")" else "")
  }

  function CardOf(db: Db, f: Filter, x: WsRow): (w: Widget)
  {
    Card(x.wsId, Title(x),
         if x.techId.None? then NoTechnician
         else Staffed(x.techName, Entries(UpdatesForTechnician(db, x.techId.value), f)))
  }

  /** A card names its workstation and starts its title with the
      workstation name; an unassigned workstation gets the "no technician"
      body, an assigned one lists exactly the selected rows of its
      technician's update list. */
  lemma CardOfDescribes(db: Db, f: Filter, x: WsRow)
    ensures CardOf(db, f, x).Card? && CardOf(db, f, x).wsId == x.wsId
    ensures x.wsName <= CardOf(db, f, x).title
    ensures CardOf(db, f, x).body.NoTechnician? <==> x.techId.None?
    ensures x.techId.Some? ==> CardOf(db, f, x).body.techName == x.techName
    ensures x.techId.Some? ==> forall e ::
      e in CardOf(db, f, x).body.entries <==>
        exists y :: y in UpdatesForTechnician(db, x.techId.value) && RowSelected(f, y) && e == EntryOf(y)
  {
    if x.techId.Some? {
      var rows := UpdatesForTechnician(db, x.techId.value);
      forall e | exists y :: y in rows && RowSelected(f, y) && e == EntryOf(y)
        ensures e in Entries(rows, f)
      {
        var y :| y in rows && RowSelected(f, y) && e == EntryOf(y);
        EntriesComplete(rows, f, y);
      }
    }
  }

  /** The cards of the shown rows in enumeration order; in grid mode at
      the workstation's (pos_y, pos_x), in list mode in the next row of
      column 0. */
  function Layout(db: Db, f: Filter, mode: ViewMode, rows: seq<WsRow>): seq<Placement>
  {
    if rows == [] then []
    else
      var prev := Layout(db, f, mode, rows[..|rows| - 1]);
      var x := rows[|rows| - 1];
      if Shown(db, f, x) then
        prev + [Placement(if mode.Grid? then x.posY else |prev|, if mode.Grid? then x.posX else 0, CardOf(db, f, x))]
      else prev
  }

  /** The k-th shown row's card sits at its own position in grid mode and
      at row k of column 0 in list mode: skipped rows take no slot. */
  lemma {:induction false} LayoutFollowsShownRows(db: Db, f: Filter, mode: ViewMode, rows: seq<WsRow>)
    ensures |Layout(db, f, mode, rows)| == |ShownRows(db, f, rows)|
    ensures forall k :: 0 <= k < |ShownRows(db, f, rows)| ==>
      var x := ShownRows(db, f, rows)[k];
      Layout(db, f, mode, rows)[k]
        == Placement(if mode.Grid? then x.posY else k, if mode.Grid? then x.posX else 0, CardOf(db, f, x))
  {
    if rows != [] {
      var prefix, x := rows[..|rows| - 1], rows[|rows| - 1];
      LayoutFollowsShownRows(db, f, mode, prefix);
      var lay, shown := Layout(db, f, mode, prefix), ShownRows(db, f, prefix);
      assert ShownRows(db, f, rows) == shown + (if Shown(db, f, x) then [x] else []);
      forall k | 0 <= k < |ShownRows(db, f, rows)|
        ensures Layout(db, f, mode, rows)[k]
          == Placement(if mode.Grid? then ShownRows(db, f, rows)[k].posY else k,
                       if mode.Grid? then ShownRows(db, f, rows)[k].posX else 0,
                       CardOf(db, f, ShownRows(db, f, rows)[k]))
      {
        if k < |shown| {
          assert ShownRows(db, f, rows)[k] == shown[k];
          assert Layout(db, f, mode, rows)[k] == lay[k];
        }
      }
    }
  }

  /** Cards of shown rows that have a technician: what the counter counts. */
  function StaffedCount(rows: seq<WsRow>): (n: nat)
    ensures n <= |rows|
  {
    if rows == [] then 0
    else StaffedCount(rows[..|rows| - 1]) + (if rows[|rows| - 1].techId.Some? then 1 else 0)
  }

  function CountedTechs(db: Db, f: Filter, rows: seq<WsRow>): nat
  {
    StaffedCount(ShownRows(db, f, rows))
  }

  // ---------------------------------------------------------------------
  // The placeholder fill
  // ---------------------------------------------------------------------

  predicate Occupied(cells: seq<Placement>, r: int, c: int)
  {
    exists p :: p in cells && p.row == r && p.col == c
  }

  predicate InGrid(r: int, c: int)
  {
    0 <= r < MAX_ROWS && 0 <= c < MAX_COLS
  }

  /** p comes before cell (r, c) in row-major order. */
  predicate Before(p: Placement, r: int, c: int)
  {
    p.row < r || (p.row == r && p.col < c)
  }

  /** cells is placed followed by placeholders that cover every empty cell
      of the MAX_ROWS x MAX_COLS grid, one each, in row-major order. */
  ghost predicate Filled(placed: seq<Placement>, cells: seq<Placement>)
  {
    && |placed| <= |cells| && cells[..|placed|] == placed
    && (forall r, c :: InGrid(r, c) ==> Occupied(cells, r, c))
    && (forall k :: |placed| <= k < |cells| ==>
          cells[k].widget == Placeholder && InGrid(cells[k].row, cells[k].col)
          && !Occupied(placed, cells[k].row, cells[k].col))
    && (forall k, l :: |placed| <= k < l < |cells| ==> Before(cells[k], cells[l].row, cells[l].col))
  }

  /** The row/column scan that puts a placeholder in every empty cell. */
  method FillPlaceholders(placed: seq<Placement>) returns (cells: seq<Placement>)
    ensures Filled(placed, cells)
  {
    cells := placed;
    var row := 0;
    while row < MAX_ROWS
      invariant 0 <= row <= MAX_ROWS
      invariant |placed| <= |cells| && cells[..|placed|] == placed
      invariant forall r, c :: 0 <= r < row && 0 <= c < MAX_COLS ==> Occupied(cells, r, c)
      invariant forall k :: |placed| <= k < |cells| ==>
        cells[k].widget == Placeholder && InGrid(cells[k].row, cells[k].col)
        && !Occupied(placed, cells[k].row, cells[k].col) && Before(cells[k], row, 0)
      invariant forall k, l :: |placed| <= k < l < |cells| ==> Before(cells[k], cells[l].row, cells[l].col)
    {
      var col := 0;
      while col < MAX_COLS
        invariant 0 <= col <= MAX_COLS
        invariant |placed| <= |cells| && cells[..|placed|] == placed
        invariant forall r, c :: 0 <= r < row && 0 <= c < MAX_COLS ==> Occupied(cells, r, c)
        invariant forall c :: 0 <= c < col ==> Occupied(cells, row, c)
        invariant forall k :: |placed| <= k < |cells| ==>
          cells[k].widget == Placeholder && InGrid(cells[k].row, cells[k].col)
          && !Occupied(placed, cells[k].row, cells[k].col) && Before(cells[k], row, col)
        invariant forall k, l :: |placed| <= k < l < |cells| ==> Before(cells[k], cells[l].row, cells[l].col)
      {
        if !(exists p :: p in cells && p.row == row && p.col == col) {
          assert !Occupied(placed, row, col) by {
            forall p | p in placed ensures !(p.row == row && p.col == col) {
              var k :| 0 <= k < |placed| && placed[k] == p;
              assert cells[k] == p;
            }
          }
          var old_cells := cells;
          cells := cells + [Placement(row, col, Placeholder)];
          assert cells[..|placed|] == old_cells[..|placed|];
          assert Occupied(cells, row, col) by {
            assert cells[|cells| - 1] in cells;
          }
          forall r, c | (0 <= r < row && 0 <= c < MAX_COLS) || (r == row && 0 <= c < col)
            ensures Occupied(cells, r, c)
          {
            assert Occupied(old_cells, r, c);
            var p :| p in old_cells && p.row == r && p.col == c;
            assert p in cells;
          }
        }
        col := col + 1;
      }
      row := row + 1;
    }
  }

  // ---------------------------------------------------------------------
  // The redraw
  // ---------------------------------------------------------------------

  /** One more row of the enumeration, for the loop of UpdateDashboard. */
  lemma LayoutStep(db: Db, f: Filter, mode: ViewMode, rows: seq<WsRow>, i: nat, shown: bool, card: Widget)
    requires i < |rows|
    requires shown == Shown(db, f, rows[i]) && (shown ==> card == CardOf(db, f, rows[i]))
    ensures var prev := Layout(db, f, mode, rows[..i]);
      Layout(db, f, mode, rows[..i + 1])
        == (if shown then
              prev + [Placement(if mode.Grid? then rows[i].posY else |prev|,
                                if mode.Grid? then rows[i].posX else 0, card)]
            else prev)
    ensures CountedTechs(db, f, rows[..i + 1])
      == CountedTechs(db, f, rows[..i]) + (if shown && rows[i].techId.Some? then 1 else 0)
  {
    var prefix := rows[..i + 1];
    assert prefix[..|prefix| - 1] == rows[..i];
    assert prefix[|prefix| - 1] == rows[i];
    var s := ShownRows(db, f, rows[..i]);
    var s2 := ShownRows(db, f, prefix);
    assert s2 == s + (if shown then [rows[i]] else []);
    if shown {
      assert s2[..|s2| - 1] == s && s2[|s2| - 1] == rows[i];
      assert StaffedCount(s2) == StaffedCount(s) + (if rows[i].techId.Some? then 1 else 0);
    } else {
      assert s2 == s;
    }
  }

  /** The two device checks of an active filter on technician t. */
  method DeviceChecks(db: Db, f: Filter, t: int) returns (passes: bool)
    ensures passes == PassesDeviceFilter(db, f, t)
  {
    var devs := TechnicianDevices(db, t);
    if f.manufacturer != ALL && !(exists p :: p in devs && p.0 == f.manufacturer) {
      return false;
    }
    if f.selectedModels != [] && !(exists p :: p in devs && p.1 in f.selectedModels) {
      return false;
    }
    return true;
  }

  /** The body of the enumeration loop for one row: whether it gets a
      card, and the card. */
  method BuildCard(db: Db, f: Filter, filterActive: bool, x: WsRow) returns (shown: bool, card: Widget)
    requires filterActive == FilterActive(f)
    ensures shown == Shown(db, f, x)
    ensures shown ==> card == CardOf(db, f, x)
  {
    card := Placeholder;
    if x.techId.None? && (filterActive || f.pendingOnly) {
      return false, card;
    }
    var body := NoTechnician;
    if x.techId.Some? {
      var t := x.techId.value;
      if filterActive {
        var passes := DeviceChecks(db, f, t);
        if !passes {
          return false, card;
        }
      }
      if f.pendingOnly {
        var pending := PendingUpdatesCount(db, t, Some(f.manufacturer), f.selectedModels);
        if pending == 0 {
          return false, card;
        }
      }
      var entries := VisibleEntries(UpdatesForTechnician(db, t), f);
      body := Staffed(x.techName, entries);
    }
    return true, Card(x.wsId, Title(x), body);
  }

  /** One pass of the enumeration loop: row i gets its card, if shown. */
  method PlaceNext(db: Db, f: Filter, filterActive: bool, mode: ViewMode, rows: seq<WsRow>, i: nat,
                   cells: seq<Placement>, numTechs: nat, rowCounter: nat)
    returns (cells': seq<Placement>, numTechs': nat, rowCounter': nat)
    requires filterActive == FilterActive(f)
    requires i < |rows|
    requires cells == Layout(db, f, mode, rows[..i])
    requires numTechs == CountedTechs(db, f, rows[..i])
    requires mode.List? ==> rowCounter == |cells|
    ensures cells' == Layout(db, f, mode, rows[..i + 1])
    ensures numTechs' == CountedTechs(db, f, rows[..i + 1])
    ensures mode.List? ==> rowCounter' == |cells'|
  {
    var x := rows[i];
    var shown, card := BuildCard(db, f, filterActive, x);
    LayoutStep(db, f, mode, rows, i, shown, card);
    cells', numTechs', rowCounter' := cells, numTechs, rowCounter;
    if shown {
      if x.techId.Some? {
        numTechs' := numTechs + 1;
      }
      if mode.Grid? {
        cells' := cells + [Placement(x.posY, x.posX, card)];
      } else {
        cells' := cells + [Placement(rowCounter, 0, card)];
        rowCounter' := rowCounter + 1;
      }
    }
  }

  /** The enumeration loop: a card for every shown row, at its grid
      position or on the next free list row, and the shown-technician
      counter. */
  method PlaceCards(db: Db, f: Filter, mode: ViewMode, rows: seq<WsRow>)
    returns (cells: seq<Placement>, numTechs: nat)
    ensures cells == Layout(db, f, mode, rows)
    ensures numTechs == CountedTechs(db, f, rows)
  {
    var filterActive := f.manufacturer != ALL || |f.selectedModels| > 0;
    numTechs := 0;
    var rowCounter := 0;
    cells := [];
    var i := 0;
    while i < |rows|
      invariant 0 <= i <= |rows|
      invariant cells == Layout(db, f, mode, rows[..i])
      invariant numTechs == CountedTechs(db, f, rows[..i])
      invariant mode.List? ==> rowCounter == |cells|
    {
      cells, numTechs, rowCounter := PlaceNext(db, f, filterActive, mode, rows, i, cells, numTechs, rowCounter);
      i := i + 1;
    }
    assert rows[..i] == rows;
  }

  /** Rebuilds the dashboard: the placements of all cards (and, in grid
      mode, of the placeholders), the shown-technician counter and the
      total the label shows beside it. */
  method UpdateDashboard(db: Db, f: Filter, mode: ViewMode)
    returns (cells: seq<Placement>, numTechs: nat, totalTechs: nat)
    ensures totalTechs == TotalTechnicians(db)
    ensures numTechs == CountedTechs(db, f, WorkstationsWithAssignments(db))
    ensures mode.List? ==> cells == Layout(db, f, mode, WorkstationsWithAssignments(db))
    ensures mode.Grid? ==> Filled(Layout(db, f, mode, WorkstationsWithAssignments(db)), cells)
  {
    totalTechs := TotalTechnicians(db);
    cells, numTechs := PlaceCards(db, f, mode, WorkstationsWithAssignments(db));
    if mode.Grid? {
      cells := FillPlaceholders(cells);
    }
  }

  // ---------------------------------------------------------------------
  // The counter never exceeds the total
  // ---------------------------------------------------------------------

  lemma {:induction false} ShownStaffedAtMostStaffed(db: Db, f: Filter, rows: seq<WsRow>)
    ensures CountedTechs(db, f, rows) <= StaffedCount(rows)
  {
    if rows != [] {
      var prefix, x := rows[..|rows| - 1], rows[|rows| - 1];
      ShownStaffedAtMostStaffed(db, f, prefix);
      var s, s2 := ShownRows(db, f, prefix), ShownRows(db, f, rows);
      assert s2 == s + (if Shown(db, f, x) then [x] else []);
      assert StaffedCount(rows) == StaffedCount(prefix) + (if x.techId.Some? then 1 else 0);
      if Shown(db, f, x) {
        assert s2[..|s2| - 1] == s && s2[|s2| - 1] == x;
        assert StaffedCount(s2) == StaffedCount(s) + (if x.techId.Some? then 1 else 0);
      } else {
        assert s2 == s;
      }
    }
  }

  lemma {:induction false} StaffedCountAppend(a: seq<WsRow>, b: seq<WsRow>)
    ensures StaffedCount(a + b) == StaffedCount(a) + StaffedCount(b)
  {
    if b != [] {
      var prefix := b[..|b| - 1];
      assert (a + b)[..|a + b| - 1] == a + prefix;
      StaffedCountAppend(a, prefix);
    } else {
      assert a + b == a;
    }
  }

  /** Assignments whose workstation id is in ids. */
  function AssignedTo(rows: seq<Assignment>, ids: set<int>): (n: nat)
    ensures n <= |rows|
  {
    if rows == [] then 0
    else (if rows[0].workstationId in ids then 1 else 0) + AssignedTo(rows[1..], ids)
  }

  lemma {:induction false} AssignedToAdd(rows: seq<Assignment>, ids: set<int>, id: int)
    requires id !in ids
    ensures AssignedTo(rows, ids + {id}) == AssignedTo(rows, ids) + |AssignmentsOf(rows, id)|
  {
    if rows != [] {
      AssignedToAdd(rows[1..], ids, id);
    }
  }

  lemma {:induction false} StaffedRowsFor(db: Db, w: Workstation)
    ensures StaffedCount(RowsFor(db, w)) <= |AssignmentsOf(db.assignments, w.id)|
  {
    var ms := AssignmentsOf(db.assignments, w.id);
    if ms == [] {
      assert RowsFor(db, w) == [UnassignedRow(w)];
      assert RowsFor(db, w)[..0] == [];
    }
  }

  function IdsOf(ws: seq<Workstation>): set<int>
  {
    set w | w in ws :: w.id
  }

  /** With increasing ids the last workstation adds a new id. */
  lemma IdsOfLast(ws: seq<Workstation>)
    requires ws != []
    requires forall i, j :: 0 <= i < j < |ws| ==> ws[i].id < ws[j].id
    ensures ws[|ws| - 1].id !in IdsOf(ws[..|ws| - 1])
    ensures IdsOf(ws) == IdsOf(ws[..|ws| - 1]) + {ws[|ws| - 1].id}
  {
    var prefix, w := ws[..|ws| - 1], ws[|ws| - 1];
    assert ws == prefix + [w];
    forall v | v in prefix ensures v.id != w.id {
      var k :| 0 <= k < |prefix| && prefix[k] == v;
      assert ws[k] == v;
    }
  }

  lemma {:induction false} StaffedRowsBound(db: Db, ws: seq<Workstation>)
    requires forall i, j :: 0 <= i < j < |ws| ==> ws[i].id < ws[j].id
    ensures StaffedCount(WorkstationRows(db, ws)) <= AssignedTo(db.assignments, IdsOf(ws))
  {
    if ws != [] {
      var prefix, w := ws[..|ws| - 1], ws[|ws| - 1];
      StaffedRowsBound(db, prefix);
      assert WorkstationRows(db, ws) == WorkstationRows(db, prefix) + RowsFor(db, w);
      StaffedCountAppend(WorkstationRows(db, prefix), RowsFor(db, w));
      StaffedRowsFor(db, w);
      IdsOfLast(ws);
      AssignedToAdd(db.assignments, IdsOf(prefix), w.id);
    }
  }

  /** Under the schema's keys the counter never exceeds the number of
      assigned technicians shown beside it. */
  lemma ShownAtMostTotal(db: Db, f: Filter)
    requires WellFormed(db)
    ensures CountedTechs(db, f, WorkstationsWithAssignments(db)) <= TotalTechnicians(db)
  {
    ShownStaffedAtMostStaffed(db, f, WorkstationsWithAssignments(db));
    StaffedRowsBound(db, db.workstations);
    TotalTechniciansIsAssignmentCount(db);
  }
}
