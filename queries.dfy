/**
 * The read queries of the store, each a pure function of the tables.
 *
 * The SQL selects read the capability links under the table name
 * `Trainings`, while the schema creates `TechnicianDevices`; here both are
 * the one link relation `Db.links`. Where SQL leaves the order of rows open
 * (DISTINCT without ORDER BY, ties under ORDER BY, join order) the model
 * fixes one order that SQL permits: table-scan order, stable sorting.
 */
module Queries {
  import opened Schema
  import opened Ordering

  // ---------------------------------------------------------------------
  // Catalog lists (get_manufacturers, get_models_by_manufacturer)
  // ---------------------------------------------------------------------

  function ManufacturersOf(ds: seq<Device>): (r: seq<string>)
    ensures StrictlySorted(r)
    ensures forall m :: m in r <==> exists d :: d in ds && d.manufacturer == m
  {
    if ds == [] then []
    else
      var last := ds[|ds| - 1];
      assert ds == ds[..|ds| - 1] + [last];
      InsertUnique(last.manufacturer, ManufacturersOf(ds[..|ds| - 1]))
  }

  /** SELECT DISTINCT manufacturer FROM Devices ORDER BY manufacturer */
  function Manufacturers(db: Db): (r: seq<string>)
    ensures StrictlySorted(r) && NoDuplicates(r)
    ensures forall m :: m in r <==> exists d :: d in db.devices && d.manufacturer == m
  {
    var r := ManufacturersOf(db.devices);
    StrictlySortedHasNoDuplicates(r);
    r
  }

  /** `None` and "Todas" both mean "every manufacturer". */
  predicate IsAllManufacturers(manufacturer: Option<string>)
  {
    manufacturer.None? || manufacturer.value == ALL
  }

  predicate OfManufacturer(d: Device, manufacturer: Option<string>)
  {
    IsAllManufacturers(manufacturer) || d.manufacturer == manufacturer.value
  }

  function ModelColumn(ds: seq<Device>, manufacturer: Option<string>): (r: seq<string>)
    ensures forall m :: m in r <==> exists d :: d in ds && d.model == m && OfManufacturer(d, manufacturer)
  {
    if ds == [] then []
    else
      assert ds == [ds[0]] + ds[1..];
      (if OfManufacturer(ds[0], manufacturer) then [ds[0].model] else []) + ModelColumn(ds[1..], manufacturer)
  }

  /** SELECT DISTINCT model FROM Devices [WHERE manufacturer=?] */
  function ModelsByManufacturer(db: Db, manufacturer: Option<string>): (r: seq<string>)
    ensures NoDuplicates(r)
    ensures forall m :: m in r <==>
      exists d :: d in db.devices && d.model == m && OfManufacturer(d, manufacturer)
    ensures (!IsAllManufacturers(manufacturer)
             && forall d :: d in db.devices ==> d.manufacturer != manufacturer.value) ==> r == []
  {
    var r := Distinct(ModelColumn(db.devices, manufacturer));
    assert r != [] ==> r[0] in r;
    r
  }

  // ---------------------------------------------------------------------
  // Assigned technicians (get_total_technicians)
  // ---------------------------------------------------------------------

  function TechnicianIdsOf(rows: seq<Assignment>): set<int>
  {
    set a | a in rows :: a.technicianId
  }

  /** SELECT COUNT(DISTINCT technician_id) FROM Assignments */
  function TotalTechnicians(db: Db): (n: nat)
    ensures n <= |db.assignments|
    ensures n == 0 <==> db.assignments == []
  {
    TechnicianIdsBound(db.assignments);
    assert db.assignments != [] ==> db.assignments[0].technicianId in TechnicianIdsOf(db.assignments);
    |TechnicianIdsOf(db.assignments)|
  }

  lemma {:induction false} TechnicianIdsBound(rows: seq<Assignment>)
    ensures |TechnicianIdsOf(rows)| <= |rows|
  {
    if rows != [] {
      var prefix := rows[..|rows| - 1];
      assert rows == prefix + [rows[|rows| - 1]];
      assert TechnicianIdsOf(rows) == TechnicianIdsOf(prefix) + {rows[|rows| - 1].technicianId};
      TechnicianIdsBound(prefix);
    }
  }

  /** With technician_id UNIQUE the distinct count is the number of assignments. */
  lemma {:induction false} TechnicianIdsExact(rows: seq<Assignment>)
    requires forall i, j :: 0 <= i < j < |rows| ==> rows[i].technicianId != rows[j].technicianId
    ensures |TechnicianIdsOf(rows)| == |rows|
  {
    if rows != [] {
      var prefix, last := rows[..|rows| - 1], rows[|rows| - 1];
      assert rows == prefix + [last];
      assert TechnicianIdsOf(rows) == TechnicianIdsOf(prefix) + {last.technicianId};
      assert last.technicianId !in TechnicianIdsOf(prefix) by {
        forall a | a in prefix ensures a.technicianId != last.technicianId {
          var k :| 0 <= k < |prefix| && prefix[k] == a;
          assert rows[k] == a;
        }
      }
      TechnicianIdsExact(prefix);
    }
  }

  lemma TotalTechniciansIsAssignmentCount(db: Db)
    requires WellFormed(db)
    ensures TotalTechnicians(db) == |db.assignments|
  {
    TechnicianIdsExact(db.assignments);
  }

  // ---------------------------------------------------------------------
  // Workstations outer-joined with their assignment (get_workstations_with_assignments)
  // ---------------------------------------------------------------------

  /** (w.id, t.id, w.name, t.name, w.pos_x, w.pos_y, p.serial_number) */
  datatype WsRow = WsRow(
    wsId: int, techId: Option<int>, wsName: string, techName: Option<string>,
    posX: int, posY: int, pcSerial: Option<string>)

  function AssignmentsOf(rows: seq<Assignment>, wsId: int): (r: seq<Assignment>)
    ensures forall a :: a in r <==> a in rows && a.workstationId == wsId
    ensures r == [] <==> forall a :: a in rows ==> a.workstationId != wsId
  {
    if rows == [] then []
    else
      assert rows == [rows[0]] + rows[1..];
      (if rows[0].workstationId == wsId then [rows[0]] else []) + AssignmentsOf(rows[1..], wsId)
  }

  /** LEFT JOIN Technicians / LEFT JOIN PCs for one assignment. */
  function JoinAssignment(db: Db, w: Workstation, a: Assignment): WsRow
  {
    var t := FindTechnician(db.technicians, a.technicianId);
    var p := FindPc(db.pcs, a.pcId);
    WsRow(w.id,
          if t.Some? then Some(t.value.id) else None,
          w.name,
          if t.Some? then Some(t.value.name) else None,
          w.posX, w.posY,
          if p.Some? then Some(p.value.serialNumber) else None)
  }

  function UnassignedRow(w: Workstation): WsRow
  {
    WsRow(w.id, None, w.name, None, w.posX, w.posY, None)
  }

  /** The row repeats the workstation's own columns. */
  predicate CarriesWorkstation(w: Workstation, x: WsRow)
  {
    x.wsId == w.id && x.wsName == w.name && x.posX == w.posX && x.posY == w.posY
  }

  /** The LEFT JOIN rows one workstation produces: one per matching assignment,
      or a single row of nulls when it has none. */
  function RowsFor(db: Db, w: Workstation): (r: seq<WsRow>)
    ensures |r| >= 1
    ensures forall x :: x in r ==> CarriesWorkstation(w, x)
  {
    var ms := AssignmentsOf(db.assignments, w.id);
    if ms == [] then [UnassignedRow(w)]
    else seq(|ms|, i requires 0 <= i < |ms| => JoinAssignment(db, w, ms[i]))
  }

  function WorkstationRows(db: Db, ws: seq<Workstation>): (r: seq<WsRow>)
    ensures |r| >= |ws|
  {
    if ws == [] then []
    else WorkstationRows(db, ws[..|ws| - 1]) + RowsFor(db, ws[|ws| - 1])
  }

  function WorkstationsWithAssignments(db: Db): (r: seq<WsRow>)
    ensures |r| >= |db.workstations|
  {
    WorkstationRows(db, db.workstations)
  }

  /** The workstation whose LEFT JOIN produced a joined row. */
  lemma {:induction false} WorkstationRowsSource(db: Db, ws: seq<Workstation>, x: WsRow) returns (i: int)
    requires x in WorkstationRows(db, ws)
    ensures 0 <= i < |ws| && x in RowsFor(db, ws[i])
  {
    var n := |ws| - 1;
    var prefix := ws[..n];
    assert WorkstationRows(db, ws) == WorkstationRows(db, prefix) + RowsFor(db, ws[n]);
    if x in WorkstationRows(db, prefix) {
      i := WorkstationRowsSource(db, prefix, x);
      assert ws[i] == prefix[i];
    } else {
      i := n;
    }
  }

  /** Every joined row repeats the columns of one of the workstations. */
  lemma RowsComeFromWorkstations(db: Db, ws: seq<Workstation>, x: WsRow)
    requires x in WorkstationRows(db, ws)
    ensures exists w :: w in ws && CarriesWorkstation(w, x)
  {
    var i := WorkstationRowsSource(db, ws, x);
    assert ws[i] in ws && CarriesWorkstation(ws[i], x);
  }

  predicate AssignmentUniqueWs(rows: seq<Assignment>)
  {
    forall i, j :: 0 <= i < j < |rows| ==> rows[i].workstationId != rows[j].workstationId
  }

  lemma {:induction false} AssignmentsOfAtMostOne(rows: seq<Assignment>, wsId: int)
    requires AssignmentUniqueWs(rows)
    ensures |AssignmentsOf(rows, wsId)| <= 1
  {
    if rows != [] {
      var rest := rows[1..];
      assert AssignmentUniqueWs(rest) by {
        forall i, j | 0 <= i < j < |rest| ensures rest[i].workstationId != rest[j].workstationId {
          assert rest[i] == rows[i + 1] && rest[j] == rows[j + 1];
        }
      }
      AssignmentsOfAtMostOne(rest, wsId);
      if rows[0].workstationId == wsId {
        assert forall a :: a in rest ==> a.workstationId != wsId by {
          forall a | a in rest ensures a.workstationId != wsId {
            var k :| 0 <= k < |rest| && rest[k] == a;
            assert rows[k + 1] == a;
          }
        }
      }
    }
  }

  lemma {:induction false} RowsForLength(db: Db, w: Workstation)
    requires AssignmentUniqueWs(db.assignments)
    ensures |RowsFor(db, w)| == 1
  {
    AssignmentsOfAtMostOne(db.assignments, w.id);
  }

  /** What the single row of an assigned or unassigned workstation says. */
  ghost predicate DescribesWorkstation(db: Db, w: Workstation, x: WsRow)
  {
    && CarriesWorkstation(w, x)
    && (x.techId.None? <==> forall a :: a in db.assignments ==> a.workstationId != w.id)
    && (x.techId.None? ==> x.techName.None? && x.pcSerial.None?)
    && (x.techId.Some? ==>
          exists a, t, p ::
            && a in db.assignments && a.workstationId == w.id
            && t in db.technicians && t.id == a.technicianId
            && p in db.pcs && p.id == a.pcId
            && x.techId == Some(t.id) && x.techName == Some(t.name) && x.pcSerial == Some(p.serialNumber))
  }

  lemma RowsForSingle(db: Db, w: Workstation)
    requires AssignmentUniqueWs(db.assignments)
    requires forall i, j :: 0 <= i < j < |db.technicians| ==> db.technicians[i].id < db.technicians[j].id
    requires forall i, j :: 0 <= i < j < |db.pcs| ==> db.pcs[i].id < db.pcs[j].id
    requires forall a :: a in db.assignments ==> HasTechnician(db, a.technicianId) && HasPc(db, a.pcId)
    ensures |RowsFor(db, w)| == 1 && DescribesWorkstation(db, w, RowsFor(db, w)[0])
  {
    RowsForLength(db, w);
    var ms := AssignmentsOf(db.assignments, w.id);
    if ms != [] {
      var a := ms[0];
      assert a in ms;
      assert HasTechnician(db, a.technicianId);
      var t :| t in db.technicians && t.id == a.technicianId;
      FindTechnicianUnique(db.technicians, t);
      var p :| p in db.pcs && p.id == a.pcId;
      FindPcUnique(db.pcs, p);
      assert RowsFor(db, w)[0] == JoinAssignment(db, w, a);
    }
  }

  lemma {:induction false} WorkstationRowsAligned(db: Db, ws: seq<Workstation>)
    requires AssignmentUniqueWs(db.assignments)
    ensures |WorkstationRows(db, ws)| == |ws|
    ensures forall i :: 0 <= i < |ws| ==> WorkstationRows(db, ws)[i] == RowsFor(db, ws[i])[0]
  {
    if ws != [] {
      var prefix, w := ws[..|ws| - 1], ws[|ws| - 1];
      WorkstationRowsAligned(db, prefix);
      RowsForLength(db, w);
      var a, b := WorkstationRows(db, prefix), RowsFor(db, w);
      assert WorkstationRows(db, ws) == a + b;
      assert |a + b| == |ws|;
      forall i | 0 <= i < |ws| ensures (a + b)[i] == RowsFor(db, ws[i])[0] {
        if i < |prefix| {
          assert (a + b)[i] == a[i];
          assert ws[i] == prefix[i];
        } else {
          assert i == |prefix| && (a + b)[i] == b[0];
          assert ws[i] == w;
        }
      }
    }
  }

  /** One row per workstation, in table order; the technician is null exactly
      when the workstation has no assignment. */
  lemma OneRowPerWorkstation(db: Db)
    requires WellFormed(db) && Referential(db)
    ensures |WorkstationsWithAssignments(db)| == |db.workstations|
    ensures forall i :: 0 <= i < |db.workstations| ==>
      DescribesWorkstation(db, db.workstations[i], WorkstationsWithAssignments(db)[i])
  {
    WorkstationRowsAligned(db, db.workstations);
    forall i | 0 <= i < |db.workstations|
      ensures DescribesWorkstation(db, db.workstations[i], WorkstationsWithAssignments(db)[i])
    {
      RowsForSingle(db, db.workstations[i]);
    }
  }

  // ---------------------------------------------------------------------
  // A technician's linked devices (get_technician_devices)
  // ---------------------------------------------------------------------

  /** Links of technician t joined (inner) to Devices, in link-table order. */
  function LinkedDevicesOf(links: seq<Link>, ds: seq<Device>, t: int): (r: seq<Device>)
    ensures forall d :: d in r ==> d in ds && exists l :: l in links && l.technicianId == t && l.deviceId == d.id
  {
    if links == [] then []
    else
      var prefix, l := links[..|links| - 1], links[|links| - 1];
      assert links == prefix + [l];
      var found := FindDevice(ds, l.deviceId);
      LinkedDevicesOf(prefix, ds, t) + (if l.technicianId == t && found.Some? then [found.value] else [])
  }

  function LinkedDevices(db: Db, t: int): (r: seq<Device>)
    ensures forall d :: d in r ==>
      d in db.devices && exists l :: l in db.links && l.technicianId == t && l.deviceId == d.id
  {
    LinkedDevicesOf(db.links, db.devices, t)
  }

  lemma {:induction false} LinkedDevicesOfComplete(links: seq<Link>, ds: seq<Device>, t: int, l: Link, d: Device)
    requires forall i, j :: 0 <= i < j < |ds| ==> ds[i].id < ds[j].id
    requires l in links && l.technicianId == t && d in ds && d.id == l.deviceId
    ensures d in LinkedDevicesOf(links, ds, t)
  {
    var prefix := links[..|links| - 1];
    assert links == prefix + [links[|links| - 1]];
    if l == links[|links| - 1] {
      FindDeviceUnique(ds, d);
    } else {
      assert l in prefix;
      LinkedDevicesOfComplete(prefix, ds, t, l, d);
    }
  }

  /** Positions of the links of t whose device exists: the inner join keeps
      exactly these links. */
  ghost function LinkedIndices(links: seq<Link>, ds: seq<Device>, t: int): set<int>
  {
    set i | 0 <= i < |links| && links[i].technicianId == t && exists d :: d in ds && d.id == links[i].deviceId
  }

  /** One device row per link of t whose device exists, no more and no fewer. */
  lemma {:induction false} LinkedDevicesOfLength(links: seq<Link>, ds: seq<Device>, t: int)
    ensures |LinkedDevicesOf(links, ds, t)| == |LinkedIndices(links, ds, t)|
  {
    if links == [] {
      assert LinkedIndices(links, ds, t) == {};
    } else {
      var n := |links| - 1;
      var prefix, l := links[..n], links[n];
      LinkedDevicesOfLength(prefix, ds, t);
      LinkedIndicesStep(links, ds, t);
      assert links == prefix + [l];
    }
  }

  lemma LinkedIndicesStep(links: seq<Link>, ds: seq<Device>, t: int)
    requires links != []
    ensures var n := |links| - 1;
      LinkedIndices(links, ds, t) == LinkedIndices(links[..n], ds, t)
        + (if links[n].technicianId == t && FindDevice(ds, links[n].deviceId).Some? then {n} else {})
    ensures |links| - 1 !in LinkedIndices(links[..|links| - 1], ds, t)
  {
    var n := |links| - 1;
    var l := links[n];
    assert (exists d :: d in ds && d.id == l.deviceId) <==> FindDevice(ds, l.deviceId).Some?;
  }

  lemma LinkedDevicesComplete(db: Db, t: int, l: Link, d: Device)
    requires WellFormed(db)
    requires l in db.links && l.technicianId == t && d in db.devices && d.id == l.deviceId
    ensures d in LinkedDevices(db, t)
  {
    LinkedDevicesOfComplete(db.links, db.devices, t, l, d);
  }

  /** SELECT d.manufacturer, d.model FROM <links> JOIN Devices WHERE technician_id=? */
  function TechnicianDevices(db: Db, t: int): (r: seq<(string, string)>)
    ensures |r| == |LinkedDevices(db, t)|
    ensures forall p :: p in r ==> exists l, d ::
      l in db.links && d in db.devices && l.technicianId == t && l.deviceId == d.id
      && p == (d.manufacturer, d.model)
  {
    var ds := LinkedDevices(db, t);
    var r := seq(|ds|, i requires 0 <= i < |ds| => (ds[i].manufacturer, ds[i].model));
    assert forall p :: p in r ==> exists i :: 0 <= i < |ds| && p == (ds[i].manufacturer, ds[i].model);
    r
  }

  /** get_technician_devices yields one pair per link of t whose device exists. */
  lemma TechnicianDevicesOnePerLink(db: Db, t: int)
    ensures |TechnicianDevices(db, t)| == |LinkedIndices(db.links, db.devices, t)|
  {
    LinkedDevicesOfLength(db.links, db.devices, t);
  }

  lemma TechnicianDevicesComplete(db: Db, t: int, l: Link, d: Device)
    requires WellFormed(db)
    requires l in db.links && l.technicianId == t && d in db.devices && d.id == l.deviceId
    ensures (d.manufacturer, d.model) in TechnicianDevices(db, t)
  {
    LinkedDevicesComplete(db, t, l, d);
    var ds := LinkedDevices(db, t);
    var k :| 0 <= k < |ds| && ds[k] == d;
    assert TechnicianDevices(db, t)[k] == (d.manufacturer, d.model);
  }

  // ---------------------------------------------------------------------
  // The technician x update join (get_updates_for_technician and friends)
  // ---------------------------------------------------------------------

  /** (manufacturer, model, version, confirmed, update_id), plus the device id
      the window function partitions by. */
  datatype TechUpdate = TechUpdate(
    deviceId: int, manufacturer: string, model: string,
    version: Option<string>, confirmed: int, updateId: Option<int>)

  function UpdatesOf(us: seq<DeviceUpdate>, deviceId: int): (r: seq<DeviceUpdate>)
    ensures forall u :: u in r <==> u in us && u.deviceId == deviceId
    ensures r == [] <==> forall u :: u in us ==> u.deviceId != deviceId
  {
    if us == [] then []
    else
      assert us == [us[0]] + us[1..];
      (if us[0].deviceId == deviceId then [us[0]] else []) + UpdatesOf(us[1..], deviceId)
  }

  /** COALESCE(tuc.confirmed, 0) for the pair (t, uid). */
  function ConfirmedValue(cs: seq<Confirmation>, t: int, uid: int): (r: int)
    ensures (forall c :: c in cs ==> c.technicianId != t || c.updateId != uid) ==> r == 0
    ensures r != 0 ==> exists c :: c in cs && c.technicianId == t && c.updateId == uid && c.confirmed == r
  {
    if cs == [] then 0
    else if cs[0].technicianId == t && cs[0].updateId == uid then cs[0].confirmed
    else ConfirmedValue(cs[1..], t, uid)
  }

  /** Under the primary key, the stored value of the pair's one row. */
  lemma {:induction false} ConfirmedValueOfRow(cs: seq<Confirmation>, c: Confirmation)
    requires ConfirmationKeysUnique(cs) && c in cs
    ensures ConfirmedValue(cs, c.technicianId, c.updateId) == c.confirmed
  {
    if cs[0] != c {
      var k :| 0 <= k < |cs| && cs[k] == c;
      assert cs[1..][k - 1] == c;
      var rest := cs[1..];
      assert ConfirmationKeysUnique(rest) by {
        forall i, j | 0 <= i < j < |rest|
          ensures rest[i].technicianId != rest[j].technicianId || rest[i].updateId != rest[j].updateId
        {
          assert rest[i] == cs[i + 1] && rest[j] == cs[j + 1];
        }
      }
      ConfirmedValueOfRow(rest, c);
    }
  }

  function NullUpdateRow(d: Device): TechUpdate
  {
    TechUpdate(d.id, d.manufacturer, d.model, None, 0, None)
  }

  function UpdateRow(db: Db, t: int, d: Device, u: DeviceUpdate): TechUpdate
  {
    TechUpdate(d.id, d.manufacturer, d.model, Some(u.version), ConfirmedValue(db.confirmations, t, u.id), Some(u.id))
  }

  /** A row the join can produce for device d of technician t. */
  ghost predicate IsJoinRow(db: Db, t: int, d: Device, x: TechUpdate)
  {
    || (x == NullUpdateRow(d) && forall u :: u in db.updates ==> u.deviceId != d.id)
    || (exists u :: u in db.updates && u.deviceId == d.id && x == UpdateRow(db, t, d, u))
  }

  /** LEFT JOIN DeviceUpdates / LEFT JOIN confirmations for one linked device. */
  function DeviceRows(db: Db, t: int, d: Device): (r: seq<TechUpdate>)
    ensures forall x :: x in r ==> IsJoinRow(db, t, d, x)
  {
    var us := UpdatesOf(db.updates, d.id);
    if us == [] then
      [NullUpdateRow(d)]
    else
      var r := seq(|us|, i requires 0 <= i < |us| => UpdateRow(db, t, d, us[i]));
      assert forall x :: x in r ==> exists i :: 0 <= i < |us| && x == UpdateRow(db, t, d, us[i]);
      r
  }

  function JoinRowsOf(db: Db, t: int, ds: seq<Device>): (r: seq<TechUpdate>)
    ensures forall x :: x in r ==> exists d :: d in ds && IsJoinRow(db, t, d, x)
  {
    if ds == [] then []
    else
      var prefix, d := ds[..|ds| - 1], ds[|ds| - 1];
      assert ds == prefix + [d];
      JoinRowsOf(db, t, prefix) + DeviceRows(db, t, d)
  }

  /** The rows of the technician's join, in link and update-table order. */
  function JoinRows(db: Db, t: int): (r: seq<TechUpdate>)
    ensures forall x :: x in r ==> exists d :: d in LinkedDevices(db, t) && IsJoinRow(db, t, d, x)
  {
    JoinRowsOf(db, t, LinkedDevices(db, t))
  }

  lemma AppendAssoc<T>(a: seq<T>, b: seq<T>, c: seq<T>, d: seq<T>)
    ensures (a + b + c) + d == a + b + (c + d)
  {
  }

  /** The join is the rows before device k, then device k's own rows, then the rest. */
  lemma {:induction false} JoinRowsOfBlock(db: Db, t: int, ds: seq<Device>, k: int) returns (before: seq<TechUpdate>, after: seq<TechUpdate>)
    requires 0 <= k < |ds|
    ensures JoinRowsOf(db, t, ds) == before + DeviceRows(db, t, ds[k]) + after
  {
    var n := |ds| - 1;
    var prefix := ds[..n];
    assert JoinRowsOf(db, t, ds) == JoinRowsOf(db, t, prefix) + DeviceRows(db, t, ds[n]);
    if k == n {
      before, after := JoinRowsOf(db, t, prefix), [];
    } else {
      assert prefix[k] == ds[k];
      var b, a := JoinRowsOfBlock(db, t, prefix, k);
      AppendAssoc(b, DeviceRows(db, t, ds[k]), a, DeviceRows(db, t, ds[n]));
      before, after := b, a + DeviceRows(db, t, ds[n]);
    }
  }

  lemma JoinRowsOfComplete(db: Db, t: int, ds: seq<Device>, d: Device, x: TechUpdate)
    requires d in ds && x in DeviceRows(db, t, d)
    ensures x in JoinRowsOf(db, t, ds)
  {
    var k :| 0 <= k < |ds| && ds[k] == d;
    var before, after := JoinRowsOfBlock(db, t, ds, k);
    assert x in before + DeviceRows(db, t, d) + after;
  }

  lemma DeviceRowsComplete(db: Db, t: int, d: Device, u: DeviceUpdate)
    requires u in db.updates && u.deviceId == d.id
    ensures UpdateRow(db, t, d, u) in DeviceRows(db, t, d)
  {
    var us := UpdatesOf(db.updates, d.id);
    assert u in us;
    var k :| 0 <= k < |us| && us[k] == u;
    assert DeviceRows(db, t, d)[k] == UpdateRow(db, t, d, u);
  }

  /** Every linked device contributes its rows: one per update, or the null
      row when it has none. */
  lemma JoinRowsComplete(db: Db, t: int, l: Link, d: Device, u: DeviceUpdate)
    requires forall i, j :: 0 <= i < j < |db.devices| ==> db.devices[i].id < db.devices[j].id
    requires l in db.links && l.technicianId == t && d in db.devices && d.id == l.deviceId
    ensures (forall v :: v in db.updates ==> v.deviceId != d.id) ==> NullUpdateRow(d) in JoinRows(db, t)
    ensures u in db.updates && u.deviceId == d.id ==> UpdateRow(db, t, d, u) in JoinRows(db, t)
  {
    LinkedDevicesOfComplete(db.links, db.devices, t, l, d);
    if forall v :: v in db.updates ==> v.deviceId != d.id {
      JoinRowsOfComplete(db, t, LinkedDevices(db, t), d, NullUpdateRow(d));
    }
    if u in db.updates && u.deviceId == d.id {
      DeviceRowsComplete(db, t, d, u);
      JoinRowsOfComplete(db, t, LinkedDevices(db, t), d, UpdateRow(db, t, d, u));
    }
  }

  // ---------------------------------------------------------------------
  // ORDER BY du.id DESC (NULL sorts below every id)
  // ---------------------------------------------------------------------

  predicate IdAtLeast(a: Option<int>, b: Option<int>)
  {
    b.None? || (a.Some? && a.value >= b.value)
  }

  predicate NewestFirst(a: TechUpdate, b: TechUpdate)
  {
    IdAtLeast(a.updateId, b.updateId)
  }

  lemma NewestFirstIsTotalPreorder()
    ensures TotalPreorder(NewestFirst)
  {
  }

  /** get_updates_for_technician: every join row, newest update first. */
  function UpdatesForTechnician(db: Db, t: int): (r: seq<TechUpdate>)
    ensures multiset(r) == multiset(JoinRows(db, t))
    ensures SortedBy(r, NewestFirst)
    ensures forall x :: x in r ==> exists d :: d in LinkedDevices(db, t) && IsJoinRow(db, t, d, x)
  {
    NewestFirstIsTotalPreorder();
    SortByIsSorted(JoinRows(db, t), NewestFirst);
    var r := SortBy(JoinRows(db, t), NewestFirst);
    assert forall x :: x in r ==> x in JoinRows(db, t) by {
      forall x | x in r ensures x in JoinRows(db, t) {
        assert multiset(r)[x] > 0;
      }
    }
    r
  }

  lemma {:induction false} JoinRowsListed(db: Db, t: int, x: TechUpdate)
    requires x in JoinRows(db, t)
    ensures x in UpdatesForTechnician(db, t)
  {
    assert multiset(JoinRows(db, t))[x] > 0;
  }

  /** A linked device without updates is still listed, with null version,
      null id and confirmed = 0. */
  lemma DeviceWithoutUpdatesListed(db: Db, t: int, l: Link, d: Device)
    requires WellFormed(db)
    requires l in db.links && l.technicianId == t && d in db.devices && d.id == l.deviceId
    requires forall u :: u in db.updates ==> u.deviceId != d.id
    ensures TechUpdate(d.id, d.manufacturer, d.model, None, 0, None) in UpdatesForTechnician(db, t)
  {
    JoinRowsComplete(db, t, l, d, DeviceUpdate(0, d.id, "", 0));
    JoinRowsListed(db, t, NullUpdateRow(d));
  }

  /** Each update of a linked device is listed, carrying the stored
      confirmation of the pair, or 0 when the pair has no row. */
  lemma UpdateListed(db: Db, t: int, l: Link, d: Device, u: DeviceUpdate)
    requires WellFormed(db)
    requires l in db.links && l.technicianId == t && d in db.devices && d.id == l.deviceId
    requires u in db.updates && u.deviceId == d.id
    ensures forall c :: c in db.confirmations && c.technicianId == t && c.updateId == u.id ==>
      TechUpdate(d.id, d.manufacturer, d.model, Some(u.version), c.confirmed, Some(u.id)) in UpdatesForTechnician(db, t)
    ensures (forall c :: c in db.confirmations ==> c.technicianId != t || c.updateId != u.id) ==>
      TechUpdate(d.id, d.manufacturer, d.model, Some(u.version), 0, Some(u.id)) in UpdatesForTechnician(db, t)
  {
    JoinRowsComplete(db, t, l, d, u);
    JoinRowsListed(db, t, UpdateRow(db, t, d, u));
    forall c | c in db.confirmations && c.technicianId == t && c.updateId == u.id
      ensures ConfirmedValue(db.confirmations, t, u.id) == c.confirmed
    {
      ConfirmedValueOfRow(db.confirmations, c);
    }
  }

  // ---------------------------------------------------------------------
  // Pending count (get_pending_updates_count)
  // ---------------------------------------------------------------------

  /** `manufacturer and manufacturer != "Todas"` */
  predicate ManufacturerFilterApplies(manufacturer: Option<string>)
  {
    manufacturer.Some? && manufacturer.value != "" && manufacturer.value != ALL
  }

  predicate MatchesFilters(x: TechUpdate, manufacturer: Option<string>, models: seq<string>)
  {
    && (ManufacturerFilterApplies(manufacturer) ==> x.manufacturer == manufacturer.value)
    && (models != [] ==> x.model in models)
  }

  /** An inner-join row (the update exists) whose COALESCE(confirmed,0) is 0. */
  predicate IsPending(x: TechUpdate)
  {
    x.updateId.Some? && x.confirmed == 0
  }

  function CountPending(rows: seq<TechUpdate>, manufacturer: Option<string>, models: seq<string>): (n: nat)
    ensures n <= |rows|
    ensures n == 0 <==> forall x :: x in rows ==> !(IsPending(x) && MatchesFilters(x, manufacturer, models))
  {
    if rows == [] then 0
    else
      assert rows == rows[..|rows| - 1] + [rows[|rows| - 1]];
      CountPending(rows[..|rows| - 1], manufacturer, models)
      + (if IsPending(rows[|rows| - 1]) && MatchesFilters(rows[|rows| - 1], manufacturer, models) then 1 else 0)
  }

  /** The number of (linked device, update) pairs of technician t that are
      unconfirmed and pass the filters. `models` empty means no model filter. */
  function PendingUpdatesCount(db: Db, t: int, manufacturer: Option<string>, models: seq<string>): (n: nat)
    ensures n <= |JoinRows(db, t)|
  {
    CountPending(JoinRows(db, t), manufacturer, models)
  }

  /** The count is 0 exactly when no (linked device, update) pair of t is
      both unconfirmed and within the filters. */
  lemma PendingUpdatesCountZero(db: Db, t: int, manufacturer: Option<string>, models: seq<string>)
    ensures PendingUpdatesCount(db, t, manufacturer, models) == 0
      <==> forall x :: x in JoinRows(db, t) ==> !(IsPending(x) && MatchesFilters(x, manufacturer, models))
  {
  }

  /** Positions of the rows that are unconfirmed and pass the filters. */
  ghost function PendingIndices(rows: seq<TechUpdate>, manufacturer: Option<string>, models: seq<string>): set<int>
  {
    set i | 0 <= i < |rows| && IsPending(rows[i]) && MatchesFilters(rows[i], manufacturer, models)
  }

  /** The count is the number of rows that are unconfirmed and pass the filters. */
  lemma {:induction false} CountPendingIsSize(rows: seq<TechUpdate>, manufacturer: Option<string>, models: seq<string>)
    ensures CountPending(rows, manufacturer, models) == |PendingIndices(rows, manufacturer, models)|
  {
    if rows == [] {
      assert PendingIndices(rows, manufacturer, models) == {};
    } else {
      var n := |rows| - 1;
      var prefix, x := rows[..n], rows[n];
      CountPendingIsSize(prefix, manufacturer, models);
      PendingIndicesStep(rows, manufacturer, models);
      assert rows == prefix + [x];
    }
  }

  lemma PendingIndicesStep(rows: seq<TechUpdate>, manufacturer: Option<string>, models: seq<string>)
    requires rows != []
    ensures var n := |rows| - 1;
      PendingIndices(rows, manufacturer, models) == PendingIndices(rows[..n], manufacturer, models)
        + (if IsPending(rows[n]) && MatchesFilters(rows[n], manufacturer, models) then {n} else {})
    ensures |rows| - 1 !in PendingIndices(rows[..|rows| - 1], manufacturer, models)
  {
  }

  /** get_pending_updates_count counts the (linked device, update) pairs of t
      that are unconfirmed and pass the filters. */
  lemma PendingUpdatesCountIsSize(db: Db, t: int, manufacturer: Option<string>, models: seq<string>)
    ensures PendingUpdatesCount(db, t, manufacturer, models) == |PendingIndices(JoinRows(db, t), manufacturer, models)|
  {
    CountPendingIsSize(JoinRows(db, t), manufacturer, models);
  }

  lemma {:induction false} CountPendingMonotone(rows: seq<TechUpdate>, manufacturer: Option<string>, models: seq<string>)
    ensures CountPending(rows, manufacturer, models) <= CountPending(rows, None, models)
    ensures CountPending(rows, manufacturer, models) <= CountPending(rows, manufacturer, [])
  {
    if rows != [] {
      CountPendingMonotone(rows[..|rows| - 1], manufacturer, models);
    }
  }

  /** Adding a manufacturer filter or a model filter never raises the count. */
  lemma FiltersNeverIncreasePending(db: Db, t: int, manufacturer: Option<string>, models: seq<string>)
    ensures PendingUpdatesCount(db, t, manufacturer, models) <= PendingUpdatesCount(db, t, None, models)
    ensures PendingUpdatesCount(db, t, manufacturer, models) <= PendingUpdatesCount(db, t, manufacturer, [])
  {
    CountPendingMonotone(JoinRows(db, t), manufacturer, models);
  }

  lemma {:induction false} CountPendingPositive(rows: seq<TechUpdate>, manufacturer: Option<string>, models: seq<string>, x: TechUpdate)
    requires x in rows && IsPending(x) && MatchesFilters(x, manufacturer, models)
    ensures CountPending(rows, manufacturer, models) >= 1
  {
    var prefix := rows[..|rows| - 1];
    assert rows == prefix + [rows[|rows| - 1]];
    if x != rows[|rows| - 1] {
      assert x in prefix;
      CountPendingPositive(prefix, manufacturer, models, x);
    }
  }

  /** A missing confirmation row counts rows pending. */
  lemma UnconfirmedByDefault(db: Db, t: int, l: Link, d: Device, u: DeviceUpdate,
                             manufacturer: Option<string>, models: seq<string>)
    requires WellFormed(db)
    requires l in db.links && l.technicianId == t && d in db.devices && d.id == l.deviceId
    requires u in db.updates && u.deviceId == d.id
    requires forall c :: c in db.confirmations ==> c.technicianId != t || c.updateId != u.id
    requires !ManufacturerFilterApplies(manufacturer) || d.manufacturer == manufacturer.value
    requires models == [] || d.model in models
    ensures PendingUpdatesCount(db, t, manufacturer, models) >= 1
  {
    JoinRowsComplete(db, t, l, d, u);
    CountPendingPositive(JoinRows(db, t), manufacturer, models, UpdateRow(db, t, d, u));
  }

  // ---------------------------------------------------------------------
  // Top-N per device (get_latest_updates_for_technician)
  // ---------------------------------------------------------------------

  function CountDevice(s: seq<TechUpdate>, deviceId: int): (n: nat)
    ensures n <= |s|
  {
    if s == [] then 0
    else CountDevice(s[..|s| - 1], deviceId) + (if s[|s| - 1].deviceId == deviceId then 1 else 0)
  }

  /** ROW_NUMBER() OVER (PARTITION BY device) <= limit: the row is among the
      first `limit` rows of its device. */
  predicate Kept(s: seq<TechUpdate>, i: int, limit: int)
    requires 0 <= i < |s|
  {
    CountDevice(s[..i], s[i].deviceId) + 1 <= limit
  }

  /** The rows the window keeps, in the order of s. */
  function TopPerDevice(s: seq<TechUpdate>, limit: int): (r: seq<TechUpdate>)
    ensures multiset(r) <= multiset(s)
  {
    if s == [] then []
    else
      assert s == s[..|s| - 1] + [s[|s| - 1]];
      TopPerDevice(s[..|s| - 1], limit) + (if Kept(s, |s| - 1, limit) then [s[|s| - 1]] else [])
  }

  lemma {:induction false} KeptInPrefix(s: seq<TechUpdate>, limit: int, i: int)
    requires 0 <= i < |s| - 1
    ensures Kept(s[..|s| - 1], i, limit) == Kept(s, i, limit)
  {
    assert s[..|s| - 1][..i] == s[..i];
  }

  lemma {:induction false} TopPerDeviceKeeps(s: seq<TechUpdate>, limit: int, i: int)
    requires 0 <= i < |s| && Kept(s, i, limit)
    ensures s[i] in TopPerDevice(s, limit)
  {
    if i < |s| - 1 {
      KeptInPrefix(s, limit, i);
      TopPerDeviceKeeps(s[..|s| - 1], limit, i);
    }
  }

  lemma {:induction false} TopPerDeviceMembers(s: seq<TechUpdate>, limit: int, x: TechUpdate)
    requires x in TopPerDevice(s, limit)
    ensures exists i :: 0 <= i < |s| && s[i] == x && Kept(s, i, limit)
  {
    var prefix := s[..|s| - 1];
    if x in TopPerDevice(prefix, limit) {
      TopPerDeviceMembers(prefix, limit, x);
      var i :| 0 <= i < |prefix| && prefix[i] == x && Kept(prefix, i, limit);
      KeptInPrefix(s, limit, i);
    }
  }

  /** get_latest_updates_for_technician: the rows of the full list whose
      ROW_NUMBER() within their device is at most limitPerModel. */
  function LatestUpdatesForTechnician(db: Db, t: int, limitPerModel: int): (r: seq<TechUpdate>)
    ensures multiset(r) <= multiset(JoinRows(db, t))
  {
    TopPerDevice(UpdatesForTechnician(db, t), limitPerModel)
  }

  /** The window query's default: two rows per device. */
  const DEFAULT_LIMIT_PER_MODEL: int := 2

  function Min(a: int, b: int): int { if a <= b then a else b }

  lemma {:induction false} TopPerDeviceCount(s: seq<TechUpdate>, limit: int, deviceId: int)
    ensures CountDevice(TopPerDevice(s, limit), deviceId)
      == Min(CountDevice(s, deviceId), if limit < 0 then 0 else limit)
  {
    if s != [] {
      var prefix, last := s[..|s| - 1], s[|s| - 1];
      TopPerDeviceCount(prefix, limit, deviceId);
      var p := TopPerDevice(prefix, limit);
      if Kept(s, |s| - 1, limit) {
        assert TopPerDevice(s, limit) == p + [last];
        assert (p + [last])[..|p|] == p;
        assert CountDevice(p + [last], deviceId) == CountDevice(p, deviceId) + (if last.deviceId == deviceId then 1 else 0);
        if last.deviceId == deviceId {
          TopPerDeviceCount(prefix, limit, last.deviceId);
        }
      } else {
        assert TopPerDevice(s, limit) == p;
      }
    }
  }

  /** At most `limit` rows per device. */
  lemma LatestUpdatesBound(db: Db, t: int, limit: int, deviceId: int)
    requires limit >= 0
    ensures CountDevice(LatestUpdatesForTechnician(db, t, limit), deviceId) <= limit
  {
    TopPerDeviceCount(UpdatesForTechnician(db, t), limit, deviceId);
  }

  lemma {:induction false} CountDevicePrefix(s: seq<TechUpdate>, i: int, j: int)
    requires 0 <= i < j <= |s|
    ensures CountDevice(s[..j], s[i].deviceId) >= CountDevice(s[..i], s[i].deviceId) + 1
    decreases j
  {
    var p := s[..j];
    assert p[..j - 1] == s[..j - 1];
    if i < j - 1 {
      CountDevicePrefix(s, i, j - 1);
    } else {
      assert s[..j - 1] == s[..i];
    }
  }

  /** No row dropped by the window is newer than a kept row of the same device. */
  lemma {:induction false} DroppedAreNotNewer(s: seq<TechUpdate>, limit: int, i: int, j: int)
    requires SortedBy(s, NewestFirst)
    requires 0 <= i < |s| && 0 <= j < |s| && s[i].deviceId == s[j].deviceId
    requires Kept(s, i, limit) && !Kept(s, j, limit)
    ensures i < j && IdAtLeast(s[i].updateId, s[j].updateId)
  {
    if j < i {
      CountDevicePrefix(s, j, i);
    }
  }

  /** The kept rows of a device are its highest-id rows: a row of the same
      device with a strictly higher update id is kept too. */
  lemma LatestAreNewest(db: Db, t: int, limit: int, x: TechUpdate, y: TechUpdate)
    requires x in LatestUpdatesForTechnician(db, t, limit)
    requires y in UpdatesForTechnician(db, t) && y.deviceId == x.deviceId
    requires !IdAtLeast(x.updateId, y.updateId)
    ensures y in LatestUpdatesForTechnician(db, t, limit)
  {
    var s := UpdatesForTechnician(db, t);
    TopPerDeviceMembers(s, limit, x);
    var i :| 0 <= i < |s| && s[i] == x && Kept(s, i, limit);
    var j :| 0 <= j < |s| && s[j] == y;
    if !Kept(s, j, limit) {
      DroppedAreNotNewer(s, limit, i, j);
    }
    TopPerDeviceKeeps(s, limit, j);
  }

  lemma {:induction false} CountDeviceMember(s: seq<TechUpdate>, deviceId: int)
    ensures CountDevice(s, deviceId) >= 1 <==> exists x :: x in s && x.deviceId == deviceId
  {
    if s != [] {
      var prefix := s[..|s| - 1];
      assert s == prefix + [s[|s| - 1]];
      CountDeviceMember(prefix, deviceId);
    }
  }

  /** With a limit of at least one, every device of the full list is present. */
  lemma EveryDeviceListed(db: Db, t: int, limit: int, x: TechUpdate)
    requires limit >= 1 && x in UpdatesForTechnician(db, t)
    ensures exists y :: y in LatestUpdatesForTechnician(db, t, limit) && y.deviceId == x.deviceId
  {
    var s := UpdatesForTechnician(db, t);
    CountDeviceMember(s, x.deviceId);
    TopPerDeviceCount(s, limit, x.deviceId);
    CountDeviceMember(TopPerDevice(s, limit), x.deviceId);
  }

  // ---------------------------------------------------------------------
  // Global feed (get_latest_device_updates)
  // ---------------------------------------------------------------------

  /** (d.manufacturer, d.model, du.version, du.created_at) */
  datatype FeedRow = FeedRow(manufacturer: string, model: string, version: string, createdAt: Stamp)

  function FeedJoin(us: seq<DeviceUpdate>, ds: seq<Device>): (r: seq<FeedRow>)
    ensures forall x :: x in r ==> exists u, d ::
      u in us && d in ds && d.id == u.deviceId && x == FeedRow(d.manufacturer, d.model, u.version, u.createdAt)
  {
    if us == [] then []
    else
      var prefix, u := us[..|us| - 1], us[|us| - 1];
      assert us == prefix + [u];
      var found := FindDevice(ds, u.deviceId);
      FeedJoin(prefix, ds)
      + (if found.Some? then [FeedRow(found.value.manufacturer, found.value.model, u.version, u.createdAt)] else [])
  }

  predicate NotOlder(a: FeedRow, b: FeedRow)
  {
    a.createdAt >= b.createdAt
  }

  const DEFAULT_FEED_LIMIT: int := 20

  /** ORDER BY created_at DESC LIMIT limit (no tie-break on equal stamps):
      distinct rows of the join, newest first, as many as the limit allows. */
  function LatestDeviceUpdates(db: Db, limit: int): (r: seq<FeedRow>)
    ensures limit >= 0 ==> |r| == Min(limit, |FeedJoin(db.updates, db.devices)|)
    ensures limit < 0 ==> |r| == |FeedJoin(db.updates, db.devices)|
    ensures SortedBy(r, NotOlder)
  {
    var all := FeedJoin(db.updates, db.devices);
    var sorted := SortBy(all, NotOlder);
    assert TotalPreorder(NotOlder);
    SortByIsSorted(all, NotOlder);
    Limit(sorted, limit)
  }

  /** The feed shows distinct rows of the join: it never repeats a row. */
  lemma FeedIsSubMultiset(db: Db, limit: int)
    ensures multiset(LatestDeviceUpdates(db, limit)) <= multiset(FeedJoin(db.updates, db.devices))
  {
    var all := FeedJoin(db.updates, db.devices);
    LimitSubMultiset(SortBy(all, NotOlder), limit);
  }

  /** Every row of the feed is an update joined with its device. */
  lemma FeedRowsAreUpdates(db: Db, limit: int, x: FeedRow)
    requires x in LatestDeviceUpdates(db, limit)
    ensures exists u, d ::
      (u in db.updates && d in db.devices && d.id == u.deviceId
       && x == FeedRow(d.manufacturer, d.model, u.version, u.createdAt))
  {
    var all := FeedJoin(db.updates, db.devices);
    SortByMembers(all, NotOlder, x);
  }

  /** An update the limit cuts off is never newer than one the feed shows. */
  lemma {:induction false} FeedOmitsOnlyOlder(db: Db, limit: int, x: FeedRow, y: FeedRow)
    requires x in FeedJoin(db.updates, db.devices)
    requires x !in LatestDeviceUpdates(db, limit) && y in LatestDeviceUpdates(db, limit)
    ensures y.createdAt >= x.createdAt
  {
    var all := FeedJoin(db.updates, db.devices);
    var sorted := SortBy(all, NotOlder);
    var r := LatestDeviceUpdates(db, limit);
    assert TotalPreorder(NotOlder);
    SortByIsSorted(all, NotOlder);
    SortByMembers(all, NotOlder, x);
    var j :| 0 <= j < |sorted| && sorted[j] == x;
    var i :| 0 <= i < |r| && r[i] == y;
    assert sorted[i] == y;
    assert |r| <= j;
  }

  /** Without a cut the feed is a reordering of the whole join. */
  lemma FeedIsWholeJoinWhenUnlimited(db: Db, limit: int)
    requires limit < 0 || |FeedJoin(db.updates, db.devices)| <= limit
    ensures multiset(LatestDeviceUpdates(db, limit)) == multiset(FeedJoin(db.updates, db.devices))
  {
  }

  /** With the foreign key in place every update reaches the feed's join. */
  lemma {:induction false} FeedJoinComplete(us: seq<DeviceUpdate>, ds: seq<Device>, u: DeviceUpdate, d: Device)
    requires forall i, j :: 0 <= i < j < |ds| ==> ds[i].id < ds[j].id
    requires u in us && d in ds && d.id == u.deviceId
    ensures FeedRow(d.manufacturer, d.model, u.version, u.createdAt) in FeedJoin(us, ds)
  {
    var prefix := us[..|us| - 1];
    assert us == prefix + [us[|us| - 1]];
    if u == us[|us| - 1] {
      FindDeviceUnique(ds, d);
    } else {
      assert u in prefix;
      FeedJoinComplete(prefix, ds, u, d);
    }
  }
}
