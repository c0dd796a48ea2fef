/**
 * The lab-asset store's tables as values: one record type per table and a
 * `Db` holding every table as a sequence in table-scan order.
 *
 * Every id column in the schema is an INTEGER PRIMARY KEY AUTOINCREMENT, so a
 * full scan returns rows in id order; the constraints SQLite enforces
 * (primary keys, UNIQUE) are `WellFormed`. Foreign keys are declared but the
 * connection never turns their enforcement on, so they are a separate
 * predicate, `Referential`, that the seeding establishes and publishing keeps.
 */
module Schema {

  datatype Option<T> = None | Some(value: T)

  /** An abstract CURRENT_TIMESTAMP value: only its order matters. */
  type Stamp = int

  /** The combo-box entry that stands for "every manufacturer". */
  const ALL: string := "Todas"

  datatype Workstation = Workstation(id: int, name: string, posX: int, posY: int)
  datatype Technician = Technician(id: int, name: string)
  datatype Device = Device(id: int, manufacturer: string, model: string)
  datatype Pc = Pc(id: int, deviceId: int, serialNumber: string)
  datatype Assignment = Assignment(workstationId: int, technicianId: int, pcId: int)
  /** A technician-device capability link (the TechnicianDevices table). */
  datatype Link = Link(technicianId: int, deviceId: int)
  datatype DeviceUpdate = DeviceUpdate(id: int, deviceId: int, version: string, createdAt: Stamp)
  /** `confirmed` is the INTEGER column (0 or 1 in practice). */
  datatype Confirmation = Confirmation(technicianId: int, updateId: int, confirmed: int)

  datatype Db = Db(
    workstations: seq<Workstation>,
    technicians: seq<Technician>,
    devices: seq<Device>,
    pcs: seq<Pc>,
    assignments: seq<Assignment>,
    links: seq<Link>,
    updates: seq<DeviceUpdate>,
    confirmations: seq<Confirmation>)

  /** Constraints SQLite itself enforces on every table. */
  predicate WellFormed(db: Db)
  {
    && (forall i, j :: 0 <= i < j < |db.workstations| ==> db.workstations[i].id < db.workstations[j].id)
    && (forall i, j :: 0 <= i < j < |db.technicians| ==> db.technicians[i].id < db.technicians[j].id)
    && (forall i, j :: 0 <= i < j < |db.devices| ==> db.devices[i].id < db.devices[j].id)
    && (forall i, j :: 0 <= i < j < |db.pcs| ==> db.pcs[i].id < db.pcs[j].id)
    && (forall i, j :: 0 <= i < j < |db.updates| ==> db.updates[i].id < db.updates[j].id)
    // Assignments: workstation_id UNIQUE, technician_id UNIQUE
    && (forall i, j :: 0 <= i < j < |db.assignments| ==>
          db.assignments[i].workstationId != db.assignments[j].workstationId)
    && (forall i, j :: 0 <= i < j < |db.assignments| ==>
          db.assignments[i].technicianId != db.assignments[j].technicianId)
    // TechnicianUpdateConfirmations: PRIMARY KEY (technician_id, update_id)
    && ConfirmationKeysUnique(db.confirmations)
  }

  predicate ConfirmationKeysUnique(cs: seq<Confirmation>)
  {
    forall i, j :: 0 <= i < j < |cs| ==>
      cs[i].technicianId != cs[j].technicianId || cs[i].updateId != cs[j].updateId
  }

  predicate HasTechnician(db: Db, id: int) { exists t :: t in db.technicians && t.id == id }
  predicate HasWorkstation(db: Db, id: int) { exists w :: w in db.workstations && w.id == id }
  predicate HasDevice(db: Db, id: int) { exists d :: d in db.devices && d.id == id }
  predicate HasPc(db: Db, id: int) { exists p :: p in db.pcs && p.id == id }
  predicate HasUpdate(db: Db, id: int) { exists u :: u in db.updates && u.id == id }

  /** The declared foreign keys. */
  predicate Referential(db: Db)
  {
    && (forall p :: p in db.pcs ==> HasDevice(db, p.deviceId))
    && (forall a :: a in db.assignments ==>
          HasWorkstation(db, a.workstationId) && HasTechnician(db, a.technicianId) && HasPc(db, a.pcId))
    && (forall l :: l in db.links ==> HasTechnician(db, l.technicianId) && HasDevice(db, l.deviceId))
    && (forall u :: u in db.updates ==> HasDevice(db, u.deviceId))
    && (forall c :: c in db.confirmations ==> HasTechnician(db, c.technicianId) && HasUpdate(db, c.updateId))
  }

  /** Primary-key lookups (a scan that stops at the first row with that id). */
  function FindTechnician(ts: seq<Technician>, id: int): (r: Option<Technician>)
    ensures r.Some? ==> r.value in ts && r.value.id == id
    ensures r.None? ==> forall t :: t in ts ==> t.id != id
  {
    if ts == [] then None
    else if ts[0].id == id then Some(ts[0])
    else FindTechnician(ts[1..], id)
  }

  function FindDevice(ds: seq<Device>, id: int): (r: Option<Device>)
    ensures r.Some? ==> r.value in ds && r.value.id == id
    ensures r.None? ==> forall d :: d in ds ==> d.id != id
  {
    if ds == [] then None
    else if ds[0].id == id then Some(ds[0])
    else FindDevice(ds[1..], id)
  }

  function FindPc(ps: seq<Pc>, id: int): (r: Option<Pc>)
    ensures r.Some? ==> r.value in ps && r.value.id == id
    ensures r.None? ==> forall p :: p in ps ==> p.id != id
  {
    if ps == [] then None
    else if ps[0].id == id then Some(ps[0])
    else FindPc(ps[1..], id)
  }

  /** With unique ids the lookup finds the one device carrying that id. */
  lemma {:induction false} FindDeviceUnique(ds: seq<Device>, d: Device)
    requires forall i, j :: 0 <= i < j < |ds| ==> ds[i].id < ds[j].id
    requires d in ds
    ensures FindDevice(ds, d.id) == Some(d)
  {
    if ds[0] != d {
      assert d in ds[1..];
      var k :| 0 <= k < |ds| && ds[k] == d;
      assert ds[0].id < ds[k].id;
      FindDeviceUnique(ds[1..], d);
    }
  }

  lemma {:induction false} FindTechnicianUnique(ts: seq<Technician>, t: Technician)
    requires forall i, j :: 0 <= i < j < |ts| ==> ts[i].id < ts[j].id
    requires t in ts
    ensures FindTechnician(ts, t.id) == Some(t)
  {
    if ts[0] != t {
      assert t in ts[1..];
      var k :| 0 <= k < |ts| && ts[k] == t;
      assert ts[0].id < ts[k].id;
      FindTechnicianUnique(ts[1..], t);
    }
  }

  lemma {:induction false} FindPcUnique(ps: seq<Pc>, p: Pc)
    requires forall i, j :: 0 <= i < j < |ps| ==> ps[i].id < ps[j].id
    requires p in ps
    ensures FindPc(ps, p.id) == Some(p)
  {
    if ps[0] != p {
      assert p in ps[1..];
      var k :| 0 <= k < |ps| && ps[k] == p;
      assert ps[0].id < ps[k].id;
      FindPcUnique(ps[1..], p);
    }
  }
}
