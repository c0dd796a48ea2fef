/**
 * The two writes of the query layer: publishing a device update and
 * confirming an update for a technician.
 *
 * Each write is first defined on `Db` values (what the statement does to
 * the tables) and then performed in place by a method of `LabStore`, the
 * open database, whose fields are the tables.
 */
module Store {
  import opened Schema
  import opened Queries

  // ---------------------------------------------------------------------
  // Publishing (add_device_update)
  // ---------------------------------------------------------------------

  /** The three ways the publish call ends: it raises ValueError, returns
      False, or inserts a row and returns True. */
  datatype PublishOutcome = DeviceNotFound | AlreadyExists | Published(update: DeviceUpdate)

  predicate Named(d: Device, manufacturer: string, model: string)
  {
    d.manufacturer == manufacturer && d.model == model
  }

  /** `SELECT id FROM Devices WHERE manufacturer=? AND model=?` then
      fetchone(): the first matching row of the scan. */
  function FindDeviceByName(ds: seq<Device>, manufacturer: string, model: string): (r: Option<Device>)
    ensures r.Some? ==> r.value in ds && Named(r.value, manufacturer, model)
    ensures r.None? <==> forall d :: d in ds ==> !Named(d, manufacturer, model)
  {
    if ds == [] then None
    else if Named(ds[0], manufacturer, model) then Some(ds[0])
    else FindDeviceByName(ds[1..], manufacturer, model)
  }

  predicate HasVersion(us: seq<DeviceUpdate>, deviceId: int, version: string)
  {
    exists u :: u in us && u.deviceId == deviceId && u.version == version
  }

  /** What publishing (manufacturer, model, version) decides on the tables
      db; freshId is the id AUTOINCREMENT hands out next and now the
      CURRENT_TIMESTAMP of the insert. */
  function PublishOutcomeOf(db: Db, freshId: int, now: Stamp, manufacturer: string, model: string, version: string)
    : (r: PublishOutcome)
    ensures r.DeviceNotFound? <==> forall d :: d in db.devices ==> !Named(d, manufacturer, model)
    ensures r.AlreadyExists? ==> exists u, d ::
      (u in db.updates && d in db.devices && Named(d, manufacturer, model)
       && u.deviceId == d.id && u.version == version)
    ensures r.Published? ==>
      && r.update.id == freshId && r.update.version == version && r.update.createdAt == now
      && (exists d :: d in db.devices && Named(d, manufacturer, model) && d.id == r.update.deviceId)
      && !HasVersion(db.updates, r.update.deviceId, version)
  {
    match FindDeviceByName(db.devices, manufacturer, model)
    case None => DeviceNotFound
    case Some(d) =>
      if HasVersion(db.updates, d.id, version) then AlreadyExists
      else Published(DeviceUpdate(freshId, d.id, version, now))
  }

  /** The tables after the publish: only a successful one inserts, and
      only the updates table changes, by appending the new row. */
  function AfterPublish(db: Db, outcome: PublishOutcome): (r: Db)
    ensures |r.updates| == |db.updates| + (if outcome.Published? then 1 else 0)
    ensures r.updates[..|db.updates|] == db.updates
    ensures r == db.(updates := r.updates)
  {
    if outcome.Published? then db.(updates := db.updates + [outcome.update]) else db
  }

  predicate IdsBelow(us: seq<DeviceUpdate>, bound: int)
  {
    forall u :: u in us ==> u.id < bound
  }

  /** A successful publish inserts exactly one update, whose id no row had,
      and leaves every other table as it was. */
  lemma PublishAppendsOne(db: Db, freshId: int, now: Stamp, manufacturer: string, model: string, version: string)
    requires IdsBelow(db.updates, freshId)
    requires PublishOutcomeOf(db, freshId, now, manufacturer, model, version).Published?
    ensures var db' := AfterPublish(db, PublishOutcomeOf(db, freshId, now, manufacturer, model, version));
      && |db'.updates| == |db.updates| + 1
      && db'.updates[..|db.updates|] == db.updates
      && (forall u :: u in db.updates ==> u.id != db'.updates[|db.updates|].id)
      && db' == db.(updates := db'.updates)
  {
    var db' := AfterPublish(db, PublishOutcomeOf(db, freshId, now, manufacturer, model, version));
    assert db'.updates[..|db.updates|] == db.updates;
  }

  /** Appending an update with an id above every existing one keeps the
      primary keys; appending one whose device exists keeps the foreign keys. */
  lemma AppendUpdateWellFormed(db: Db, x: DeviceUpdate)
    requires WellFormed(db) && IdsBelow(db.updates, x.id)
    ensures WellFormed(db.(updates := db.updates + [x]))
  {
    var us := db.updates + [x];
    forall i, j | 0 <= i < j < |us| ensures us[i].id < us[j].id {
      assert us[i] == db.updates[i] && db.updates[i] in db.updates;
      if j < |db.updates| {
        assert us[j] == db.updates[j];
      }
    }
  }

  lemma AppendUpdateReferential(db: Db, x: DeviceUpdate)
    requires Referential(db) && HasDevice(db, x.deviceId)
    ensures Referential(db.(updates := db.updates + [x]))
  {
    var db' := db.(updates := db.updates + [x]);
    forall c | c in db'.confirmations ensures HasUpdate(db', c.updateId) {
      var u :| u in db.updates && u.id == c.updateId;
      assert u in db'.updates;
    }
  }

  /** Publishing keeps the primary keys and the declared foreign keys. */
  lemma PublishPreservesIntegrity(db: Db, freshId: int, now: Stamp,
                                  manufacturer: string, model: string, version: string)
    requires WellFormed(db) && IdsBelow(db.updates, freshId)
    ensures var db' := AfterPublish(db, PublishOutcomeOf(db, freshId, now, manufacturer, model, version));
      && WellFormed(db')
      && IdsBelow(db'.updates, freshId + 1)
      && (Referential(db) ==> Referential(db'))
  {
    var outcome := PublishOutcomeOf(db, freshId, now, manufacturer, model, version);
    if outcome.Published? {
      AppendUpdateWellFormed(db, outcome.update);
      if Referential(db) {
        AppendUpdateReferential(db, outcome.update);
      }
    }
  }

  /** The same publish a second time finds the version and changes nothing. */
  lemma PublishTwice(db: Db, freshId: int, now: Stamp, later: Stamp,
                     manufacturer: string, model: string, version: string)
    requires PublishOutcomeOf(db, freshId, now, manufacturer, model, version).Published?
    ensures var db' := AfterPublish(db, PublishOutcomeOf(db, freshId, now, manufacturer, model, version));
      PublishOutcomeOf(db', freshId + 1, later, manufacturer, model, version) == AlreadyExists
  {
    var outcome := PublishOutcomeOf(db, freshId, now, manufacturer, model, version);
    var db' := AfterPublish(db, outcome);
    assert outcome.update in db'.updates;
  }

  // ---------------------------------------------------------------------
  // Confirming (mark_update_as_confirmed)
  // ---------------------------------------------------------------------

  predicate HasKey(c: Confirmation, t: int, u: int)
  {
    c.technicianId == t && c.updateId == u
  }

  function ConfirmRow(c: Confirmation, t: int, u: int): Confirmation
  {
    if HasKey(c, t, u) then c.(confirmed := 1) else c
  }

  /** `UPDATE ... SET confirmed=1 WHERE technician_id=? AND update_id=?`:
      the rows keep their positions and keys. */
  function ConfirmRows(cs: seq<Confirmation>, t: int, u: int): (r: seq<Confirmation>)
    ensures |r| == |cs|
    ensures forall i :: 0 <= i < |cs| ==> r[i].technicianId == cs[i].technicianId && r[i].updateId == cs[i].updateId
  {
    seq(|cs|, i requires 0 <= i < |cs| => ConfirmRow(cs[i], t, u))
  }

  lemma ConfirmRowsTail(cs: seq<Confirmation>, t: int, u: int)
    requires cs != []
    ensures ConfirmRows(cs, t, u) == [ConfirmRow(cs[0], t, u)] + ConfirmRows(cs[1..], t, u)
  {
  }

  /** An existing row for the pair reads back as confirmed. */
  lemma {:induction false} ConfirmSetsExistingRow(cs: seq<Confirmation>, t: int, u: int)
    requires exists c :: c in cs && HasKey(c, t, u)
    ensures ConfirmedValue(ConfirmRows(cs, t, u), t, u) == 1
  {
    ConfirmRowsTail(cs, t, u);
    if !HasKey(cs[0], t, u) {
      var c :| c in cs && HasKey(c, t, u);
      assert c in cs[1..];
      ConfirmSetsExistingRow(cs[1..], t, u);
    }
  }

  /** Without a row for the pair the statement changes nothing. */
  lemma ConfirmCreatesNoRow(cs: seq<Confirmation>, t: int, u: int)
    requires forall c :: c in cs ==> !HasKey(c, t, u)
    ensures ConfirmRows(cs, t, u) == cs
  {
    assert forall i :: 0 <= i < |cs| ==> cs[i] in cs;
  }

  /** Every other pair reads back as before. */
  lemma {:induction false} ConfirmKeepsOtherPairs(cs: seq<Confirmation>, t: int, u: int, t2: int, u2: int)
    requires t2 != t || u2 != u
    ensures ConfirmedValue(ConfirmRows(cs, t, u), t2, u2) == ConfirmedValue(cs, t2, u2)
  {
    if cs != [] {
      ConfirmRowsTail(cs, t, u);
      ConfirmKeepsOtherPairs(cs[1..], t, u, t2, u2);
    }
  }

  lemma ConfirmIdempotent(cs: seq<Confirmation>, t: int, u: int)
    ensures ConfirmRows(ConfirmRows(cs, t, u), t, u) == ConfirmRows(cs, t, u)
  {
  }

  lemma ConfirmKeepsKeysUnique(cs: seq<Confirmation>, t: int, u: int)
    requires ConfirmationKeysUnique(cs)
    ensures ConfirmationKeysUnique(ConfirmRows(cs, t, u))
  {
  }

  /** Confirming keeps the primary keys and the declared foreign keys. */
  lemma ConfirmPreservesIntegrity(db: Db, t: int, u: int)
    ensures var db' := db.(confirmations := ConfirmRows(db.confirmations, t, u));
      && (WellFormed(db) ==> WellFormed(db'))
      && (Referential(db) ==> Referential(db'))
  {
    var db' := db.(confirmations := ConfirmRows(db.confirmations, t, u));
    if WellFormed(db) {
      ConfirmKeepsKeysUnique(db.confirmations, t, u);
    }
    if Referential(db) {
      forall c | c in db'.confirmations ensures HasTechnician(db', c.technicianId) && HasUpdate(db', c.updateId) {
        var i :| 0 <= i < |db'.confirmations| && db'.confirmations[i] == c;
        assert db.confirmations[i] in db.confirmations;
      }
    }
  }

  /** A published update has no confirmation row (none references an id
      that did not exist), so confirming it as written leaves it unconfirmed. */
  lemma FreshUpdateStaysUnconfirmed(db: Db, freshId: int, now: Stamp,
                                    manufacturer: string, model: string, version: string, t: int)
    requires Referential(db) && IdsBelow(db.updates, freshId)
    requires PublishOutcomeOf(db, freshId, now, manufacturer, model, version).Published?
    ensures var db' := AfterPublish(db, PublishOutcomeOf(db, freshId, now, manufacturer, model, version));
      ConfirmedValue(ConfirmRows(db'.confirmations, t, freshId), t, freshId) == 0
  {
    var db' := AfterPublish(db, PublishOutcomeOf(db, freshId, now, manufacturer, model, version));
    forall c | c in db'.confirmations ensures !HasKey(c, t, freshId) {
      var u :| u in db.updates && u.id == c.updateId;
    }
    ConfirmCreatesNoRow(db'.confirmations, t, freshId);
  }

  /** The same, seen through the pending count: a technician linked to the
      device still has the freshly published update pending after the
      confirm statement runs for it. */
  lemma FreshUpdateStaysPending(db: Db, freshId: int, now: Stamp,
                                manufacturer: string, model: string, version: string, l: Link)
    requires WellFormed(db) && Referential(db) && IdsBelow(db.updates, freshId)
    requires PublishOutcomeOf(db, freshId, now, manufacturer, model, version).Published?
    requires l in db.links
    requires l.deviceId == PublishOutcomeOf(db, freshId, now, manufacturer, model, version).update.deviceId
    ensures var db' := AfterPublish(db, PublishOutcomeOf(db, freshId, now, manufacturer, model, version));
      var db'' := db'.(confirmations := ConfirmRows(db'.confirmations, l.technicianId, freshId));
      PendingUpdatesCount(db'', l.technicianId, None, []) >= 1
  {
    var outcome := PublishOutcomeOf(db, freshId, now, manufacturer, model, version);
    var x := outcome.update;
    var db' := db.(updates := db.updates + [x]);
    assert AfterPublish(db, outcome) == db';
    AppendUpdateWellFormed(db, x);
    var t := l.technicianId;
    forall c | c in db'.confirmations ensures !HasKey(c, t, freshId) {
      var u :| u in db.updates && u.id == c.updateId;
    }
    ConfirmCreatesNoRow(db'.confirmations, t, freshId);
    var d :| d in db.devices && Named(d, manufacturer, model) && d.id == x.deviceId;
    assert x in db'.updates;
    UnconfirmedByDefault(db', t, l, d, x, None, []);
  }

  /** The evidently intended confirm: an upsert, which records the
      confirmation whether or not a row for the pair exists yet. */
  function ConfirmUpsert(cs: seq<Confirmation>, t: int, u: int): (r: seq<Confirmation>)
    ensures ConfirmedValue(r, t, u) == 1
    ensures ConfirmationKeysUnique(cs) ==> ConfirmationKeysUnique(r)
    ensures forall t2, u2 :: t2 != t || u2 != u ==> ConfirmedValue(r, t2, u2) == ConfirmedValue(cs, t2, u2)
  {
    if exists c :: c in cs && HasKey(c, t, u) then
      ConfirmSetsExistingRow(cs, t, u);
      assert ConfirmationKeysUnique(cs) ==> ConfirmationKeysUnique(ConfirmRows(cs, t, u)) by {
        if ConfirmationKeysUnique(cs) {
          ConfirmKeepsKeysUnique(cs, t, u);
        }
      }
      assert forall t2, u2 :: t2 != t || u2 != u ==>
        ConfirmedValue(ConfirmRows(cs, t, u), t2, u2) == ConfirmedValue(cs, t2, u2) by {
        forall t2, u2 | t2 != t || u2 != u
          ensures ConfirmedValue(ConfirmRows(cs, t, u), t2, u2) == ConfirmedValue(cs, t2, u2)
        {
          ConfirmKeepsOtherPairs(cs, t, u, t2, u2);
        }
      }
      ConfirmRows(cs, t, u)
    else
      var row := Confirmation(t, u, 1);
      ConfirmedValueAppendNew(cs, row);
      assert forall t2, u2 :: t2 != t || u2 != u ==>
        ConfirmedValue(cs + [row], t2, u2) == ConfirmedValue(cs, t2, u2) by {
        forall t2, u2 | t2 != t || u2 != u
          ensures ConfirmedValue(cs + [row], t2, u2) == ConfirmedValue(cs, t2, u2)
        {
          ConfirmedValueAppendOther(cs, row, t2, u2);
        }
      }
      assert forall i :: 0 <= i < |cs| ==> cs[i] in cs;
      cs + [row]
  }

  /** A row appended for a pair no row had yet gives that pair its value. */
  lemma {:induction false} ConfirmedValueAppendNew(cs: seq<Confirmation>, row: Confirmation)
    requires forall c :: c in cs ==> !HasKey(c, row.technicianId, row.updateId)
    ensures ConfirmedValue(cs + [row], row.technicianId, row.updateId) == row.confirmed
  {
    if cs != [] {
      assert (cs + [row])[1..] == cs[1..] + [row];
      assert cs[0] in cs;
      ConfirmedValueAppendNew(cs[1..], row);
    }
  }

  /** A row appended for another pair changes nothing for this one. */
  lemma {:induction false} ConfirmedValueAppendOther(cs: seq<Confirmation>, row: Confirmation, t: int, u: int)
    requires !HasKey(row, t, u)
    ensures ConfirmedValue(cs + [row], t, u) == ConfirmedValue(cs, t, u)
  {
    if cs != [] {
      assert (cs + [row])[1..] == cs[1..] + [row];
      ConfirmedValueAppendOther(cs[1..], row, t, u);
    }
  }

  /** A freshly published update confirmed with the upsert reads back as
      confirmed. */
  lemma FreshUpdateConfirmedByUpsert(db: Db, freshId: int, now: Stamp,
                                     manufacturer: string, model: string, version: string, t: int)
    requires PublishOutcomeOf(db, freshId, now, manufacturer, model, version).Published?
    ensures var db' := AfterPublish(db, PublishOutcomeOf(db, freshId, now, manufacturer, model, version));
      ConfirmedValue(ConfirmUpsert(db'.confirmations, t, freshId), t, freshId) == 1
  {
  }

  // ---------------------------------------------------------------------
  // The open database
  // ---------------------------------------------------------------------

  class LabStore {
    var workstations: seq<Workstation>
    var technicians: seq<Technician>
    var devices: seq<Device>
    var pcs: seq<Pc>
    var assignments: seq<Assignment>
    var links: seq<Link>
    var updates: seq<DeviceUpdate>
    var confirmations: seq<Confirmation>
    /** The id AUTOINCREMENT gives the next DeviceUpdates row. */
    var nextUpdateId: int

    function Tables(): Db
      reads this
    {
      Db(workstations, technicians, devices, pcs, assignments, links, updates, confirmations)
    }

    ghost predicate Valid()
      reads this
    {
      WellFormed(Tables()) && IdsBelow(updates, nextUpdateId)
    }

    /** An open connection to a database holding the tables seed. */
    constructor (seed: Db, nextId: int)
      requires WellFormed(seed) && IdsBelow(seed.updates, nextId)
      ensures Valid() && Tables() == seed && nextUpdateId == nextId
    {
      workstations, technicians, devices, pcs := seed.workstations, seed.technicians, seed.devices, seed.pcs;
      assignments, links, updates, confirmations := seed.assignments, seed.links, seed.updates, seed.confirmations;
      nextUpdateId := nextId;
    }

    /** Publishes version for the device named (manufacturer, model). */
    method AddDeviceUpdate(manufacturer: string, model: string, version: string, now: Stamp)
      returns (outcome: PublishOutcome)
      requires Valid()
      modifies this`updates, this`nextUpdateId
      ensures Valid()
      ensures outcome == PublishOutcomeOf(old(Tables()), old(nextUpdateId), now, manufacturer, model, version)
      ensures Tables() == AfterPublish(old(Tables()), outcome)
      ensures nextUpdateId == if outcome.Published? then old(nextUpdateId) + 1 else old(nextUpdateId)
      ensures old(Referential(Tables())) ==> Referential(Tables())
    {
      PublishPreservesIntegrity(Tables(), nextUpdateId, now, manufacturer, model, version);
      var found := FindDeviceByName(devices, manufacturer, model);
      if found.None? {
        return DeviceNotFound;
      }
      var deviceId := found.value.id;
      if HasVersion(updates, deviceId, version) {
        return AlreadyExists;
      }
      var row := DeviceUpdate(nextUpdateId, deviceId, version, now);
      updates := updates + [row];
      nextUpdateId := nextUpdateId + 1;
      outcome := Published(row);
    }

    /** The statement as written: sets confirmed=1 on the pair's existing
        row, visiting the table row by row. */
    method MarkUpdateAsConfirmed(technicianId: int, updateId: int)
      requires Valid()
      modifies this`confirmations
      ensures Valid()
      ensures confirmations == ConfirmRows(old(confirmations), technicianId, updateId)
      ensures old(Referential(Tables())) ==> Referential(Tables())
    {
      ConfirmPreservesIntegrity(Tables(), technicianId, updateId);
      var rows := confirmations;
      var done: seq<Confirmation> := [];
      var i := 0;
      while i < |rows|
        invariant 0 <= i <= |rows|
        invariant |done| == i
        invariant forall k :: 0 <= k < i ==> done[k] == ConfirmRow(rows[k], technicianId, updateId)
      {
        done := done + [ConfirmRow(rows[i], technicianId, updateId)];
        i := i + 1;
      }
      confirmations := done;
    }

    /** The corrected confirm: an upsert of the pair's row. */
    method ConfirmUpdate(technicianId: int, updateId: int)
      requires Valid()
      modifies this`confirmations
      ensures Valid()
      ensures confirmations == ConfirmUpsert(old(confirmations), technicianId, updateId)
      ensures ConfirmedValue(confirmations, technicianId, updateId) == 1
    {
      var before := confirmations;
      if exists c :: c in confirmations && HasKey(c, technicianId, updateId) {
        MarkUpdateAsConfirmed(technicianId, updateId);
      } else {
        confirmations := confirmations + [Confirmation(technicianId, updateId, 1)];
      }
      assert confirmations == ConfirmUpsert(before, technicianId, updateId);
    }
  }
}
