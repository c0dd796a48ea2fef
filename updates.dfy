/**
 * The updates dialog's "add" handler: it validates the typed version and
 * the ticked models, then publishes "v" + version for every ticked model
 * of the chosen manufacturer, one publish (and one commit) per model.
 */
module Updates {
  import opened Schema
  import opened Store

  // ---------------------------------------------------------------------
  // str.strip()
  // ---------------------------------------------------------------------

  /** The characters Python's str.strip() removes by default. */
  predicate IsSpace(c: char)
  {
    || ('\U{0009}' <= c <= '\U{000D}')
    || ('\U{001C}' <= c <= '\U{0020}')
    || c == '\U{0085}' || c == '\U{00A0}' || c == '\U{1680}'
    || ('\U{2000}' <= c <= '\U{200A}')
    || c == '\U{2028}' || c == '\U{2029}' || c == '\U{202F}' || c == '\U{205F}' || c == '\U{3000}'
  }

  function TrimLeft(s: string): (r: string)
    ensures |r| <= |s| && r == s[|s| - |r|..]
    ensures forall k :: 0 <= k < |s| - |r| ==> IsSpace(s[k])
    ensures r != [] ==> !IsSpace(r[0])
  {
    if s != [] && IsSpace(s[0]) then TrimLeft(s[1..]) else s
  }

  function TrimRight(s: string): (r: string)
    ensures |r| <= |s| && r == s[..|r|]
    ensures forall k :: |r| <= k < |s| ==> IsSpace(s[k])
    ensures r != [] ==> !IsSpace(r[|r| - 1])
  {
    if s != [] && IsSpace(s[|s| - 1]) then TrimRight(s[..|s| - 1]) else s
  }

  /** str.strip(): the text between the leading and the trailing whitespace. */
  function Strip(s: string): (r: string)
    ensures exists i, j ::
      (0 <= i <= j <= |s| && r == s[i..j]
       && (forall k :: 0 <= k < i ==> IsSpace(s[k]))
       && (forall k :: j <= k < |s| ==> IsSpace(s[k])))
    ensures r != [] ==> !IsSpace(r[0]) && !IsSpace(r[|r| - 1])
  {
    var l := TrimLeft(s);
    var r := TrimRight(l);
    assert r == s[|s| - |l|..|s| - |l| + |r|];
    r
  }

  /** The stripped text is empty exactly when the input is all whitespace. */
  lemma StripEmptyIffBlank(s: string)
    ensures Strip(s) == [] <==> forall k :: 0 <= k < |s| ==> IsSpace(s[k])
  {
    var r := Strip(s);
    if r == [] {
      var i, j :| 0 <= i <= j <= |s| && r == s[i..j]
        && (forall k :: 0 <= k < i ==> IsSpace(s[k]))
        && (forall k :: j <= k < |s| ==> IsSpace(s[k]));
      assert i == j;
    }
  }

  // ---------------------------------------------------------------------
  // The publish-per-model loop
  // ---------------------------------------------------------------------

  /** The tables, the next AUTOINCREMENT id, whether some publish inserted
      a row, and whether a publish raised (which ends the loop). */
  datatype Batch = Batch(db: Db, nextId: int, addedAny: bool, failed: bool)

  /** The loop over models, as far as it gets: a publish that raises stops
      it, and every row inserted before stays (each publish commits). */
  function PublishAll(db: Db, nextId: int, manufacturer: string, models: seq<string>, version: string, now: Stamp)
    : (r: Batch)
    ensures r.nextId >= nextId
    ensures r.addedAny <==> r.nextId > nextId
  {
    if models == [] then Batch(db, nextId, false, false)
    else
      var prev := PublishAll(db, nextId, manufacturer, models[..|models| - 1], version, now);
      if prev.failed then prev
      else Advance(prev, PublishOutcomeOf(prev.db, prev.nextId, now, manufacturer, models[|models| - 1], version))
  }

  /** The loop's state after one publish call ended with outcome. */
  function Advance(prev: Batch, outcome: PublishOutcome): (r: Batch)
    ensures r.failed <==> outcome.DeviceNotFound?
    ensures r.nextId == prev.nextId + (if outcome.Published? then 1 else 0)
    ensures !r.failed ==> (r.addedAny <==> prev.addedAny || outcome.Published?)
  {
    if outcome.DeviceNotFound? then prev.(failed := true)
    else Batch(AfterPublish(prev.db, outcome),
               if outcome.Published? then prev.nextId + 1 else prev.nextId,
               prev.addedAny || outcome.Published?, false)
  }

  /** The state one publish call leaves behind is the loop's next state. */
  lemma AdvanceReaches(prev: Batch, outcome: PublishOutcome, db: Db, nextId: int, addedAny: bool, failed: bool)
    requires !prev.failed
    requires db == AfterPublish(prev.db, outcome)
    requires nextId == if outcome.Published? then prev.nextId + 1 else prev.nextId
    requires failed == outcome.DeviceNotFound?
    requires addedAny == (prev.addedAny || outcome.Published?)
    ensures Advance(prev, outcome) == Batch(db, nextId, addedAny, failed)
  {
  }

  /** One more turn of the loop, for a loop that has not raised yet. */
  lemma PublishAllStep(db: Db, nextId: int, manufacturer: string, models: seq<string>,
                       version: string, now: Stamp, i: nat, prev: Batch, outcome: PublishOutcome)
    requires i < |models|
    requires PublishAll(db, nextId, manufacturer, models[..i], version, now) == prev && !prev.failed
    requires outcome == PublishOutcomeOf(prev.db, prev.nextId, now, manufacturer, models[i], version)
    ensures PublishAll(db, nextId, manufacturer, models[..i + 1], version, now) == Advance(prev, outcome)
  {
    assert models[..i + 1][..i] == models[..i];
  }

  /** The handler's return value once validation has passed. */
  predicate BatchSucceeded(b: Batch)
  {
    b.addedAny && !b.failed
  }

  /** The loop only appends updates, with consecutive fresh ids, touches
      no other table, and reports "added" exactly when it appended one. */
  lemma {:induction false} PublishAllAppends(db: Db, nextId: int, manufacturer: string, models: seq<string>,
                                             version: string, now: Stamp)
    ensures var b := PublishAll(db, nextId, manufacturer, models, version, now);
      && |db.updates| <= |b.db.updates|
      && b.db.updates[..|db.updates|] == db.updates
      && b.db == db.(updates := b.db.updates)
      && b.nextId == nextId + (|b.db.updates| - |db.updates|)
      && (b.addedAny <==> |b.db.updates| > |db.updates|)
  {
    if models != [] {
      var prefix := models[..|models| - 1];
      PublishAllAppends(db, nextId, manufacturer, prefix, version, now);
      var prev := PublishAll(db, nextId, manufacturer, prefix, version, now);
      if !prev.failed {
        var outcome := PublishOutcomeOf(prev.db, prev.nextId, now, manufacturer, models[|models| - 1], version);
        if outcome.Published? {
          var us := prev.db.updates + [outcome.update];
          assert us[..|db.updates|] == prev.db.updates[..|db.updates|];
        }
      }
    }
  }

  /** The loop keeps the tables' keys, AUTOINCREMENT's bound and the
      foreign keys. */
  lemma {:induction false} PublishAllPreservesIntegrity(db: Db, nextId: int, manufacturer: string,
                                                        models: seq<string>, version: string, now: Stamp)
    requires WellFormed(db) && IdsBelow(db.updates, nextId)
    ensures var b := PublishAll(db, nextId, manufacturer, models, version, now);
      && WellFormed(b.db) && IdsBelow(b.db.updates, b.nextId)
      && (Referential(db) ==> Referential(b.db))
  {
    if models != [] {
      var prefix := models[..|models| - 1];
      PublishAllPreservesIntegrity(db, nextId, manufacturer, prefix, version, now);
      var prev := PublishAll(db, nextId, manufacturer, prefix, version, now);
      if !prev.failed {
        PublishPreservesIntegrity(prev.db, prev.nextId, now, manufacturer, models[|models| - 1], version);
        PublishAllAppends(db, nextId, manufacturer, prefix, version, now);
      }
    }
  }

  /** Once a publish has raised, the rest of the models are not tried. */
  lemma {:induction false} FailureIsFinal(db: Db, nextId: int, manufacturer: string, models: seq<string>,
                                          version: string, now: Stamp, k: nat)
    requires k <= |models|
    requires PublishAll(db, nextId, manufacturer, models[..k], version, now).failed
    ensures PublishAll(db, nextId, manufacturer, models, version, now)
      == PublishAll(db, nextId, manufacturer, models[..k], version, now)
    decreases |models| - k
  {
    if k < |models| {
      var longer := models[..k + 1];
      assert longer[..k] == models[..k];
      FailureIsFinal(db, nextId, manufacturer, models, version, now, k + 1);
    } else {
      assert models[..k] == models;
    }
  }

  /** A manufacturer with no device at all (such as the "Todas" entry)
      makes the first publish raise: nothing is inserted and the handler
      answers False. */
  lemma UnknownManufacturerAddsNothing(db: Db, nextId: int, manufacturer: string, models: seq<string>,
                                       version: string, now: Stamp)
    requires models != []
    requires forall d :: d in db.devices ==> d.manufacturer != manufacturer
    ensures PublishAll(db, nextId, manufacturer, models, version, now) == Batch(db, nextId, false, true)
  {
    var first := models[..1];
    assert first[..0] == [];
    assert PublishAll(db, nextId, manufacturer, first, version, now) == Batch(db, nextId, false, true);
    FailureIsFinal(db, nextId, manufacturer, models, version, now, 1);
  }

  /** The device the publish looks up for model m already has version. */
  predicate Covered(db: Db, manufacturer: string, m: string, version: string)
  {
    var found := FindDeviceByName(db.devices, manufacturer, m);
    found.Some? && HasVersion(db.updates, found.value.id, version)
  }

  /** After a loop that did not raise, every ticked model's device has
      the version. */
  lemma {:induction false} PublishAllCoversModels(db: Db, nextId: int, manufacturer: string, models: seq<string>,
                                                  version: string, now: Stamp, m: string)
    requires m in models
    requires !PublishAll(db, nextId, manufacturer, models, version, now).failed
    ensures Covered(PublishAll(db, nextId, manufacturer, models, version, now).db, manufacturer, m, version)
  {
    var prefix := models[..|models| - 1];
    var prev := PublishAll(db, nextId, manufacturer, prefix, version, now);
    var b := PublishAll(db, nextId, manufacturer, models, version, now);
    var outcome := PublishOutcomeOf(prev.db, prev.nextId, now, manufacturer, models[|models| - 1], version);
    assert b.db.updates == prev.db.updates || b.db.updates == prev.db.updates + [outcome.update];
    assert b.db.devices == prev.db.devices;
    if m == models[|models| - 1] {
      var d := FindDeviceByName(prev.db.devices, manufacturer, m).value;
      if outcome.Published? {
        assert outcome.update in b.db.updates;
      }
    } else {
      assert models == prefix + [models[|models| - 1]];
      assert m in prefix;
      PublishAllCoversModels(db, nextId, manufacturer, prefix, version, now, m);
      var d := FindDeviceByName(prev.db.devices, manufacturer, m).value;
      var u :| u in prev.db.updates && u.deviceId == d.id && u.version == version;
      assert u in b.db.updates;
    }
  }

  /** When every model's device already has the version, the loop inserts
      nothing and raises nothing. */
  lemma {:induction false} RepublishAddsNothing(db: Db, nextId: int, manufacturer: string, models: seq<string>,
                                                version: string, now: Stamp)
    requires forall m :: m in models ==> Covered(db, manufacturer, m, version)
    ensures PublishAll(db, nextId, manufacturer, models, version, now) == Batch(db, nextId, false, false)
  {
    if models != [] {
      var prefix := models[..|models| - 1];
      assert forall m :: m in prefix ==> m in models;
      RepublishAddsNothing(db, nextId, manufacturer, prefix, version, now);
      assert Covered(db, manufacturer, models[|models| - 1], version);
    }
  }

  /** Running the same batch again right after one that did not raise
      inserts nothing, so the handler answers False the second time. */
  lemma BatchTwice(db: Db, nextId: int, manufacturer: string, models: seq<string>,
                   version: string, now: Stamp, later: Stamp)
    requires !PublishAll(db, nextId, manufacturer, models, version, now).failed
    ensures var b := PublishAll(db, nextId, manufacturer, models, version, now);
      var again := PublishAll(b.db, b.nextId, manufacturer, models, version, later);
      again.db == b.db && !BatchSucceeded(again)
  {
    var b := PublishAll(db, nextId, manufacturer, models, version, now);
    forall m | m in models ensures Covered(b.db, manufacturer, m, version) {
      PublishAllCoversModels(db, nextId, manufacturer, models, version, now, m);
    }
    RepublishAddsNothing(b.db, b.nextId, manufacturer, models, version, later);
  }

  // ---------------------------------------------------------------------
  // The handler
  // ---------------------------------------------------------------------

  /** The loop itself: one publish per model, stopping at the first that
      raises. */
  method PublishEach(store: LabStore, manufacturer: string, models: seq<string>, version: string, now: Stamp)
    returns (addedAny: bool, failed: bool)
    requires store.Valid()
    modifies store`updates, store`nextUpdateId
    ensures store.Valid()
    ensures PublishAll(old(store.Tables()), old(store.nextUpdateId), manufacturer, models, version, now)
      == Batch(store.Tables(), store.nextUpdateId, addedAny, failed)
  {
    ghost var db0, id0 := store.Tables(), store.nextUpdateId;
    addedAny, failed := false, false;
    var i := 0;
    while i < |models| && !failed
      invariant 0 <= i <= |models|
      invariant store.Valid()
      invariant PublishAll(db0, id0, manufacturer, models[..i], version, now)
        == Batch(store.Tables(), store.nextUpdateId, addedAny, failed)
    {
      ghost var prev := Batch(store.Tables(), store.nextUpdateId, addedAny, false);
      var outcome := store.AddDeviceUpdate(manufacturer, models[i], version, now);
      PublishAllStep(db0, id0, manufacturer, models, version, now, i, prev, outcome);
      if outcome.DeviceNotFound? {
        failed := true;
      } else if outcome.Published? {
        addedAny := true;
      }
      AdvanceReaches(prev, outcome, store.Tables(), store.nextUpdateId, addedAny, failed);
      assert PublishAll(db0, id0, manufacturer, models[..i + 1], version, now)
        == Batch(store.Tables(), store.nextUpdateId, addedAny, failed);
      i := i + 1;
    }
    if failed {
      FailureIsFinal(db0, id0, manufacturer, models, version, now, i);
    } else {
      assert models[..i] == models;
    }
  }

  /** The dialog's add handler. It answers False without touching the
      store when no model is ticked or the stripped version is empty;
      otherwise it runs the loop and answers True when some publish
      inserted a row and none raised. */
  method AddDeviceUpdates(store: LabStore, manufacturer: string, versionText: string,
                          selectedModels: seq<string>, now: Stamp)
    returns (ok: bool)
    requires store.Valid()
    modifies store`updates, store`nextUpdateId
    ensures store.Valid()
    ensures selectedModels == [] || Strip(versionText) == [] ==>
      !ok && store.Tables() == old(store.Tables()) && store.nextUpdateId == old(store.nextUpdateId)
    ensures selectedModels != [] && Strip(versionText) != [] ==>
      var b := PublishAll(old(store.Tables()), old(store.nextUpdateId), manufacturer, selectedModels,
                          "v" + Strip(versionText), now);
      && store.Tables() == b.db && store.nextUpdateId == b.nextId
      && ok == BatchSucceeded(b)
  {
    var version := Strip(versionText);
    if selectedModels == [] || version == [] {
      return false;
    }
    var addedAny, failed := PublishEach(store, manufacturer, selectedModels, "v" + version, now);
    ok := addedAny && !failed;
  }
}
