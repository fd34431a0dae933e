/**
 * The maintenance handlers: creating, updating and deleting a maintenance
 * record, and keeping the owning computer's last and next maintenance dates
 * in step with its history.
 */
module Maintenance {
  import opened Wrappers
  import opened Models
  import opened Collections

  /** The body of a create request. `nextDueDays` is optional. */
  datatype MaintenanceCreate = MaintenanceCreate(
    computerId: int,
    maintenanceType: string,
    description: string,
    performedAt: Timestamp,
    technician: string,
    nextDueDays: Option<int>)

  /** The body of an update request: a field that is None is left as it is. */
  datatype MaintenanceUpdate = MaintenanceUpdate(
    maintenanceType: Option<string>,
    description: Option<string>,
    performedAt: Option<Timestamp>,
    technician: Option<string>,
    nextDueDays: Option<int>)

  /** `t + timedelta(days=days)` */
  function DaysLater(t: Timestamp, days: int): Timestamp {
    t + days * SecondsPerDay
  }

  /**
   * The due date a new record gets: only preventive maintenance with a
   * truthy (present and non-zero) number of days schedules a next one.
   */
  function NextDueOnCreate(kind: string, performedAt: Timestamp, days: Option<int>): (r: Option<Timestamp>)
    ensures r.Some? <==> kind == Preventive && days.Some? && days.value != 0
    ensures r.Some? ==> r.value == performedAt + days.value * SecondsPerDay
  {
    if kind == Preventive && days.Some? && days.value != 0 then Some(DaysLater(performedAt, days.value)) else None
  }

  /** The record a create request inserts under the autoincrement key `id`. */
  function RecordFromCreate(id: int, m: MaintenanceCreate): (r: MaintenanceRecord)
    ensures r.id == id && r.computerId == m.computerId && r.performedAt == m.performedAt
    ensures r.nextDue.Some? ==> r.maintenanceType == Preventive
    ensures r.updatedAt.None?
  {
    MaintenanceRecord(id, m.computerId, m.maintenanceType, m.description, m.performedAt,
                      m.technician, NextDueOnCreate(m.maintenanceType, m.performedAt, m.nextDueDays), None)
  }

  /** The owning computer after a record is created: the next date moves only when one was scheduled. */
  function ComputerAfterCreate(c: Computer, rec: MaintenanceRecord): Computer {
    c.(lastMaintenance := Some(rec.performedAt),
       nextMaintenance := if rec.nextDue.Some? then rec.nextDue else c.nextMaintenance)
  }

  /** `payload.x if payload.x is not None else current` */
  function OrElse<T>(given: Option<T>, current: T): T {
    if given.Some? then given.value else current
  }

  /** A record after an update request at time `now`. */
  function ApplyUpdate(rec: MaintenanceRecord, p: MaintenanceUpdate, now: Timestamp): (r: MaintenanceRecord)
    ensures r.id == rec.id && r.computerId == rec.computerId
    ensures p.maintenanceType.None? ==> r.maintenanceType == rec.maintenanceType
    ensures p.description.None? ==> r.description == rec.description
    ensures p.performedAt.None? ==> r.performedAt == rec.performedAt
    ensures p.technician.None? ==> r.technician == rec.technician
    ensures p.maintenanceType.Some? ==> r.maintenanceType == p.maintenanceType.value
    ensures p.description.Some? ==> r.description == p.description.value
    ensures p.performedAt.Some? ==> r.performedAt == p.performedAt.value
    ensures p.technician.Some? ==> r.technician == p.technician.value
    ensures r.maintenanceType != Preventive ==> r.nextDue.None?
    ensures r.maintenanceType == Preventive && p.nextDueDays.Some? ==>
      r.nextDue == Some(r.performedAt + p.nextDueDays.value * SecondsPerDay)
    ensures r.maintenanceType == Preventive && p.nextDueDays.None? ==> r.nextDue == rec.nextDue
    ensures r.updatedAt == Some(now)
  {
    var kind := OrElse(p.maintenanceType, rec.maintenanceType);
    var performedAt := OrElse(p.performedAt, rec.performedAt);
    var due := if kind == Preventive && p.nextDueDays.Some? then Some(DaysLater(performedAt, p.nextDueDays.value))
               else rec.nextDue;
    rec.(maintenanceType := kind,
         description := OrElse(p.description, rec.description),
         performedAt := performedAt,
         technician := OrElse(p.technician, rec.technician),
         nextDue := if kind != Preventive then None else due,
         updatedAt := Some(now))
  }

  /** Sending the same update twice at the same time changes nothing more. */
  lemma ApplyUpdateIdempotent(rec: MaintenanceRecord, p: MaintenanceUpdate, now: Timestamp)
    ensures ApplyUpdate(ApplyUpdate(rec, p, now), p, now) == ApplyUpdate(rec, p, now)
  {
  }

  /** An update with every field None only stamps the time on a record that keeps the invariant. */
  lemma EmptyUpdateStampsOnly(rec: MaintenanceRecord, now: Timestamp)
    requires rec.maintenanceType != Preventive ==> rec.nextDue.None?
    ensures ApplyUpdate(rec, MaintenanceUpdate(None, None, None, None, None), now) == rec.(updatedAt := Some(now))
  {
  }

  /** The linked computer after an update: its dates are the record's. */
  function ComputerAfterUpdate(c: Computer, rec: MaintenanceRecord, now: Timestamp): Computer {
    c.(lastMaintenance := Some(rec.performedAt), nextMaintenance := rec.nextDue, updatedAt := now)
  }

  /** Record `rid` is one of computer `cid`'s records with the greatest performed date. */
  ghost predicate IsLatest(h: map<int, MaintenanceRecord>, cid: int, rid: int) {
    RecordOf(h, rid, cid) &&
    forall other :: RecordOf(h, other, cid) ==> h[other].performedAt <= h[rid].performedAt
  }

  /** The linked computer after a delete: its dates are those of its latest remaining record, or unset. */
  function ComputerAfterDelete(c: Computer, h: map<int, MaintenanceRecord>, latest: Option<int>, now: Timestamp): Computer
    requires latest.Some? ==> latest.value in h
  {
    match latest
    case None => c.(lastMaintenance := None, nextMaintenance := None, updatedAt := now)
    case Some(rid) => c.(lastMaintenance := Some(h[rid].performedAt), nextMaintenance := h[rid].nextDue, updatedAt := now)
  }

  // ---------------------------------------------------------------------------
  // Each handler keeps the computers' dates backed by their history.

  /** Records of other computers are untouched, so their dates stay backed. */
  lemma OthersStayBacked(c: Computer, id: int, h: map<int, MaintenanceRecord>, h': map<int, MaintenanceRecord>)
    requires DatesBacked(c, id, h)
    requires forall rid :: RecordOf(h, rid, id) <==> RecordOf(h', rid, id)
    requires forall rid :: RecordOf(h, rid, id) ==> rid in h' && h'[rid] == h[rid]
    ensures DatesBacked(c, id, h')
  {
    if c.lastMaintenance.Some? {
      var w :| RecordOf(h, w, id) && Some(h[w].performedAt) == c.lastMaintenance;
      assert RecordOf(h', w, id);
    }
    if c.nextMaintenance.Some? {
      var w :| RecordOf(h, w, id) && h[w].nextDue == c.nextMaintenance;
      assert RecordOf(h', w, id);
    }
    if HasRecord(h', id) {
      var w :| RecordOf(h', w, id);
      assert RecordOf(h, w, id);
    }
    if HasRecord(h, id) {
      var w :| RecordOf(h, w, id);
      assert RecordOf(h', w, id);
    }
  }

  /** Creating a record and moving the computer's dates keeps the history invariant. */
  lemma CreateKeepsHistoryConsistent(cs: map<int, Computer>, h: map<int, MaintenanceRecord>, nextId: int, m: MaintenanceCreate)
    requires HistoryConsistent(cs, h, nextId) && m.computerId in cs
    ensures var rec := RecordFromCreate(nextId, m);
      HistoryConsistent(cs[m.computerId := ComputerAfterCreate(cs[m.computerId], rec)], h[nextId := rec], nextId + 1)
  {
    var rec := RecordFromCreate(nextId, m);
    var cid := m.computerId;
    var cs' := cs[cid := ComputerAfterCreate(cs[cid], rec)];
    var h' := h[nextId := rec];
    assert nextId !in h;
    assert RecordOf(h', nextId, cid);
    forall id | id in cs' ensures DatesBacked(cs'[id], id, h') {
      if id == cid {
        var c := cs[cid];
        assert DatesBacked(c, cid, h);
        assert Some(h'[nextId].performedAt) == cs'[id].lastMaintenance;
        if rec.nextDue.None? && c.nextMaintenance.Some? {
          var w :| RecordOf(h, w, cid) && h[w].nextDue == c.nextMaintenance;
          assert RecordOf(h', w, cid) && h'[w].nextDue == cs'[id].nextMaintenance;
        }
      } else {
        OthersStayBacked(cs[id], id, h, h');
      }
    }
  }

  /** Updating a record and copying its dates to its computer keeps the history invariant. */
  lemma UpdateKeepsHistoryConsistent(cs: map<int, Computer>, h: map<int, MaintenanceRecord>, nextId: int,
                                     rid: int, p: MaintenanceUpdate, now: Timestamp)
    requires HistoryConsistent(cs, h, nextId) && rid in h
    ensures h[rid].computerId in cs
    ensures var rec := ApplyUpdate(h[rid], p, now);
      HistoryConsistent(cs[rec.computerId := ComputerAfterUpdate(cs[rec.computerId], rec, now)], h[rid := rec], nextId)
  {
    var rec := ApplyUpdate(h[rid], p, now);
    var cid := rec.computerId;
    var cs' := cs[cid := ComputerAfterUpdate(cs[cid], rec, now)];
    var h' := h[rid := rec];
    assert RecordOf(h', rid, cid);
    forall id | id in cs' ensures DatesBacked(cs'[id], id, h') {
      if id != cid {
        OthersStayBacked(cs[id], id, h, h');
      }
    }
  }

  /** Deleting a record and recomputing its computer's dates from the latest remaining one keeps the invariant. */
  lemma DeleteKeepsHistoryConsistent(cs: map<int, Computer>, h: map<int, MaintenanceRecord>, nextId: int,
                                     rid: int, latest: Option<int>, now: Timestamp)
    requires HistoryConsistent(cs, h, nextId) && rid in h
    requires latest.None? <==> !HasRecord(h - {rid}, h[rid].computerId)
    requires latest.Some? ==> IsLatest(h - {rid}, h[rid].computerId, latest.value)
    ensures h[rid].computerId in cs
    ensures var cid := h[rid].computerId;
      HistoryConsistent(cs[cid := ComputerAfterDelete(cs[cid], h - {rid}, latest, now)], h - {rid}, nextId)
  {
    var cid := h[rid].computerId;
    var h' := h - {rid};
    var cs' := cs[cid := ComputerAfterDelete(cs[cid], h', latest, now)];
    forall id | id in cs' ensures DatesBacked(cs'[id], id, h') {
      if id != cid {
        OthersStayBacked(cs[id], id, h, h');
      }
    }
  }

  // ---------------------------------------------------------------------------
  // The handlers.

  /**
   * `create_maintenance`: an unknown computer is a not-found error; otherwise
   * the record is inserted and the computer's dates move to it.
   */
  method CreateMaintenance(db: Database, m: MaintenanceCreate) returns (r: Result<MaintenanceRecord, NotFound>)
    requires db.Valid()
    modifies db
    ensures db.Valid()
    ensures m.computerId !in old(db.computers) ==> r == Err(ComputerNotFound) && unchanged(db)
    ensures m.computerId in old(db.computers) ==>
      && r == Ok(RecordFromCreate(old(db.nextMaintenanceId), m))
      && db.history == old(db.history)[r.value.id := r.value]
      && db.computers == old(db.computers)[m.computerId := ComputerAfterCreate(old(db.computers)[m.computerId], r.value)]
      && db.nextMaintenanceId == old(db.nextMaintenanceId) + 1
    ensures db.components == old(db.components) && db.notes == old(db.notes)
    ensures db.nextComputerId == old(db.nextComputerId) && db.nextNoteId == old(db.nextNoteId)
  {
    if m.computerId !in db.computers {
      return Err(ComputerNotFound);
    }
    var computer := db.computers[m.computerId];

    var nextDue: Option<Timestamp> := None;
    if m.maintenanceType == Preventive && m.nextDueDays.Some? && m.nextDueDays.value != 0 {
      nextDue := Some(DaysLater(m.performedAt, m.nextDueDays.value));
    }
    var record := MaintenanceRecord(db.nextMaintenanceId, m.computerId, m.maintenanceType, m.description,
                                    m.performedAt, m.technician, nextDue, None);
    assert record == RecordFromCreate(db.nextMaintenanceId, m);
    CreateKeepsHistoryConsistent(db.computers, db.history, db.nextMaintenanceId, m);
    db.history := db.history[record.id := record];
    db.nextMaintenanceId := db.nextMaintenanceId + 1;

    computer := computer.(lastMaintenance := Some(m.performedAt));
    if nextDue.Some? {
      computer := computer.(nextMaintenance := nextDue);
    }
    db.computers := db.computers[m.computerId := computer];
    return Ok(record);
  }

  /**
   * The field-by-field writes of `update_maintenance` on one record: each
   * supplied field is set, then the due date is recomputed and the update
   * time stamped.
   */
  method UpdatedRecord(before: MaintenanceRecord, p: MaintenanceUpdate, now: Timestamp)
    returns (record: MaintenanceRecord)
    ensures record == ApplyUpdate(before, p, now)
  {
    record := before;
    if p.maintenanceType.Some? {
      record := record.(maintenanceType := p.maintenanceType.value);
    }
    if p.description.Some? {
      record := record.(description := p.description.value);
    }
    if p.performedAt.Some? {
      record := record.(performedAt := p.performedAt.value);
    }
    if p.technician.Some? {
      record := record.(technician := p.technician.value);
    }

    var nextDue := record.nextDue;
    if record.maintenanceType == Preventive && p.nextDueDays.Some? {
      nextDue := Some(DaysLater(record.performedAt, p.nextDueDays.value));
    }
    if record.maintenanceType != Preventive {
      nextDue := None;
    }
    record := record.(nextDue := nextDue, updatedAt := Some(now));
  }

  /**
   * `update_maintenance`: an unknown record is a not-found error; otherwise
   * the supplied fields are written, the due date recomputed, and the linked
   * computer takes the record's dates.
   */
  method UpdateMaintenance(db: Database, rid: int, p: MaintenanceUpdate, now: Timestamp)
    returns (r: Result<MaintenanceRecord, NotFound>)
    requires db.Valid()
    modifies db
    ensures db.Valid()
    ensures rid !in old(db.history) ==> r == Err(MaintenanceNotFound) && unchanged(db)
    ensures rid in old(db.history) ==>
      && r == Ok(ApplyUpdate(old(db.history)[rid], p, now))
      && db.history == old(db.history)[rid := r.value]
      && r.value.computerId in old(db.computers)
      && db.computers == old(db.computers)[r.value.computerId :=
           ComputerAfterUpdate(old(db.computers)[r.value.computerId], r.value, now)]
    ensures db.components == old(db.components) && db.notes == old(db.notes)
    ensures db.nextComputerId == old(db.nextComputerId) && db.nextNoteId == old(db.nextNoteId)
    ensures db.nextMaintenanceId == old(db.nextMaintenanceId)
  {
    if rid !in db.history {
      return Err(MaintenanceNotFound);
    }
    var record := UpdatedRecord(db.history[rid], p, now);
    var nextDue := record.nextDue;

    UpdateKeepsHistoryConsistent(db.computers, db.history, db.nextMaintenanceId, rid, p, now);
    db.history := db.history[rid := record];

    if record.computerId in db.computers {
      var computer := db.computers[record.computerId];
      computer := computer.(lastMaintenance := Some(record.performedAt), nextMaintenance := nextDue, updatedAt := now);
      db.computers := db.computers[record.computerId := computer];
    }
    return Ok(record);
  }

  /**
   * The record that `order_by(desc(performed_at)).first()` returns among
   * computer `cid`'s records: one with the greatest performed date, or None
   * when it has no record. Ties are broken arbitrarily, as SQL does.
   */
  method FindLatest(h: map<int, MaintenanceRecord>, cid: int) returns (latest: Option<int>)
    ensures latest.None? <==> !HasRecord(h, cid)
    ensures latest.Some? ==> IsLatest(h, cid, latest.value)
  {
    latest := None;
    var pending := h.Keys;
    while pending != {}
      invariant pending <= h.Keys
      invariant latest.None? ==> forall rid :: rid in h.Keys - pending ==> !RecordOf(h, rid, cid)
      invariant latest.Some? ==> latest.value in h.Keys - pending && RecordOf(h, latest.value, cid)
      invariant latest.Some? ==> forall rid :: rid in h.Keys - pending && RecordOf(h, rid, cid) ==>
                                   h[rid].performedAt <= h[latest.value].performedAt
      decreases pending
    {
      var k := Choose(pending);
      if h[k].computerId == cid && (latest.None? || h[k].performedAt > h[latest.value].performedAt) {
        latest := Some(k);
      }
      pending := pending - {k};
    }
  }

  /**
   * `delete_maintenance`: an unknown record is a not-found error; otherwise
   * exactly that record is removed and its computer's dates are recomputed
   * from its latest remaining record, or unset when none is left.
   */
  method DeleteMaintenance(db: Database, rid: int, now: Timestamp)
    returns (r: Result<(), NotFound>, ghost latest: Option<int>)
    requires db.Valid()
    modifies db
    ensures db.Valid()
    ensures rid !in old(db.history) ==> r == Err(MaintenanceNotFound) && unchanged(db)
    ensures rid in old(db.history) ==>
      var cid := old(db.history)[rid].computerId;
      && r == Ok(())
      && db.history == old(db.history) - {rid}
      && (latest.None? <==> !HasRecord(db.history, cid))
      && (latest.Some? ==> IsLatest(db.history, cid, latest.value))
      && cid in old(db.computers)
      && db.computers == old(db.computers)[cid := ComputerAfterDelete(old(db.computers)[cid], db.history, latest, now)]
    ensures db.components == old(db.components) && db.notes == old(db.notes)
    ensures db.nextComputerId == old(db.nextComputerId) && db.nextNoteId == old(db.nextNoteId)
    ensures db.nextMaintenanceId == old(db.nextMaintenanceId)
  {
    latest := None;
    if rid !in db.history {
      return Err(MaintenanceNotFound), latest;
    }
    var computerId := db.history[rid].computerId;
    ghost var h0, cs0 := db.history, db.computers;
    db.history := db.history - {rid};

    if computerId in db.computers {
      var found := FindLatest(db.history, computerId);
      latest := found;
      var computer := db.computers[computerId];
      match found {
        case Some(l) =>
          computer := computer.(lastMaintenance := Some(db.history[l].performedAt),
                                nextMaintenance := db.history[l].nextDue);
        case None =>
          computer := computer.(lastMaintenance := None, nextMaintenance := None);
      }
      computer := computer.(updatedAt := now);
      DeleteKeepsHistoryConsistent(cs0, h0, db.nextMaintenanceId, rid, found, now);
      db.computers := db.computers[computerId := computer];
    }
    return Ok(()), latest;
  }
}
