/**
 * The local store the backend keeps in its SQL database: computers mirrored
 * from GLPI, their hardware components, their maintenance history and their
 * notes. Tables with an autoincrement key are maps from that key to the row;
 * the component table, which is only ever filtered and appended to, is a
 * sequence of rows.
 */
module Models {
  import opened Wrappers
  import opened Json

  /** Timestamps are whole seconds since the epoch. */
  type Timestamp = int

  /** `timedelta(days=1)` in seconds. */
  const SecondsPerDay: int := 86400

  /** The maintenance type whose records carry a next due date. */
  const Preventive: string := "Preventiva"

  /** A row of the `computers` table. */
  datatype Computer = Computer(
    id: int,
    glpiId: int,
    name: string,
    entity: string,
    patrimonio: string,
    serial: string,
    location: string,
    status: string,
    glpiData: Value,
    updatedAt: Timestamp,
    lastMaintenance: Option<Timestamp>,
    nextMaintenance: Option<Timestamp>)

  /** A row of the `computer_components` table. */
  datatype Component = Component(
    computerId: int,
    componentType: string,
    name: string,
    manufacturer: string,
    model: string,
    serial: string,
    capacity: string,
    componentData: Value)

  /** A row of the `maintenance_history` table. `updatedAt` is None until a handler sets it. */
  datatype MaintenanceRecord = MaintenanceRecord(
    id: int,
    computerId: int,
    maintenanceType: string,
    description: string,
    performedAt: Timestamp,
    technician: string,
    nextDue: Option<Timestamp>,
    updatedAt: Option<Timestamp>)

  /** A row of the `computer_notes` table. `updatedAt` is None until a handler sets it. */
  datatype Note = Note(
    id: int,
    computerId: int,
    author: string,
    content: string,
    updatedAt: Option<Timestamp>)

  /** The not-found errors the handlers raise (HTTP 404); the maintenance and note handlers word a missing computer differently. */
  datatype NotFound = ComputerNotFound | DeviceNotFound | NoteNotFound | MaintenanceNotFound

  /** The detail message of each not-found error. */
  function Detail(e: NotFound): string {
    match e
    case ComputerNotFound => "Computador não encontrado"
    case DeviceNotFound => "Dispositivo não encontrado"
    case NoteNotFound => "Nota não encontrada"
    case MaintenanceNotFound => "Manutenção não encontrada"
  }

  // ---------------------------------------------------------------------------
  // The invariant of the store, stated on the table values.

  /** Every computer sits under its own id, below the next id to be assigned. */
  ghost predicate ComputersKeyed(cs: map<int, Computer>, nextId: int) {
    forall id :: id in cs ==> cs[id].id == id && id < nextId
  }

  /** No two computers mirror the same GLPI computer. */
  ghost predicate GlpiIdsUnique(cs: map<int, Computer>) {
    forall a, b :: a in cs && b in cs && cs[a].glpiId == cs[b].glpiId ==> a == b
  }

  /** Every maintenance record sits under its own id and belongs to a known computer. */
  ghost predicate HistoryKeyed(cs: map<int, Computer>, h: map<int, MaintenanceRecord>, nextId: int) {
    forall id :: id in h ==> h[id].id == id && id < nextId && h[id].computerId in cs
  }

  /** Only preventive maintenance schedules a next one. */
  ghost predicate OnlyPreventiveDue(h: map<int, MaintenanceRecord>) {
    forall id :: id in h && h[id].maintenanceType != Preventive ==> h[id].nextDue.None?
  }

  /** Record `rid` exists and belongs to computer `cid`. */
  ghost predicate RecordOf(h: map<int, MaintenanceRecord>, rid: int, cid: int) {
    rid in h && h[rid].computerId == cid
  }

  /** Computer `cid` has at least one maintenance record. */
  ghost predicate HasRecord(h: map<int, MaintenanceRecord>, cid: int) {
    exists rid :: RecordOf(h, rid, cid)
  }

  /**
   * The maintenance dates of computer `cid` come from its own history: both are unset
   * when it has no record, the last date is set when it has one, and each set
   * date is the performed date, or the due date, of one of its records.
   */
  ghost predicate DatesBacked(c: Computer, cid: int, h: map<int, MaintenanceRecord>) {
    && (!HasRecord(h, cid) ==> c.lastMaintenance.None? && c.nextMaintenance.None?)
    && (HasRecord(h, cid) ==> c.lastMaintenance.Some?)
    && (c.lastMaintenance.Some? ==>
          exists rid :: RecordOf(h, rid, cid) && Some(h[rid].performedAt) == c.lastMaintenance)
    && (c.nextMaintenance.Some? ==>
          exists rid :: RecordOf(h, rid, cid) && h[rid].nextDue == c.nextMaintenance)
  }

  /** Every computer's dates are backed by its history. */
  ghost predicate DatesFromHistory(cs: map<int, Computer>, h: map<int, MaintenanceRecord>) {
    forall id :: id in cs ==> DatesBacked(cs[id], id, h)
  }

  /** The part of the invariant that ties the maintenance history to the computers. */
  ghost predicate HistoryConsistent(cs: map<int, Computer>, h: map<int, MaintenanceRecord>, nextId: int) {
    HistoryKeyed(cs, h, nextId) && OnlyPreventiveDue(h) && DatesFromHistory(cs, h)
  }

  /** Every note sits under its own id and belongs to a known computer. */
  ghost predicate NotesKeyed(cs: map<int, Computer>, ns: map<int, Note>, nextId: int) {
    forall id :: id in ns ==> ns[id].id == id && id < nextId && ns[id].computerId in cs
  }

  /** Every component belongs to a known computer. */
  ghost predicate ComponentsOwned(cs: map<int, Computer>, rows: seq<Component>) {
    forall i :: 0 <= i < |rows| ==> rows[i].computerId in cs
  }

  /** The invariant of the whole store. */
  ghost predicate TablesValid(cs: map<int, Computer>, rows: seq<Component>, h: map<int, MaintenanceRecord>,
                              ns: map<int, Note>, nextComputerId: int, nextMaintenanceId: int, nextNoteId: int) {
    && ComputersKeyed(cs, nextComputerId)
    && GlpiIdsUnique(cs)
    && HistoryConsistent(cs, h, nextMaintenanceId)
    && NotesKeyed(cs, ns, nextNoteId)
    && ComponentsOwned(cs, rows)
  }

  /** The database session the handlers work on. */
  class Database {
    var computers: map<int, Computer>
    var components: seq<Component>
    var history: map<int, MaintenanceRecord>
    var notes: map<int, Note>
    var nextComputerId: int
    var nextMaintenanceId: int
    var nextNoteId: int

    /** The invariant every handler keeps. */
    ghost predicate Valid()
      reads this
    {
      TablesValid(computers, components, history, notes, nextComputerId, nextMaintenanceId, nextNoteId)
    }

    /** An empty database; autoincrement keys start at 1. */
    constructor ()
      ensures Valid()
      ensures computers == map[] && components == [] && history == map[] && notes == map[]
      ensures nextComputerId == 1 && nextMaintenanceId == 1 && nextNoteId == 1
    {
      computers, components, history, notes := map[], [], map[], map[];
      nextComputerId, nextMaintenanceId, nextNoteId := 1, 1, 1;
    }
  }

  /** A computer that has a next maintenance date has a preventive record that scheduled it. */
  lemma NextMaintenanceIsPreventive(cs: map<int, Computer>, h: map<int, MaintenanceRecord>, nextId: int, cid: int)
    requires HistoryConsistent(cs, h, nextId)
    requires cid in cs && cs[cid].nextMaintenance.Some?
    ensures exists rid :: RecordOf(h, rid, cid) && h[rid].maintenanceType == Preventive
  {
    assert DatesBacked(cs[cid], cid, h);
    var rid :| RecordOf(h, rid, cid) && h[rid].nextDue == cs[cid].nextMaintenance;
    assert h[rid].maintenanceType == Preventive;
  }
}
