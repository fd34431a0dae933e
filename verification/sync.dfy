/**
 * The GLPI synchronisation: the computers are read page by page, each one
 * with an id is inserted or updated in the local table, and its hardware
 * components are replaced wholesale by the ones GLPI lists for it.
 *
 * The specification is a fold, SyncAll, of one step per computer record,
 * SyncOne; the lemmas below say what the fold guarantees, and the methods
 * at the end are proved to compute it.
 */
module Sync {
  import opened Wrappers
  import opened Json
  import opened Text
  import opened Dropdown
  import opened Models
  import opened Collections

  /** The page size the sync asks GLPI for. */
  const Limit: nat := 50

  /** The prefix GLPI puts in front of component item types (`Item_DeviceProcessor`). */
  const DevicePrefix: string := "Item_Device"

  /** `get_all_components(glpi_id)`: each component item type with its items, in the order GLPI lists them. */
  type ComponentGroups = seq<(string, seq<Fields>)>

  /**
   * The GLPI instance as the sync sees it: its computer records in the order
   * the API pages through them, and for each GLPI id the outcome of the
   * components request, None when that request raises.
   */
  datatype GlpiServer = GlpiServer(computers: seq<Fields>, components: int -> Option<ComponentGroups>)

  /** `get_computers(start, limit)`: the records from `start` on, at most `limit` of them. */
  function GetComputers(server: GlpiServer, start: nat, limit: nat): (page: seq<Fields>)
    ensures |page| <= limit
    ensures start >= |server.computers| ==> page == []
    ensures start < |server.computers| && limit > 0 ==> page != []
    ensures start < |server.computers| ==>
      start + |page| <= |server.computers| && page == server.computers[start..start + |page|]
    ensures |page| < limit ==> start + |page| >= |server.computers|
  {
    var n := |server.computers|;
    var from := if start < n then start else n;
    var to := if start + limit < n then start + limit else n;
    server.computers[from..to]
  }

  // ---------------------------------------------------------------------------
  // One computer record.

  /** `comp_data.get("id")` when it is a non-zero integer; a record without one is skipped. */
  function GlpiIdOf(rec: Fields): (r: Option<int>)
    ensures r.Some? <==> Get(rec, "id").Int? && Truthy(Get(rec, "id"))
    ensures r.Some? ==> Get(rec, "id") == Int(r.value)
  {
    match Get(rec, "id")
    case Int(i) => if i != 0 then Some(i) else None
    case _ => None
  }

  /** `comp_data.get("name") or f"Computer-{glpi_id}"` */
  function ComputerName(rec: Fields, glpiId: int): string {
    var name := Get(rec, "name");
    if Truthy(name) then ToStr(name) else "Computer-" + IntToString(glpiId)
  }

  /** A synced computer always has a non-empty name; a record without one gives `Computer-<id>`. */
  lemma ComputerNameRule(rec: Fields, glpiId: int)
    ensures ComputerName(rec, glpiId) != ""
    ensures !Truthy(Get(rec, "name")) ==> ComputerName(rec, glpiId) == "Computer-" + IntToString(glpiId)
    ensures Truthy(Get(rec, "name")) ==> ComputerName(rec, glpiId) == ToStr(Get(rec, "name"))
  {
    if Truthy(Get(rec, "name")) {
      TruthyToStrNonEmpty(Get(rec, "name"));
    }
  }

  /** The computer row after copying a GLPI record into it at time `now`. */
  function Refreshed(c: Computer, rec: Fields, now: Timestamp): (r: Computer)
    ensures Mirrors(r, rec, now)
    ensures r.id == c.id && r.glpiId == c.glpiId
    ensures r.lastMaintenance == c.lastMaintenance && r.nextMaintenance == c.nextMaintenance
  {
    c.(name := ComputerName(rec, c.glpiId),
       entity := DropdownStr(Get(rec, "entities_id")),
       patrimonio := DropdownStr(Get(rec, "otherserial")),
       serial := DropdownStr(Get(rec, "serial")),
       location := DropdownStr(Get(rec, "locations_id")),
       status := DropdownStr(Get(rec, "states_id")),
       glpiData := Object(rec),
       updatedAt := now)
  }

  /** `Computer(glpi_id=glpi_id)`: a new row before its fields are filled in. */
  function NewComputer(id: int, glpiId: int): Computer {
    Computer(id, glpiId, "", "", "", "", "", "", Null, 0, None, None)
  }

  /** Computer row `c` holds what the record `rec` says, as copied at time `now`. */
  predicate Mirrors(c: Computer, rec: Fields, now: Timestamp) {
    && c.name == ComputerName(rec, c.glpiId)
    && c.entity == DropdownStr(Get(rec, "entities_id"))
    && c.patrimonio == DropdownStr(Get(rec, "otherserial"))
    && c.serial == DropdownStr(Get(rec, "serial"))
    && c.location == DropdownStr(Get(rec, "locations_id"))
    && c.status == DropdownStr(Get(rec, "states_id"))
    && c.glpiData == Object(rec)
    && c.updatedAt == now
  }

  // ---------------------------------------------------------------------------
  // Components.

  /** `comp_type.replace("Item_Device", "")` */
  function ComponentType(itemType: string): string {
    RemoveAll(itemType, DevicePrefix)
  }

  /** A GLPI item type is its prefix followed by the local component type. */
  lemma ComponentTypeStripsPrefix(suffix: string)
    requires !Contains(suffix, DevicePrefix)
    ensures ComponentType(DevicePrefix + suffix) == suffix
  {
    RemoveAllPrefix(DevicePrefix, suffix);
    RemoveAllAbsent(suffix, DevicePrefix);
  }

  /** The component row stored for one item of type `itemType`. */
  function ComponentOf(cid: int, itemType: string, item: Fields): Component {
    Component(cid, ComponentType(itemType),
              DropdownStr(Get(item, "designation")),
              DropdownStr(Get(item, "manufacturers_id")),
              DropdownStr(Get(item, "devicemodels_id")),
              DropdownStr(Get(item, "serial")),
              DropdownStr(Get(item, "size")),
              Object(item))
  }

  /** The rows stored for the items of one type, in order. */
  function GroupComponents(cid: int, itemType: string, items: seq<Fields>): (r: seq<Component>)
    ensures |r| == |items|
    ensures forall k :: 0 <= k < |items| ==> r[k] == ComponentOf(cid, itemType, items[k])
  {
    seq(|items|, k requires 0 <= k < |items| => ComponentOf(cid, itemType, items[k]))
  }

  /** The rows stored for all the groups, group by group. */
  function BuildComponents(cid: int, groups: ComponentGroups): seq<Component> {
    if groups == [] then []
    else BuildComponents(cid, groups[..|groups| - 1]) + GroupComponents(cid, groups[|groups| - 1].0, groups[|groups| - 1].1)
  }

  /** The number of items GLPI lists, over all groups. */
  function ItemCount(groups: ComponentGroups): nat {
    if groups == [] then 0 else ItemCount(groups[..|groups| - 1]) + |groups[|groups| - 1].1|
  }

  /**
   * Every built row belongs to `cid`, has one of the listed types with the
   * prefix removed, and there is one row per listed item.
   */
  lemma {:induction false} BuildComponentsShape(cid: int, groups: ComponentGroups)
    ensures |BuildComponents(cid, groups)| == ItemCount(groups)
    ensures forall k :: 0 <= k < |BuildComponents(cid, groups)| ==>
      && BuildComponents(cid, groups)[k].computerId == cid
      && exists g :: 0 <= g < |groups| && BuildComponents(cid, groups)[k].componentType == ComponentType(groups[g].0)
  {
    if groups != [] {
      var init := groups[..|groups| - 1];
      var last := groups[|groups| - 1];
      BuildComponentsShape(cid, init);
      var r := BuildComponents(cid, groups);
      forall k | 0 <= k < |r|
        ensures r[k].computerId == cid
        ensures exists g :: 0 <= g < |groups| && r[k].componentType == ComponentType(groups[g].0)
      {
        if k < |BuildComponents(cid, init)| {
          var g :| 0 <= g < |init| && BuildComponents(cid, init)[k].componentType == ComponentType(init[g].0);
          assert groups[g] == init[g];
        } else {
          assert r[k].componentType == ComponentType(groups[|groups| - 1].0);
        }
      }
    }
  }

  /** The rows of `rows` that belong to computer `cid`, in order. */
  function RowsOf(rows: seq<Component>, cid: int): (r: seq<Component>)
    ensures forall k :: 0 <= k < |r| ==> r[k].computerId == cid
  {
    if rows == [] then []
    else (if rows[0].computerId == cid then [rows[0]] else []) + RowsOf(rows[1..], cid)
  }

  /** `delete()` of the rows of computer `cid`: the rows of the other computers, in order. */
  function Without(rows: seq<Component>, cid: int): (r: seq<Component>)
    ensures forall k :: 0 <= k < |r| ==> r[k].computerId != cid
    ensures forall k :: 0 <= k < |r| ==> r[k] in rows
  {
    if rows == [] then []
    else (if rows[0].computerId != cid then [rows[0]] else []) + Without(rows[1..], cid)
  }

  /** The component table after computer `cid`'s components are replaced by the fetched groups. */
  function ReplaceComponents(rows: seq<Component>, cid: int, groups: ComponentGroups): seq<Component> {
    Without(rows, cid) + BuildComponents(cid, groups)
  }

  lemma {:induction false} RowsOfConcat(a: seq<Component>, b: seq<Component>, cid: int)
    ensures RowsOf(a + b, cid) == RowsOf(a, cid) + RowsOf(b, cid)
  {
    if a == [] {
      assert a + b == b;
    } else {
      assert (a + b)[1..] == a[1..] + b;
      RowsOfConcat(a[1..], b, cid);
    }
  }

  lemma {:induction false} RowsOfAll(rows: seq<Component>, cid: int)
    requires forall k :: 0 <= k < |rows| ==> rows[k].computerId == cid
    ensures RowsOf(rows, cid) == rows
  {
    if rows != [] {
      RowsOfAll(rows[1..], cid);
    }
  }

  lemma {:induction false} RowsOfNone(rows: seq<Component>, cid: int)
    requires forall k :: 0 <= k < |rows| ==> rows[k].computerId != cid
    ensures RowsOf(rows, cid) == []
  {
    if rows != [] {
      RowsOfNone(rows[1..], cid);
    }
  }

  lemma {:induction false} RowsOfWithout(rows: seq<Component>, cid: int, other: int)
    requires other != cid
    ensures RowsOf(Without(rows, cid), other) == RowsOf(rows, other)
  {
    if rows != [] {
      RowsOfWithout(rows[1..], cid, other);
      var head := if rows[0].computerId != cid then [rows[0]] else [];
      RowsOfConcat(head, Without(rows[1..], cid), other);
    }
  }

  /**
   * Replacing a computer's components: afterwards its rows are exactly the
   * fetched ones, in order, and every other computer keeps its rows.
   */
  lemma ReplaceComponentsEffect(rows: seq<Component>, cid: int, groups: ComponentGroups)
    ensures RowsOf(ReplaceComponents(rows, cid, groups), cid) == BuildComponents(cid, groups)
    ensures forall other :: other != cid ==>
      RowsOf(ReplaceComponents(rows, cid, groups), other) == RowsOf(rows, other)
  {
    BuildComponentsShape(cid, groups);
    RowsOfConcat(Without(rows, cid), BuildComponents(cid, groups), cid);
    RowsOfNone(Without(rows, cid), cid);
    RowsOfAll(BuildComponents(cid, groups), cid);
    forall other | other != cid
      ensures RowsOf(ReplaceComponents(rows, cid, groups), other) == RowsOf(rows, other)
    {
      RowsOfConcat(Without(rows, cid), BuildComponents(cid, groups), other);
      RowsOfWithout(rows, cid, other);
      RowsOfNone(BuildComponents(cid, groups), other);
    }
  }

  // ---------------------------------------------------------------------------
  // The fold.

  /** What the sync has changed so far: the two tables it writes, the id counter and its two counters. */
  datatype SyncState = SyncState(
    computers: map<int, Computer>,
    components: seq<Component>,
    nextComputerId: int,
    computersSynced: nat,
    componentsSynced: nat)

  /** `filter(Computer.glpi_id == glpi_id).first()`: the local computer mirroring GLPI computer `glpiId`. */
  ghost function FindByGlpiId(cs: map<int, Computer>, glpiId: int): (r: Option<int>)
    ensures r.None? <==> forall id :: id in cs ==> cs[id].glpiId != glpiId
    ensures r.Some? ==> r.value in cs && cs[r.value].glpiId == glpiId
  {
    if exists id :: id in cs && cs[id].glpiId == glpiId then
      Some(var id :| id in cs && cs[id].glpiId == glpiId; id)
    else None
  }

  /** The local id the record with GLPI id `glpiId` is stored under. */
  ghost function TargetId(st: SyncState, glpiId: int): int {
    match FindByGlpiId(st.computers, glpiId)
    case Some(id) => id
    case None => st.nextComputerId
  }

  /** The insert-or-update of the computer with GLPI id `g`, counted as synced. */
  ghost function Upserted(st: SyncState, g: int, rec: Fields, now: Timestamp): SyncState {
    var cid := TargetId(st, g);
    var base := if cid in st.computers then st.computers[cid] else NewComputer(cid, g);
    st.(computers := st.computers[cid := Refreshed(base, rec, now)],
        nextComputerId := if cid in st.computers then st.nextComputerId else st.nextComputerId + 1,
        computersSynced := st.computersSynced + 1)
  }

  /** The body of the sync loop for one record. */
  ghost function SyncOne(st: SyncState, rec: Fields, server: GlpiServer, now: Timestamp): SyncState {
    match GlpiIdOf(rec)
    case None => st
    case Some(g) =>
      var up := Upserted(st, g, rec, now);
      var cid := TargetId(st, g);
      match server.components(g)
      case None => up
      case Some(groups) =>
        up.(components := ReplaceComponents(st.components, cid, groups),
            componentsSynced := st.componentsSynced + |BuildComponents(cid, groups)|)
  }

  /** The sync over a list of records, in order. */
  ghost function SyncAll(st: SyncState, recs: seq<Fields>, server: GlpiServer, now: Timestamp): SyncState {
    if recs == [] then st
    else SyncOne(SyncAll(st, recs[..|recs| - 1], server, now), recs[|recs| - 1], server, now)
  }

  /** The fold over one more record is one more step. */
  lemma SyncAllStep(st: SyncState, recs: seq<Fields>, i: nat, server: GlpiServer, now: Timestamp)
    requires i < |recs|
    ensures SyncAll(st, recs[..i + 1], server, now) == SyncOne(SyncAll(st, recs[..i], server, now), recs[i], server, now)
  {
    assert recs[..i + 1][..i] == recs[..i];
  }

  /** The number of records that carry an id. */
  function CountWithId(recs: seq<Fields>): nat {
    if recs == [] then 0
    else CountWithId(recs[..|recs| - 1]) + (if GlpiIdOf(recs[|recs| - 1]).Some? then 1 else 0)
  }

  /** The number of component items GLPI lists for the records that carry an id. */
  function CountItems(recs: seq<Fields>, server: GlpiServer): nat {
    if recs == [] then 0
    else
      var rest := CountItems(recs[..|recs| - 1], server);
      match GlpiIdOf(recs[|recs| - 1])
      case None => rest
      case Some(g) =>
        match server.components(g)
        case None => rest
        case Some(groups) => rest + ItemCount(groups)
  }

  /** The state keeps the id counter above every id and the GLPI ids unique. */
  ghost predicate KeysSound(st: SyncState) {
    ComputersKeyed(st.computers, st.nextComputerId) && GlpiIdsUnique(st.computers)
  }

  /** The insert-or-update keeps the keys sound and every other computer as it was. */
  lemma UpsertedKeepsKeys(st: SyncState, g: int, rec: Fields, now: Timestamp)
    requires KeysSound(st)
    ensures var up := Upserted(st, g, rec, now);
      && KeysSound(up)
      && up.computers.Keys == st.computers.Keys + {TargetId(st, g)}
      && up.computers[TargetId(st, g)].glpiId == g
      && (TargetId(st, g) in st.computers ==> up.nextComputerId == st.nextComputerId)
      && (TargetId(st, g) !in st.computers ==> up.nextComputerId == st.nextComputerId + 1)
      && forall id :: id in st.computers && id != TargetId(st, g) ==> up.computers[id] == st.computers[id]
  {
    var cid := TargetId(st, g);
    var up := Upserted(st, g, rec, now);
    var found := FindByGlpiId(st.computers, g);
    assert up.computers[cid].glpiId == g;
    forall a, b | a in up.computers && b in up.computers && up.computers[a].glpiId == up.computers[b].glpiId
      ensures a == b
    {
      if a != cid && b != cid {
        assert up.computers[a] == st.computers[a] && up.computers[b] == st.computers[b];
      }
    }
  }

  /** One step keeps the id counter above every id, the GLPI ids unique, and every existing computer under its id. */
  lemma SyncOneKeepsKeys(st: SyncState, rec: Fields, server: GlpiServer, now: Timestamp)
    requires KeysSound(st)
    ensures KeysSound(SyncOne(st, rec, server, now))
    ensures st.computers.Keys <= SyncOne(st, rec, server, now).computers.Keys
    ensures st.nextComputerId <= SyncOne(st, rec, server, now).nextComputerId
    ensures forall id :: id in st.computers ==>
      var c := SyncOne(st, rec, server, now).computers[id];
      c.id == st.computers[id].id && c.glpiId == st.computers[id].glpiId &&
      c.lastMaintenance == st.computers[id].lastMaintenance && c.nextMaintenance == st.computers[id].nextMaintenance
  {
    match GlpiIdOf(rec)
    case None =>
    case Some(g) =>
      UpsertedKeepsKeys(st, g, rec, now);
      var st' := SyncOne(st, rec, server, now);
      var up := Upserted(st, g, rec, now);
      assert st'.computers == up.computers && st'.nextComputerId == up.nextComputerId;
  }

  /** Records without an id are skipped and not counted; every other one is counted once. */
  lemma {:induction false} SyncAllCounts(st: SyncState, recs: seq<Fields>, server: GlpiServer, now: Timestamp)
    ensures SyncAll(st, recs, server, now).computersSynced == st.computersSynced + CountWithId(recs)
    ensures SyncAll(st, recs, server, now).componentsSynced == st.componentsSynced + CountItems(recs, server)
  {
    if recs != [] {
      var init := recs[..|recs| - 1];
      SyncAllCounts(st, init, server, now);
      var mid := SyncAll(st, init, server, now);
      match GlpiIdOf(recs[|recs| - 1])
      case None =>
      case Some(g) =>
        match server.components(g)
        case None =>
        case Some(groups) => BuildComponentsShape(TargetId(mid, g), groups);
    }
  }

  /** A batch of records none of which carries an id changes nothing. */
  lemma {:induction false} SyncAllSkipsRecordsWithoutId(st: SyncState, recs: seq<Fields>, server: GlpiServer, now: Timestamp)
    requires forall i :: 0 <= i < |recs| ==> GlpiIdOf(recs[i]).None?
    ensures SyncAll(st, recs, server, now) == st
  {
    if recs != [] {
      SyncAllSkipsRecordsWithoutId(st, recs[..|recs| - 1], server, now);
    }
  }

  /** The fold keeps the keys sound and every existing computer's id, GLPI id and maintenance dates. */
  lemma {:induction false} SyncAllKeepsKeys(st: SyncState, recs: seq<Fields>, server: GlpiServer, now: Timestamp)
    requires KeysSound(st)
    ensures KeysSound(SyncAll(st, recs, server, now))
    ensures st.computers.Keys <= SyncAll(st, recs, server, now).computers.Keys
    ensures forall id :: id in st.computers ==>
      var c := SyncAll(st, recs, server, now).computers[id];
      c.id == st.computers[id].id && c.glpiId == st.computers[id].glpiId &&
      c.lastMaintenance == st.computers[id].lastMaintenance && c.nextMaintenance == st.computers[id].nextMaintenance
  {
    if recs != [] {
      var init := recs[..|recs| - 1];
      SyncAllKeepsKeys(st, init, server, now);
      SyncOneKeepsKeys(SyncAll(st, init, server, now), recs[|recs| - 1], server, now);
    }
  }

  /** Local computer `id` mirrors GLPI computer `g` as record `rec` describes it, components included. */
  ghost predicate MirrorsRecord(st: SyncState, id: int, g: int, rec: Fields, server: GlpiServer, now: Timestamp) {
    && id in st.computers && st.computers[id].glpiId == g && Mirrors(st.computers[id], rec, now)
    && (server.components(g).Some? ==> RowsOf(st.components, id) == BuildComponents(id, server.components(g).value))
  }

  /** The step for a record with GLPI id `g` leaves the local computer mirroring that record. */
  lemma SyncOneMirrors(st: SyncState, rec: Fields, server: GlpiServer, now: Timestamp, g: int)
    requires KeysSound(st) && GlpiIdOf(rec) == Some(g)
    ensures MirrorsRecord(SyncOne(st, rec, server, now), TargetId(st, g), g, rec, server, now)
  {
    var cid := TargetId(st, g);
    if server.components(g).Some? {
      ReplaceComponentsEffect(st.components, cid, server.components(g).value);
    }
  }

  /** The step for a record with another GLPI id leaves the computer mirroring `g`, and its components, alone. */
  lemma SyncOneLeavesOthers(st: SyncState, rec: Fields, server: GlpiServer, now: Timestamp, id: int, g: int)
    requires KeysSound(st) && id in st.computers && st.computers[id].glpiId == g
    requires GlpiIdOf(rec) != Some(g)
    ensures id in SyncOne(st, rec, server, now).computers
    ensures SyncOne(st, rec, server, now).computers[id] == st.computers[id]
    ensures RowsOf(SyncOne(st, rec, server, now).components, id) == RowsOf(st.components, id)
  {
    match GlpiIdOf(rec)
    case None =>
    case Some(g2) =>
      var cid := TargetId(st, g2);
      assert cid != id;
      match server.components(g2)
      case None =>
      case Some(groups) => ReplaceComponentsEffect(st.components, cid, groups);
  }

  /**
   * The last record carrying GLPI id `g` decides the local computer that
   * mirrors it: the computer holds that record's fields and, when the
   * components request succeeds, exactly the components GLPI lists for it.
   */
  lemma {:induction false} SyncAllLastRecordWins(st: SyncState, recs: seq<Fields>, server: GlpiServer, now: Timestamp,
                                                 i: nat, g: int)
    requires KeysSound(st)
    requires i < |recs| && GlpiIdOf(recs[i]) == Some(g)
    requires forall j :: i < j < |recs| ==> GlpiIdOf(recs[j]) != Some(g)
    ensures exists id :: MirrorsRecord(SyncAll(st, recs, server, now), id, g, recs[i], server, now)
  {
    var init := recs[..|recs| - 1];
    var mid := SyncAll(st, init, server, now);
    SyncAllKeepsKeys(st, init, server, now);
    assert SyncAll(st, recs, server, now) == SyncOne(mid, recs[|recs| - 1], server, now);
    if i == |recs| - 1 {
      SyncOneMirrors(mid, recs[i], server, now, g);
      assert MirrorsRecord(SyncAll(st, recs, server, now), TargetId(mid, g), g, recs[i], server, now);
    } else {
      SyncAllLastRecordWins(st, init, server, now, i, g);
      var id :| MirrorsRecord(mid, id, g, init[i], server, now);
      SyncOneLeavesOthers(mid, recs[|recs| - 1], server, now, id, g);
      assert MirrorsRecord(SyncAll(st, recs, server, now), id, g, recs[i], server, now);
    }
  }

  /** Every record carrying an id ends up mirrored by some local computer. */
  lemma {:induction false} SyncAllMirrorsEveryId(st: SyncState, recs: seq<Fields>, server: GlpiServer, now: Timestamp,
                                                 i: nat, g: int)
    requires KeysSound(st)
    requires i < |recs| && GlpiIdOf(recs[i]) == Some(g)
    ensures exists id :: id in SyncAll(st, recs, server, now).computers && SyncAll(st, recs, server, now).computers[id].glpiId == g
  {
    var init := recs[..|recs| - 1];
    var mid := SyncAll(st, init, server, now);
    SyncAllKeepsKeys(st, init, server, now);
    var fin := SyncAll(st, recs, server, now);
    assert fin == SyncOne(mid, recs[|recs| - 1], server, now);
    if i == |recs| - 1 {
      SyncOneMirrors(mid, recs[i], server, now, g);
      assert TargetId(mid, g) in fin.computers && fin.computers[TargetId(mid, g)].glpiId == g;
    } else {
      SyncAllMirrorsEveryId(st, init, server, now, i, g);
      var id :| id in mid.computers && mid.computers[id].glpiId == g;
      SyncOneKeepsKeys(mid, recs[|recs| - 1], server, now);
      assert id in fin.computers && fin.computers[id].glpiId == g;
    }
  }

  /** The insert-or-update keeps the invariant of the store. */
  lemma UpsertedKeepsTables(st: SyncState, g: int, rec: Fields, now: Timestamp,
                            h: map<int, MaintenanceRecord>, ns: map<int, Note>, nextMaintenanceId: int, nextNoteId: int)
    requires TablesValid(st.computers, st.components, h, ns, st.nextComputerId, nextMaintenanceId, nextNoteId)
    ensures var up := Upserted(st, g, rec, now);
      TablesValid(up.computers, up.components, h, ns, up.nextComputerId, nextMaintenanceId, nextNoteId)
  {
    var cid := TargetId(st, g);
    var up := Upserted(st, g, rec, now);
    forall id | id in up.computers
      ensures DatesBacked(up.computers[id], id, h)
    {
      if id in st.computers {
        assert DatesBacked(st.computers[id], id, h);
      } else {
        assert id == cid;
        assert !HasRecord(h, cid);
      }
    }
  }

  /** The sync writes computers and components only; it keeps the invariant of the store. */
  lemma SyncOneKeepsTables(st: SyncState, rec: Fields, server: GlpiServer, now: Timestamp,
                           h: map<int, MaintenanceRecord>, ns: map<int, Note>, nextMaintenanceId: int, nextNoteId: int)
    requires TablesValid(st.computers, st.components, h, ns, st.nextComputerId, nextMaintenanceId, nextNoteId)
    ensures var st' := SyncOne(st, rec, server, now);
      TablesValid(st'.computers, st'.components, h, ns, st'.nextComputerId, nextMaintenanceId, nextNoteId)
  {
    match GlpiIdOf(rec)
    case None =>
    case Some(g) =>
      UpsertedKeepsTables(st, g, rec, now, h, ns, nextMaintenanceId, nextNoteId);
      if server.components(g).Some? {
        BuildComponentsShape(TargetId(st, g), server.components(g).value);
      }
  }

  /** The whole fold keeps the invariant of the store. */
  lemma {:induction false} SyncAllKeepsTables(st: SyncState, recs: seq<Fields>, server: GlpiServer, now: Timestamp,
                                              h: map<int, MaintenanceRecord>, ns: map<int, Note>,
                                              nextMaintenanceId: int, nextNoteId: int)
    requires TablesValid(st.computers, st.components, h, ns, st.nextComputerId, nextMaintenanceId, nextNoteId)
    ensures var fin := SyncAll(st, recs, server, now);
      TablesValid(fin.computers, fin.components, h, ns, fin.nextComputerId, nextMaintenanceId, nextNoteId)
  {
    if recs != [] {
      var init := recs[..|recs| - 1];
      SyncAllKeepsTables(st, init, server, now, h, ns, nextMaintenanceId, nextNoteId);
      SyncOneKeepsTables(SyncAll(st, init, server, now), recs[|recs| - 1], server, now, h, ns, nextMaintenanceId, nextNoteId);
    }
  }

  // ---------------------------------------------------------------------------
  // The sync itself.

  /** What the sync endpoint returns. */
  datatype SyncResult = SyncResult(computersSynced: nat, componentsSynced: nat, message: string)

  /** The summary message of a finished sync. */
  function SyncMessage(computers: nat, components: nat): string {
    "Sincronizados " + IntToString(computers) + " computadores e " + IntToString(components) + " componentes"
  }

  /** `db.query(Computer).filter(Computer.glpi_id == glpi_id).first()` */
  method FindComputer(cs: map<int, Computer>, glpiId: int) returns (r: Option<int>)
    requires GlpiIdsUnique(cs)
    ensures r == FindByGlpiId(cs, glpiId)
  {
    var pending := cs.Keys;
    while pending != {}
      invariant pending <= cs.Keys
      invariant forall id :: id in cs.Keys - pending ==> cs[id].glpiId != glpiId
      decreases |pending|
    {
      var id := Choose(pending);
      if cs[id].glpiId == glpiId {
        return Some(id);
      }
      pending := pending - {id};
    }
    return None;
  }

  /** The rows the inner loops add for the fetched groups, in order. */
  method BuildRows(cid: int, groups: ComponentGroups) returns (rows: seq<Component>)
    ensures rows == BuildComponents(cid, groups)
  {
    rows := [];
    for i := 0 to |groups|
      invariant rows == BuildComponents(cid, groups[..i])
    {
      var (itemType, items) := groups[i];
      ghost var before := rows;
      for k := 0 to |items|
        invariant rows == before + GroupComponents(cid, itemType, items[..k])
      {
        assert GroupComponents(cid, itemType, items[..k + 1])
            == GroupComponents(cid, itemType, items[..k]) + [ComponentOf(cid, itemType, items[k])];
        rows := rows + [ComponentOf(cid, itemType, items[k])];
      }
      assert items[..|items|] == items;
      assert groups[..i + 1][..i] == groups[..i];
    }
    assert groups[..|groups|] == groups;
  }

  /** Replacing the components of a known computer keeps the invariant of the store. */
  lemma ReplaceKeepsTables(cs: map<int, Computer>, rows: seq<Component>, h: map<int, MaintenanceRecord>,
                           ns: map<int, Note>, nextComputerId: int, nextMaintenanceId: int, nextNoteId: int,
                           cid: int, groups: ComponentGroups)
    requires TablesValid(cs, rows, h, ns, nextComputerId, nextMaintenanceId, nextNoteId) && cid in cs
    ensures TablesValid(cs, ReplaceComponents(rows, cid, groups), h, ns, nextComputerId, nextMaintenanceId, nextNoteId)
  {
    BuildComponentsShape(cid, groups);
  }

  /**
   * Delete the components of computer `cid` and add one row per item GLPI
   * lists, returning how many were added; the session's pending rows are
   * written to the table at once.
   */
  method ReplaceComputerComponents(db: Database, cid: int, groups: ComponentGroups) returns (added: nat)
    requires db.Valid() && cid in db.computers
    modifies db
    ensures db.Valid()
    ensures db.components == ReplaceComponents(old(db.components), cid, groups)
    ensures added == |BuildComponents(cid, groups)|
    ensures db.computers == old(db.computers) && db.history == old(db.history) && db.notes == old(db.notes)
    ensures db.nextComputerId == old(db.nextComputerId) && db.nextMaintenanceId == old(db.nextMaintenanceId)
    ensures db.nextNoteId == old(db.nextNoteId)
  {
    ReplaceKeepsTables(db.computers, db.components, db.history, db.notes, db.nextComputerId,
                       db.nextMaintenanceId, db.nextNoteId, cid, groups);
    var rows := BuildRows(cid, groups);
    db.components := Without(db.components, cid) + rows;
    added := |rows|;
  }

  /** Find the computer mirroring GLPI computer `g`, adding it when there is none, and copy the record into it. */
  method UpsertComputer(db: Database, g: int, rec: Fields, now: Timestamp) returns (cid: int)
    requires db.Valid()
    modifies db
    ensures db.Valid()
    ensures var st := SyncState(old(db.computers), old(db.components), old(db.nextComputerId), 0, 0);
      && cid == TargetId(st, g)
      && db.computers == Upserted(st, g, rec, now).computers
      && db.nextComputerId == Upserted(st, g, rec, now).nextComputerId
    ensures cid in db.computers
    ensures db.components == old(db.components) && db.history == old(db.history) && db.notes == old(db.notes)
    ensures db.nextMaintenanceId == old(db.nextMaintenanceId) && db.nextNoteId == old(db.nextNoteId)
  {
    ghost var st := SyncState(db.computers, db.components, db.nextComputerId, 0, 0);
    UpsertedKeepsTables(st, g, rec, now, db.history, db.notes, db.nextMaintenanceId, db.nextNoteId);
    var found := FindComputer(db.computers, g);
    var base: Computer;
    if found.None? {
      // `db.add(computer)` and `db.flush()` assign the next id.
      cid := db.nextComputerId;
      base := NewComputer(cid, g);
      db.nextComputerId := db.nextComputerId + 1;
    } else {
      cid := found.value;
      base := db.computers[cid];
    }
    db.computers := db.computers[cid := Refreshed(base, rec, now)];
  }

  /** One pass of the loop body over a computer record, with the two counters. */
  method SyncRecord(db: Database, rec: Fields, server: GlpiServer, now: Timestamp,
                    computersSynced: nat, componentsSynced: nat)
    returns (computersSynced': nat, componentsSynced': nat)
    requires db.Valid()
    modifies db
    ensures db.Valid()
    ensures SyncState(db.computers, db.components, db.nextComputerId, computersSynced', componentsSynced')
         == SyncOne(SyncState(old(db.computers), old(db.components), old(db.nextComputerId),
                              computersSynced, componentsSynced), rec, server, now)
    ensures db.history == old(db.history) && db.notes == old(db.notes)
    ensures db.nextMaintenanceId == old(db.nextMaintenanceId) && db.nextNoteId == old(db.nextNoteId)
  {
    computersSynced', componentsSynced' := computersSynced, componentsSynced;
    match GlpiIdOf(rec)
    case None =>
    case Some(g) =>
      var cid := UpsertComputer(db, g, rec, now);
      computersSynced' := computersSynced + 1;
      match server.components(g)
      case None =>
      case Some(groups) =>
        var added := ReplaceComputerComponents(db, cid, groups);
        componentsSynced' := componentsSynced + added;
  }

  /** The database holds the fold over the first `n` of GLPI's records, with counters `c` and `k`, and is valid. */
  ghost predicate FoldedUpTo(db: Database, init: SyncState, server: GlpiServer, now: Timestamp, n: nat, c: nat, k: nat)
    reads db
  {
    && n <= |server.computers|
    && db.Valid()
    && SyncState(db.computers, db.components, db.nextComputerId, c, k) == SyncAll(init, server.computers[..n], server, now)
  }

  /** The tables the sync does not write are as given. */
  ghost predicate OthersAsBefore(db: Database, h: map<int, MaintenanceRecord>, ns: map<int, Note>,
                                 nextMaintenanceId: int, nextNoteId: int)
    reads db
  {
    db.history == h && db.notes == ns && db.nextMaintenanceId == nextMaintenanceId && db.nextNoteId == nextNoteId
  }

  /** The inner loop over one page: the fold is extended by the page's records. */
  method SyncPage(db: Database, server: GlpiServer, now: Timestamp, ghost init: SyncState, start: nat, page: seq<Fields>,
                  computersSynced: nat, componentsSynced: nat)
    returns (computersSynced': nat, componentsSynced': nat)
    requires start + |page| <= |server.computers| && page == server.computers[start..start + |page|]
    requires FoldedUpTo(db, init, server, now, start, computersSynced, componentsSynced)
    modifies db
    ensures FoldedUpTo(db, init, server, now, start + |page|, computersSynced', componentsSynced')
    ensures OthersAsBefore(db, old(db.history), old(db.notes), old(db.nextMaintenanceId), old(db.nextNoteId))
  {
    computersSynced', componentsSynced' := computersSynced, componentsSynced;
    for j := 0 to |page|
      invariant FoldedUpTo(db, init, server, now, start + j, computersSynced', componentsSynced')
      invariant OthersAsBefore(db, old(db.history), old(db.notes), old(db.nextMaintenanceId), old(db.nextNoteId))
    {
      assert page[j] == server.computers[start + j];
      SyncAllStep(init, server.computers, start + j, server, now);
      computersSynced', componentsSynced' := SyncRecord(db, page[j], server, now, computersSynced', componentsSynced');
    }
  }

  /** The number of `get_computers` requests the loop makes over `n` records. */
  lemma PagesRequested(n: nat, q: nat)
    requires q >= 1 && (q - 1) * 50 <= n < q * 50
    ensures q == n / Limit + 1
  {
  }

  /**
   * One pass of the `while True` loop: the page at `start` is requested and
   * its records are folded in. `fetched` is the page's length; the page is
   * empty only past the end and short only at the end.
   */
  method SyncNextPage(db: Database, server: GlpiServer, now: Timestamp, ghost init: SyncState, start: nat,
                      computersSynced: nat, componentsSynced: nat)
    returns (fetched: nat, computersSynced': nat, componentsSynced': nat)
    requires FoldedUpTo(db, init, server, now, start, computersSynced, componentsSynced)
    modifies db
    ensures fetched == |GetComputers(server, start, Limit)|
    ensures start + fetched <= |server.computers|
    ensures fetched == 0 ==> start == |server.computers|
    ensures fetched < Limit ==> start + fetched == |server.computers|
    ensures FoldedUpTo(db, init, server, now, start + fetched, computersSynced', componentsSynced')
    ensures OthersAsBefore(db, old(db.history), old(db.notes), old(db.nextMaintenanceId), old(db.nextNoteId))
  {
    var page := GetComputers(server, start, Limit);
    fetched := |page|;
    computersSynced', componentsSynced' := computersSynced, componentsSynced;
    if page != [] {
      computersSynced', componentsSynced' :=
        SyncPage(db, server, now, init, start, page, computersSynced, componentsSynced);
    }
  }

  /**
   * The `while True` loop of `_sync_glpi_computers_impl`: pages of `Limit`
   * records are requested from offset 0 on until a page comes back empty or
   * short, and every record is folded in, in order.
   */
  method SyncAllPages(db: Database, server: GlpiServer, now: Timestamp, ghost init: SyncState)
    returns (computersSynced: nat, componentsSynced: nat, ghost pages: nat)
    requires db.Valid()
    requires init == SyncState(db.computers, db.components, db.nextComputerId, 0, 0)
    modifies db
    ensures db.Valid()
    ensures SyncState(db.computers, db.components, db.nextComputerId, computersSynced, componentsSynced)
         == SyncAll(init, server.computers, server, now)
    ensures db.history == old(db.history) && db.notes == old(db.notes)
    ensures db.nextMaintenanceId == old(db.nextMaintenanceId) && db.nextNoteId == old(db.nextNoteId)
    ensures pages == |server.computers| / Limit + 1
  {
    computersSynced, componentsSynced := 0, 0;
    var start: nat := 0;
    pages := 0;
    ghost var synced: nat := 0;
    while true
      invariant start == pages * 50 && synced == start
      invariant FoldedUpTo(db, init, server, now, synced, computersSynced, componentsSynced)
      invariant OthersAsBefore(db, old(db.history), old(db.notes), old(db.nextMaintenanceId), old(db.nextNoteId))
      decreases |server.computers| - start
    {
      var fetched;
      fetched, computersSynced, componentsSynced :=
        SyncNextPage(db, server, now, init, start, computersSynced, componentsSynced);
      pages := pages + 1;
      synced := start + fetched;
      if fetched == 0 || fetched < Limit {
        break;
      }
      start := start + Limit;
    }
    PagesRequested(synced, pages);
    assert server.computers[..synced] == server.computers;
  }

  /** `_sync_glpi_computers_impl`: the whole sync, with the counters and the summary message it returns. */
  method SyncGlpiComputers(db: Database, server: GlpiServer, now: Timestamp)
    returns (result: SyncResult, ghost pages: nat)
    requires db.Valid()
    modifies db
    ensures db.Valid()
    ensures SyncState(db.computers, db.components, db.nextComputerId, result.computersSynced, result.componentsSynced)
         == SyncAll(SyncState(old(db.computers), old(db.components), old(db.nextComputerId), 0, 0),
                    server.computers, server, now)
    ensures result.computersSynced == CountWithId(server.computers)
    ensures result.componentsSynced == CountItems(server.computers, server)
    ensures result.message == SyncMessage(result.computersSynced, result.componentsSynced)
    ensures db.history == old(db.history) && db.notes == old(db.notes)
    ensures db.nextMaintenanceId == old(db.nextMaintenanceId) && db.nextNoteId == old(db.nextNoteId)
    ensures pages == |server.computers| / Limit + 1
  {
    ghost var init := SyncState(db.computers, db.components, db.nextComputerId, 0, 0);
    var computersSynced, componentsSynced;
    computersSynced, componentsSynced, pages := SyncAllPages(db, server, now, init);
    SyncAllCounts(init, server.computers, server, now);
    result := SyncResult(computersSynced, componentsSynced, SyncMessage(computersSynced, componentsSynced));
  }
}
