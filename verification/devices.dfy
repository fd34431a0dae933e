/**
 * The device list: the maintenance status shown for each computer, the tab
 * and search filters, and offset/limit pagination over the computers ordered
 * by their last update, newest first.
 */
module Devices {
  import opened Wrappers
  import opened Models
  import opened Text
  import opened Collections

  /** The maintenance status shown for a computer. */
  datatype Status = Pendente | Atrasada | EmDia

  /** The string `calculate_maintenance_status` returns for each status; no two statuses share one. */
  function StatusLabel(s: Status): (r: string)
    ensures s == Pendente <==> r == "Pendente"
    ensures s == Atrasada <==> r == "Atrasada"
    ensures s == EmDia <==> r == "Em Dia"
  {
    match s
    case Pendente => "Pendente"
    case Atrasada => "Atrasada"
    case EmDia => "Em Dia"
  }

  /**
   * `calculate_maintenance_status`: pending when no next maintenance is
   * scheduled, overdue once `now` is past it, on schedule otherwise.
   */
  function CalculateMaintenanceStatus(last: Option<Timestamp>, next: Option<Timestamp>, now: Timestamp): (s: Status)
    ensures s == Pendente <==> next.None?
    ensures s == Atrasada <==> next.Some? && now > next.value
    ensures s == EmDia <==> next.Some? && now <= next.value
  {
    if next.None? then Pendente
    else if now > next.value then Atrasada
    else EmDia
  }

  /** The tabs of the device list. */
  datatype Tab = All | Preventiva | Corretiva

  /** The tab filter: preventive shows computers with a maintenance done, corrective those without a future one. */
  predicate TabSelects(tab: Tab, c: Computer, now: Timestamp) {
    match tab
    case All => true
    case Preventiva => c.lastMaintenance.Some?
    case Corretiva => c.nextMaintenance.None? || c.nextMaintenance.value < now
  }

  /** `column.ilike(f"%{q}%")`, as an ASCII case-insensitive substring test. */
  predicate ILike(column: string, q: string) {
    Contains(Lower(column), Lower(q))
  }

  /** The search filter: with a non-empty query, the name, asset tag, serial or entity must contain it. */
  predicate SearchMatches(c: Computer, q: Option<string>) {
    q.None? || q.value == "" ||
    ILike(c.name, q.value) || ILike(c.patrimonio, q.value) || ILike(c.serial, q.value) || ILike(c.entity, q.value)
  }

  /** Both filters together. */
  predicate Selected(c: Computer, tab: Tab, q: Option<string>, now: Timestamp) {
    SearchMatches(c, q) && TabSelects(tab, c, now)
  }

  /** The ids of the computers the query selects. */
  ghost function MatchingIds(cs: map<int, Computer>, tab: Tab, q: Option<string>, now: Timestamp): set<int> {
    set id | id in cs && Selected(cs[id], tab, q, now)
  }

  /** No computer listed under the corrective tab is on schedule. */
  lemma CorrectiveNeverOnSchedule(c: Computer, now: Timestamp)
    requires TabSelects(Corretiva, c, now)
    ensures CalculateMaintenanceStatus(c.lastMaintenance, c.nextMaintenance, now) != EmDia
  {
  }

  /** One row of the list. */
  datatype DeviceRow = DeviceRow(
    id: int,
    glpiId: int,
    name: string,
    maintenanceStatus: string,
    lastMaintenance: Option<Timestamp>,
    nextMaintenance: Option<Timestamp>)

  /** The response: one page of rows and the number of computers the filters select. */
  datatype DevicesPage = DevicesPage(items: seq<DeviceRow>, page: int, pageSize: int, total: int)

  /** The row shown for a computer. */
  function RowOf(c: Computer, now: Timestamp): DeviceRow {
    DeviceRow(c.id, c.glpiId, c.name, StatusLabel(CalculateMaintenanceStatus(c.lastMaintenance, c.nextMaintenance, now)),
              c.lastMaintenance, c.nextMaintenance)
  }

  /** `order_by(desc(Computer.updated_at))` holds. */
  predicate NewestFirst(s: seq<Computer>) {
    forall i :: 0 < i < |s| ==> s[i - 1].updatedAt >= s[i].updatedAt
  }

  /** Puts `c` into its place in a list ordered newest first. */
  function InsertByRecency(c: Computer, s: seq<Computer>): (r: seq<Computer>)
    requires NewestFirst(s)
    ensures NewestFirst(r)
    ensures multiset(r) == multiset(s) + multiset{c}
    ensures r != [] && (r[0] == c || (s != [] && r[0] == s[0]))
  {
    if s == [] then [c]
    else if c.updatedAt >= s[0].updatedAt then [c] + s
    else
      assert s == [s[0]] + s[1..];
      [s[0]] + InsertByRecency(c, s[1..])
  }

  /** The computers ordered newest first. */
  function SortByRecency(s: seq<Computer>): (r: seq<Computer>)
    ensures NewestFirst(r)
    ensures multiset(r) == multiset(s)
  {
    if s == [] then []
    else
      assert s == [s[0]] + s[1..];
      InsertByRecency(s[0], SortByRecency(s[1..]))
  }

  /** `.offset(offset).limit(limit)`: at most `limit` elements, starting at `offset`. */
  function PageOf<T>(s: seq<T>, offset: nat, limit: nat): (r: seq<T>)
    ensures |r| <= limit
    ensures offset >= |s| ==> r == []
    ensures forall k :: 0 <= k < |r| ==> offset + k < |s| && r[k] == s[offset + k]
    ensures offset < |s| ==> |r| == (if offset + limit <= |s| then limit else |s| - offset)
  {
    var from := if offset < |s| then offset else |s|;
    var to := if offset + limit < |s| then offset + limit else |s|;
    s[from..to]
  }

  /** The computers stored under `ids`, in that order. */
  function Lookup(cs: map<int, Computer>, ids: seq<int>): (r: seq<Computer>)
    requires forall k :: 0 <= k < |ids| ==> ids[k] in cs
    ensures |r| == |ids| && forall k :: 0 <= k < |ids| ==> r[k] == cs[ids[k]]
  {
    seq(|ids|, k requires 0 <= k < |ids| => cs[ids[k]])
  }

  /** `query.filter(...)`: the ids of the computers the filters admit, each once. */
  method SelectIds(computers: map<int, Computer>, tab: Tab, q: Option<string>, now: Timestamp) returns (ids: seq<int>)
    ensures NoDuplicates(ids)
    ensures forall k :: 0 <= k < |ids| ==> ids[k] in computers
    ensures forall id :: id in ids <==> id in MatchingIds(computers, tab, q, now)
  {
    ids := [];
    var pending := computers.Keys;
    while pending != {}
      invariant pending <= computers.Keys
      invariant NoDuplicates(ids)
      invariant forall k :: 0 <= k < |ids| ==> ids[k] in computers && ids[k] !in pending && Selected(computers[ids[k]], tab, q, now)
      invariant forall id :: id in computers && id !in pending && Selected(computers[id], tab, q, now) ==> id in ids
      decreases pending
    {
      var id := Choose(pending);
      if Selected(computers[id], tab, q, now) {
        ids := ids + [id];
      }
      pending := pending - {id};
    }
  }

  /** Ordering the selected computers loses none and adds none. */
  lemma OrderedSelection(computers: map<int, Computer>, tab: Tab, q: Option<string>, now: Timestamp,
                         ids: seq<int>, sorted: seq<Computer>)
    requires NoDuplicates(ids)
    requires forall k :: 0 <= k < |ids| ==> ids[k] in computers
    requires forall id :: id in ids <==> id in MatchingIds(computers, tab, q, now)
    requires multiset(sorted) == multiset(Lookup(computers, ids))
    ensures |sorted| == |ids| == |MatchingIds(computers, tab, q, now)|
    ensures forall c :: c in sorted ==> c in computers.Values && Selected(c, tab, q, now)
    ensures forall id :: id in MatchingIds(computers, tab, q, now) ==> computers[id] in sorted
  {
    var selected := Lookup(computers, ids);
    NoDuplicatesCardinality(ids);
    assert (set x | x in ids) == MatchingIds(computers, tab, q, now);
    assert |sorted| == |selected| by {
      assert |multiset(sorted)| == |multiset(selected)|;
    }
    forall c | c in sorted ensures c in computers.Values && Selected(c, tab, q, now) {
      assert c in multiset(selected);
      var k :| 0 <= k < |selected| && selected[k] == c;
      assert ids[k] in MatchingIds(computers, tab, q, now);
    }
    forall id | id in MatchingIds(computers, tab, q, now) ensures computers[id] in sorted {
      var k :| 0 <= k < |ids| && ids[k] == id;
      assert selected[k] == computers[id];
      assert computers[id] in multiset(selected);
    }
  }

  /** The response rows for a page of computers, in order. */
  method FormatRows(rows: seq<Computer>, now: Timestamp) returns (items: seq<DeviceRow>)
    ensures |items| == |rows|
    ensures forall k :: 0 <= k < |rows| ==> items[k] == RowOf(rows[k], now)
  {
    items := [];
    for i := 0 to |rows|
      invariant |items| == i
      invariant forall k :: 0 <= k < i ==> items[k] == RowOf(rows[k], now)
    {
      var c := rows[i];
      var status := CalculateMaintenanceStatus(c.lastMaintenance, c.nextMaintenance, now);
      items := items + [DeviceRow(c.id, c.glpiId, c.name, StatusLabel(status), c.lastMaintenance, c.nextMaintenance)];
    }
  }

  /**
   * `list_devices`: selects the computers the tab and search filters admit,
   * counts them, orders them newest first and returns the rows of page
   * `page` of size `pageSize`. `selected` holds the ids of the selected
   * computers and `ordered` the whole ordered selection.
   */
  method ListDevices(computers: map<int, Computer>, tab: Tab, page: int, pageSize: int, q: Option<string>, now: Timestamp)
    returns (result: DevicesPage, ghost selected: seq<int>, ghost ordered: seq<Computer>)
    requires page >= 1 && 1 <= pageSize <= 100
    ensures result.page == page && result.pageSize == pageSize
    ensures NoDuplicates(selected) && forall k :: 0 <= k < |selected| ==> selected[k] in computers
    ensures forall id :: id in selected <==> id in MatchingIds(computers, tab, q, now)
    ensures multiset(ordered) == multiset(Lookup(computers, selected))
    ensures result.total == |MatchingIds(computers, tab, q, now)| == |ordered|
    ensures forall c :: c in ordered ==> c in computers.Values && Selected(c, tab, q, now)
    ensures forall id :: id in MatchingIds(computers, tab, q, now) ==> computers[id] in ordered
    ensures NewestFirst(ordered)
    ensures var rows := PageOf(ordered, (page - 1) * pageSize, pageSize);
      |result.items| == |rows| && forall k :: 0 <= k < |rows| ==> result.items[k] == RowOf(rows[k], now)
    ensures |result.items| <= pageSize
    ensures tab == Preventiva ==> forall k :: 0 <= k < |result.items| ==> result.items[k].lastMaintenance.Some?
    ensures tab == Corretiva ==> forall k :: 0 <= k < |result.items| ==> result.items[k].maintenanceStatus != "Em Dia"
  {
    var ids := SelectIds(computers, tab, q, now);
    var total := |ids|;
    var sorted := SortByRecency(Lookup(computers, ids));
    OrderedSelection(computers, tab, q, now, ids, sorted);
    selected, ordered := ids, sorted;

    // Pagination.
    var offset := (page - 1) * pageSize;
    var rows := PageOf(sorted, offset, pageSize);

    // Formatting the response.
    var items := FormatRows(rows, now);
    result := DevicesPage(items, page, pageSize, total);

    forall k | 0 <= k < |items| ensures TabSelects(tab, rows[k], now) {
      assert rows[k] in sorted;
    }
  }
}
