# GLPI maintenance backend — a Dafny model

This project models the core of the Python backend of a maintenance tracker. The tracker mirrors an organisation's computers from a GLPI inventory server. It keeps the following in a local database:

- those computers and their hardware components;
- a maintenance history per computer;
- free-text notes per computer.

The model covers these parts of the backend:

- **Value normalisation.** `_dropdown_str` turns a GLPI field value into the string stored locally. The value may be None, a plain id or name, or an expanded dropdown object.
- **Maintenance status.** `calculate_maintenance_status` gives "Pendente", "Atrasada" or "Em Dia" from the next maintenance date.
- **The device list.** This is the filtering and pagination of `list_devices`:
  - a search term must occur in the name, asset tag (`patrimonio`), serial or entity;
  - the preventive tab keeps computers that have had a maintenance;
  - the corrective tab keeps computers with no next maintenance, or one strictly before now;
  - the total is counted over the filtered computers;
  - the computers are ordered by `updated_at` descending and cut by offset and limit.
- **Maintenance handlers.** `create_maintenance`, `update_maintenance` and `delete_maintenance` keep the owning computer's `last_maintenance` and `next_maintenance` in step with the history.
- **Note handlers.** `create_device_note` adds a note to a device, addressed by the device's id. `update_device_note` and `delete_device_note` address a note by its own id together with its device's id.
- **The GLPI sync.** `_sync_glpi_computers_impl` does the following:
  - it pages through GLPI's computers, 50 at a time;
  - it inserts or updates the local computer for every record with an id;
  - it replaces that computer's components with the ones GLPI lists;
  - it counts what it synced and reports a summary message.
- **The diagnostic tool's helpers.** `_pick` copies chosen keys out of a dict. `_candidate_keys` lists, sorted, the keys that look like they name or identify hardware.

## How the model is organised

Each module matches one part of the backend:

| module | contents |
|---|---|
| `Wrappers` | `Option` and `Result` |
| `Collections` | small set and sequence facts |
| `Json` | the model of GLPI's JSON values |
| `Text` | ASCII string operations |
| `Dropdown` | the model of `_dropdown_str` |
| `Models` | the tables |
| `Devices` | the device list |
| `Maintenance` | the maintenance handlers |
| `Notes` | the note handlers |
| `Sync` | the GLPI sync |
| `Diagnose` | the diagnostic tool's helpers |

**JSON values.** GLPI's JSON is the datatype `Json.Value`. A dict is an ordered list of entries, because Python dicts keep insertion order. Its helpers are:

- `Get` models `dict.get`, which returns None for a missing key;
- `Put` models `d[k] = v`;
- `Truthy` models Python truthiness;
- `ToStr` models `str()`.

**The database.** The database session is the class `Models.Database`:

- the maps `computers`, `history` and `notes` are keyed by their autoincrement ids;
- `components` is a sequence of rows;
- there is one counter per autoincrement key.

Its invariant `Valid()` (`Models.TablesValid` on the field values) states these facts:

- every row sits under its own id, below the next id to be assigned;
- no two computers share a GLPI id;
- every maintenance record, note and component belongs to a known computer;
- only "Preventiva" records carry a due date;
- every computer's dates come from its own history:
  - a computer with no record has neither date;
  - a computer with a record has a last date;
  - each date that is set is the performed date, or the due date, of one of its records.

Every handler is a method that takes the database, is proved to keep `Valid()`, and states its entire new state.

**The sync.** The sync is specified by a fold, `Sync.SyncAll`, of one step per GLPI record (`Sync.SyncOne`). The paging loop is proved to compute that fold over all of GLPI's records. The lemmas about the fold cover:

- the counters;
- which record wins when GLPI returns the same id twice;
- the components each computer ends up with;
- the database invariant.

## Model

| member | source | states |
|---|---|---|
| Dropdown.DropdownStr | python-api/main.py:58-71 | the definition of `_dropdown_str`: None gives "", an expanded object gives its first truthy label or its id, and any other value gives `str(value)`; its properties are the rows that follow |
| Dropdown.DropdownStrObject | python-api/main.py:58-71 | for an expanded dropdown object, a truthy "completename" wins over "name", which wins over "label"; with none of them the id is printed, and a missing id or an id of None gives "" |
| Dropdown.DropdownStrEmpty | python-api/main.py:58-71 | the normalised string is empty exactly for None, the empty string, and objects with no truthy label whose id is missing, None or "" |
| Dropdown.FirstLabelPicksFirstTruthy | python-api/main.py:64-67 | the first label key whose value is truthy decides the label; earlier keys with falsy values are skipped |
| Dropdown.FirstLabelFallsBack | python-api/main.py:64-70 | when no label key has a truthy value, the result is the id fallback |
| Json.TruthyToStrNonEmpty | python-api/main.py:66-67 | `str()` of a truthy value is never empty, so a label that is found is non-empty |
| Json.ToStrEmpty | python-api/main.py:71 | `str(v)` is "" exactly when `v` is the empty string |
| Json.NatToStringRoundTrip | python-api/main.py:183 | printing a counter yields non-empty decimal digits that read back as the same number |
| Json.Put | python-api/tools/diagnose_glpi_components.py:18 | `d[k] = v`: an existing key keeps its place, a new key is appended, `k` then maps to `v`, every other key keeps its value, and unique keys stay unique |
| Devices.CalculateMaintenanceStatus | python-api/main.py:262-271 | "Pendente" if and only if no next maintenance is set; "Atrasada" if and only if `now` is past it; "Em Dia" if and only if it is set and not passed |
| Devices.StatusLabel | python-api/main.py:264-271 | each status is shown as the string the source returns, "Pendente", "Atrasada" or "Em Dia", and no two statuses share a string |
| Devices.CorrectiveNeverOnSchedule | python-api/main.py:299-305 | a computer the corrective tab admits never shows as "Em Dia" |
| Devices.ILike | python-api/main.py:289-292 | the definition of `column.ilike(f"%{q}%")`: the lower-cased query occurs as a substring of the lower-cased column |
| Devices.SearchMatches | python-api/main.py:285-294 | the search filter: with no query or an empty one every computer passes; otherwise the name, asset tag, serial or entity must contain the query, ignoring case |
| Devices.TabSelects | python-api/main.py:297-305 | the tab filter: "all" admits every computer; "preventiva" admits those with a last maintenance; "corretiva" admits those with no next maintenance or one strictly before `now` |
| Devices.SelectIds | python-api/main.py:285-305 | the ids returned are exactly the computers that pass both the search and the tab filter, each once |
| Devices.SortByRecency | python-api/main.py:311 | the result is ordered by `updated_at` descending and is a permutation of the input |
| Devices.PageOf | python-api/main.py:310-311 | offset and limit: at most `limit` elements, the k-th being element `offset + k`; empty past the end; when the offset is inside, exactly `limit` elements, or all remaining ones on a short last page |
| Devices.OrderedSelection | python-api/main.py:297-311 | the ordered selection holds every selected computer and only those, and its length is the count of selected ids |
| Devices.ListDevices | python-api/main.py:274-331 | `total` is the number of computers that pass the filters; the ordered selection is a permutation of exactly the selected computers, newest first; the items are the rows of page `page` of it; at most `page_size` items; preventive-tab rows have a last maintenance; corrective-tab rows are never "Em Dia" |
| Devices.RowOf | python-api/main.py:316-324 | the definition of one response row: the computer's id, GLPI id and name, the label of its maintenance status at `now`, and its two maintenance dates |
| Devices.FormatRows | python-api/main.py:313-324 | one response row per computer of the page, in order, with its status from `calculate_maintenance_status` |
| Maintenance.DaysLater | python-api/main.py:378 | the definition of `performed_at + timedelta(days=n)`: `n` times 86400 seconds later; also used at main.py:526 |
| Maintenance.NextDueOnCreate | python-api/main.py:376-378 | a new record gets a due date if and only if it is "Preventiva" with a truthy day count, and the date is `performed_at` plus that many days |
| Maintenance.ApplyUpdate | python-api/main.py:514-531 | fields given in the payload are written, and fields left out keep their old values; a non-"Preventiva" record loses its due date; a "Preventiva" record with a day count is due that many days after its (new) performed date, and otherwise keeps its due date; `updated_at` is `now` |
| Maintenance.ApplyUpdateIdempotent | python-api/main.py:514-531 | applying the same update twice at the same time equals applying it once |
| Maintenance.EmptyUpdateStampsOnly | python-api/main.py:514-531 | an update with every field left out changes nothing but `updated_at` on a record that keeps the invariant |
| Maintenance.RecordFromCreate | python-api/main.py:376-388 | the inserted record belongs to the requested computer, carries the request's fields and performed date, has a due date only when it is "Preventiva", and has no update time yet |
| Maintenance.ComputerAfterCreate | python-api/main.py:393-395 | after a create, the computer's last date is the performed date, and its next date changes only when the new record has a due date |
| Maintenance.ComputerAfterUpdate | python-api/main.py:534-538 | after an update, the computer takes the record's performed date and recomputed due date, and `updated_at` is `now` |
| Maintenance.ComputerAfterDelete | python-api/main.py:557-568 | after a delete, the computer takes the dates of the latest remaining record, or neither date when none remains, and `updated_at` is `now` |
| Maintenance.CreateKeepsHistoryConsistent | python-api/main.py:378-392 | inserting the record and moving the computer's dates keeps every computer's dates backed by its history |
| Maintenance.UpdateKeepsHistoryConsistent | python-api/main.py:514-538 | writing the record and copying its dates to its computer keeps the history invariant; the record's computer exists |
| Maintenance.DeleteKeepsHistoryConsistent | python-api/main.py:548-567 | removing the record and taking the computer's dates from its latest remaining record, or clearing them, keeps the history invariant |
| Maintenance.CreateMaintenance | python-api/main.py:364-395 | an unknown computer gives "Computador não encontrado" and changes nothing; otherwise the new record is stored under the next id, the computer's last date is the performed date, its next date moves only when one was scheduled, and nothing else changes |
| Maintenance.UpdatedRecord | python-api/main.py:514-531 | the field-by-field writes and the due-date recomputation yield exactly `ApplyUpdate` of the record |
| Maintenance.UpdateMaintenance | python-api/main.py:503-541 | an unknown record gives "Manutenção não encontrada" and changes nothing; otherwise the record becomes `ApplyUpdate` of itself and its computer takes the record's dates and `now`, and nothing else changes |
| Maintenance.IsLatest | python-api/main.py:559-561 | the definition of what the latest-record query returns: a record of the computer whose performed date no other record of it exceeds |
| Maintenance.FindLatest | python-api/main.py:559-561 | returns None if and only if the computer has no record; otherwise returns one of its records with the greatest performed date |
| Maintenance.DeleteMaintenance | python-api/main.py:545-570 | an unknown record gives "Manutenção não encontrada" and changes nothing; otherwise exactly that record is removed and its computer's dates are those of its latest remaining record, or unset when none remains |
| Models.NextMaintenanceIsPreventive | python-api/main.py:373-391 | a computer with a next maintenance date has a "Preventiva" record that scheduled it |
| Notes.ApplyNoteUpdate | python-api/main.py:476-481 | author and content are replaced only when given; id and device stay; `updated_at` is `now` |
| Notes.EmptyNoteUpdateStampsOnly | python-api/main.py:474-479 | an update with no field only stamps the time |
| Notes.CreateDeviceNote | python-api/main.py:435-457 | an unknown device gives "Dispositivo não encontrado" and changes nothing; otherwise the note is stored under the next note id, and nothing else changes |
| Notes.UpdateDeviceNote | python-api/main.py:460-484 | a note that does not match both ids gives "Nota não encontrada" and changes nothing; otherwise only that note changes, to `ApplyNoteUpdate` of itself |
| Notes.DeleteDeviceNote | python-api/main.py:487-499 | a note that does not match both ids gives "Nota não encontrada" and changes nothing; otherwise exactly that note is removed |
| Sync.GetComputers | python-api/main.py:107 | a page holds at most `limit` consecutive records starting at `start`; it is empty exactly past the end, and short only at the end |
| Sync.GlpiIdOf | python-api/main.py:113-115 | a record is synced exactly when its "id" is a truthy integer, and the GLPI id is that integer |
| Sync.ComputerName | python-api/main.py:127 | the definition of the stored name: `str(name)` when the record's name is truthy, otherwise `Computer-<glpi id>`; `Sync.ComputerNameRule` states its properties |
| Sync.ComputerNameRule | python-api/main.py:127 | a synced computer's name is never empty: it is `str(name)` when the name is truthy, and `Computer-<glpi id>` otherwise |
| Sync.ComponentTypeStripsPrefix | python-api/main.py:156 | removing "Item_Device" from "Item_Device" + a type that does not contain it gives that type |
| Sync.Refreshed | python-api/main.py:126-134 | the refreshed computer mirrors the record (name, the five dropdown fields, the raw data and `updated_at`) and keeps its id, GLPI id and maintenance dates |
| Sync.ComponentOf | python-api/main.py:153-162 | the definition of one component row: it belongs to the computer, its type has "Item_Device" removed, its five fields are the dropdown strings of the item's fields, and it keeps the raw item |
| Sync.ComponentType | python-api/main.py:156 | the definition of `comp_type.replace("Item_Device", "")`; `Sync.ComponentTypeStripsPrefix` states what it does to a prefixed type |
| Sync.GroupComponents | python-api/main.py:152-164 | one component row per item of a type, in order, each built from that item |
| Sync.BuildComponents | python-api/main.py:151-165 | the definition of the rows the nested loops add: the rows of each group, group after group in GLPI's order |
| Sync.BuildComponentsShape | python-api/main.py:152-165 | the rows added are one per listed item; each belongs to the computer and has one of the listed types with the prefix removed |
| Sync.Without | python-api/main.py:146-149 | the component table after the bulk delete: only rows of other computers remain, each from the old table |
| Sync.ReplaceComponents | python-api/main.py:146-165 | the definition of the delete-and-add: the rows of other computers, then the rows built from GLPI's groups |
| Sync.ReplaceComponentsEffect | python-api/main.py:146-165 | after the delete-and-add, the computer's components are exactly the ones built from GLPI's groups, in order, and every other computer keeps its components |
| Sync.FindByGlpiId | python-api/main.py:120 | the lookup by GLPI id finds a computer with that GLPI id, or None exactly when there is none |
| Sync.Upserted | python-api/main.py:119-137 | the definition of the find-or-create and refresh: the computer with the GLPI id, or a new one under the next id, is refreshed from the record and counted |
| Sync.SyncOne | python-api/main.py:113-165 | the definition of one loop iteration: a record without an id changes nothing; otherwise its computer is found or created, refreshed and counted, and when the component request succeeds the computer's components are replaced and counted |
| Sync.SyncAll | python-api/main.py:106-172 | the definition of the sync as the fold of `SyncOne` over the records in order; the lemmas below state its properties |
| Sync.SyncOneKeepsKeys | python-api/main.py:112-137 | one step keeps ids below the counter and GLPI ids unique, removes no computer, and keeps every existing computer's id, GLPI id and maintenance dates |
| Sync.SyncAllCounts | python-api/main.py:112-165 | `computers_synced` is the number of records with an id, and `components_synced` is the number of items GLPI listed for them, counting only successful component requests |
| Sync.SyncAllSkipsRecordsWithoutId | python-api/main.py:113-115 | records without a truthy id change nothing |
| Sync.SyncAllKeepsKeys | python-api/main.py:112-137 | the whole sync keeps keys sound and every pre-existing computer's id, GLPI id and maintenance dates |
| Sync.SyncOneMirrors | python-api/main.py:119-165 | the step for a record leaves its computer holding the record's fields, and its components are those GLPI listed when the request succeeded |
| Sync.SyncOneLeavesOthers | python-api/main.py:119-165 | the step for a record does not touch the computer or the components of another GLPI id |
| Sync.SyncAllLastRecordWins | python-api/main.py:112-165 | when GLPI returns an id more than once, the last record with it decides the local computer's fields and components |
| Sync.SyncAllMirrorsEveryId | python-api/main.py:112-137 | every GLPI id in the records ends up with a local computer |
| Sync.UpsertedKeepsTables | python-api/main.py:119-137 | inserting or updating the computer keeps the database invariant |
| Sync.SyncOneKeepsTables | python-api/main.py:112-166 | one step keeps the database invariant |
| Sync.SyncAllKeepsTables | python-api/main.py:106-176 | the whole sync keeps the database invariant |
| Sync.SyncMessage | python-api/main.py:183 | the definition of the summary message "Sincronizados <c> computadores e <k> componentes" with both counters in decimal |
| Sync.FindComputer | python-api/main.py:120 | the query returns the computer with that GLPI id (unique by the invariant), or None |
| Sync.BuildRows | python-api/main.py:151-165 | the nested loops build exactly the rows of `BuildComponents`, group by group and item by item |
| Sync.ReplaceKeepsTables | python-api/main.py:146-165 | replacing the components of a known computer keeps the database invariant |
| Sync.ReplaceComputerComponents | python-api/main.py:146-165 | the components table becomes the other computers' rows followed by the new rows, the count added is the number of new rows, and nothing else changes |
| Sync.UpsertComputer | python-api/main.py:119-137 | the computer with the GLPI id is found or created under the next id, then refreshed from the record; nothing else changes |
| Sync.SyncRecord | python-api/main.py:112-169 | the loop body computes exactly `SyncOne` on the tables and counters, and keeps the invariant |
| Sync.SyncPage | python-api/main.py:111-169 | the loop over a page extends the fold by that page's records |
| Sync.SyncNextPage | python-api/main.py:107-172 | one pass of the loop requests the page at `start`, syncs its records when it is not empty, and extends the fold by exactly the records fetched; an empty page means `start` was the end, a short page reaches the end |
| Sync.SyncAllPages | python-api/main.py:103-176 | the paging loop stops on an empty or short page after `n / 50 + 1` requests for `n` records, and leaves the tables equal to the fold over all of GLPI's records |
| Sync.SyncGlpiComputers | python-api/main.py:82-189 | the tables end equal to the fold; the counters are the counts of records with an id and of their listed items; the message is "Sincronizados <c> computadores e <k> componentes"; `n / 50 + 1` pages are requested; history and notes are untouched |
| Text.SortStrings | python-api/tools/diagnose_glpi_components.py:29 | `sorted()`: the result is ordered and a permutation of the input |
| Text.RemoveAllAbsent | python-api/main.py:156 | `replace(p, "")` leaves a string without `p` unchanged |
| Text.RemoveAllPrefix | python-api/main.py:156 | `replace(p, "")` drops a leading occurrence of `p` |
| Diagnose.PickedKeys | python-api/tools/diagnose_glpi_components.py:14-19 | the definition of the keys `_pick` copies: each requested key that the dict has, once, at its first request |
| Diagnose.PickedKeysSpec | python-api/tools/diagnose_glpi_components.py:14-19 | the picked keys are exactly the requested keys the dict has, and none is repeated |
| Diagnose.Pick | python-api/tools/diagnose_glpi_components.py:14-19 | the output's keys are the requested keys the dict has, each once, in the order first requested, and each maps to its value in the input |
| Diagnose.IsCandidate | python-api/tools/diagnose_glpi_components.py:23-27 | the definition of a candidate key: lower-cased, it contains one of the six needles or ends in `_id` or `_ids` |
| Diagnose.Candidates | python-api/tools/diagnose_glpi_components.py:24-28 | the definition of the list the loop builds: the candidate keys, in key order |
| Diagnose.CandidateIgnoresCase | python-api/tools/diagnose_glpi_components.py:26-27 | whether a key is a candidate does not depend on its case |
| Diagnose.CandidatesSpec | python-api/tools/diagnose_glpi_components.py:23-28 | a key is kept if and only if it is a candidate; a list without repeats gives candidates without repeats |
| Diagnose.CandidateKeys | python-api/tools/diagnose_glpi_components.py:22-29 | the result is sorted and a permutation of the item's candidate keys; a key appears if and only if the item has it and it is a candidate |
| Diagnose.CandidateKeysUnique | python-api/tools/diagnose_glpi_components.py:22-29 | for a dict, whose keys are unique, the candidate list has no repeats |

## Left out

- The HTTP layer (FastAPI routing, CORS, HTTPException, query validation) is left out. A not-found error is a `NotFound` value whose `Detail` is the 404 message. Query validation for `page >= 1` and `1 <= page_size <= 100` becomes the precondition of `Devices.ListDevices`.
- Pydantic request models are left out. Payloads are the datatypes `MaintenanceCreate`, `MaintenanceUpdate`, `NoteCreate` and `NoteUpdate`.
- SQLAlchemy is left out: sessions, commits, rollbacks and `refresh` are not modelled. The tables are the fields of `Models.Database`. Each handler's effect is stated as the new table values.
- Column defaults and `created_at` are left out. The table definitions (`app/models`) are not part of this model. `updated_at` of a record or note is None until a handler sets it.
- `GlpiClient` (`app/integrations/glpi_client.py`) is not part of this model. Its session handling and network calls are replaced as follows:
  - `Sync.GlpiServer` is a fixed list of computer records, served in ranges;
  - each GLPI id has an optional component listing, where None stands for a request that raises.
- Failure of `init_session` or `get_computers` is left out. So are the outer error handler that records the error and re-raises it, and `kill_session`.
- An item that is not a dict, and so makes the component loop raise halfway through, is left out. Items are always dicts here.
- The sync lock, the background task, `_set_sync_state` and the `_sync_state` dict are left out. They are progress reporting and concurrency; the counters they report are the ones modelled.
- `Maintenance.DaysLater` adds the days as an unbounded integer number of seconds. In the source, `performed_at + timedelta(days=...)` raises OverflowError, an HTTP 500, when the day count exceeds 999999999 in size or the date leaves the range of `datetime`. The model does not capture that error.
- `Maintenance.NextDueOnCreate` always succeeds, so `create_maintenance`'s OverflowError for a far-off due date is not modelled (see `DaysLater`).
- `Maintenance.ApplyUpdate` always succeeds, so `update_maintenance`'s OverflowError for a far-off due date is not modelled (see `DaysLater`).
- Clocks are left out. `datetime.utcnow()` is a `now` parameter, and timestamps are whole seconds.
- `strftime("%Y-%m-%d")` of the device rows is left out. The rows carry the timestamps.
- `Devices.ListDevices` takes one `now` for both the corrective filter and the status of every row. The source reads the clock separately for each.
- `Sync.SyncGlpiComputers` stamps every synced computer with one `now`. The source calls `utcnow()` for each record (main.py:134), so computers synced later have later `updated_at` values and come first in the device list, where in the model they tie.
- `Maintenance.UpdateMaintenance` uses one `now` for the record's `updated_at` and the computer's. The source reads the clock twice (main.py:531 and 538).
- `Sync.GlpiServer` gives the component listing as a function of the GLPI id. Two requests for the same id in one sync therefore return the same listing, or fail alike. `Sync.SyncAllLastRecordWins` relies on that for its component clause; the real server may answer the two requests differently.
- `ilike` is modelled as an ASCII case-insensitive substring test. `%` and `_` in the search term are not treated as SQL wildcards.
- Python's Unicode `lower()` is modelled as ASCII lower-casing. `sorted()` on strings compares characters by code point.
- `str()` of floats is left out, and so is the escaping `repr()` does inside strings. JSON values are None, booleans, integers, strings, lists and dicts.
- `Sync.GlpiIdOf` accepts only a non-zero integer id and skips a record with any other id. In the source, a truthy id that `int()` accepts, such as a numeric string, passes and is stored as given. Any other truthy id, such as a non-numeric string, makes `int(glpi_id)` raise outside the inner `try`, so the outer handler re-raises and the sync aborts: pages committed before stay, and the rest is not synced. The model does not capture that abort.
- `Sync.ComputerName` stores `str(name)`. The source assigns the name value itself and leaves its conversion to the database driver.
- Ties are resolved as follows:
  - `updated_at` ties in `Devices.ListDevices` are broken by the model's own order, and SQL leaves that order unspecified;
  - `Maintenance.FindLatest` may return any record with the greatest performed date;
  - which of several computers with one GLPI id `first()` returns does not arise, since the invariant keeps GLPI ids unique.
- The endpoints that only read one row or a related list are left out. They are the device detail, the component list, the maintenance history list and the note list.
- The health endpoint is left out, and so are the sync-status and webhook endpoints, which only read or start the sync.
- The diagnostic tool's `main()` is left out because it only does network calls and printing.
- `reports_controller.py`, `db_counts.py` and `run_sync.py` are context around the core and are not modelled.
