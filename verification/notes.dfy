/**
 * The note handlers. A note is addressed by its own id together with the id
 * of the device it belongs to; a note of another device is not found.
 */
module Notes {
  import opened Wrappers
  import opened Models

  /** The body of a create request. */
  datatype NoteCreate = NoteCreate(author: string, content: string)

  /** The body of an update request: a field that is None is left as it is. */
  datatype NoteUpdate = NoteUpdate(author: Option<string>, content: Option<string>)

  /** The filter `ComputerNote.id == note_id, ComputerNote.computer_id == device_id` finds a note. */
  predicate NoteMatches(ns: map<int, Note>, deviceId: int, noteId: int) {
    noteId in ns && ns[noteId].computerId == deviceId
  }

  /** A note after an update request at time `now`. */
  function ApplyNoteUpdate(n: Note, p: NoteUpdate, now: Timestamp): (r: Note)
    ensures r.id == n.id && r.computerId == n.computerId
    ensures r.author == if p.author.Some? then p.author.value else n.author
    ensures r.content == if p.content.Some? then p.content.value else n.content
    ensures r.updatedAt == Some(now)
  {
    var n1 := if p.author.Some? then n.(author := p.author.value) else n;
    var n2 := if p.content.Some? then n1.(content := p.content.value) else n1;
    n2.(updatedAt := Some(now))
  }

  /** Only the supplied fields change: an update with no field only stamps the time. */
  lemma EmptyNoteUpdateStampsOnly(n: Note, now: Timestamp)
    ensures ApplyNoteUpdate(n, NoteUpdate(None, None), now) == n.(updatedAt := Some(now))
  {
  }

  /** `create_device_note`: an unknown device is a not-found error; otherwise the note is inserted. */
  method CreateDeviceNote(db: Database, deviceId: int, note: NoteCreate) returns (r: Result<Note, NotFound>)
    requires db.Valid()
    modifies db
    ensures db.Valid()
    ensures deviceId !in old(db.computers) ==> r == Err(DeviceNotFound) && unchanged(db)
    ensures deviceId in old(db.computers) ==>
      && r == Ok(Note(old(db.nextNoteId), deviceId, note.author, note.content, None))
      && db.notes == old(db.notes)[r.value.id := r.value]
      && db.nextNoteId == old(db.nextNoteId) + 1
    ensures db.computers == old(db.computers) && db.history == old(db.history)
    ensures db.components == old(db.components)
    ensures db.nextComputerId == old(db.nextComputerId) && db.nextMaintenanceId == old(db.nextMaintenanceId)
  {
    if deviceId !in db.computers {
      return Err(DeviceNotFound);
    }
    var record := Note(db.nextNoteId, deviceId, note.author, note.content, None);
    db.notes := db.notes[record.id := record];
    db.nextNoteId := db.nextNoteId + 1;
    return Ok(record);
  }

  /**
   * `update_device_note`: only the note matching both ids changes, and only
   * in the fields the payload supplies; otherwise a not-found error.
   */
  method UpdateDeviceNote(db: Database, deviceId: int, noteId: int, p: NoteUpdate, now: Timestamp)
    returns (r: Result<Note, NotFound>)
    requires db.Valid()
    modifies db
    ensures db.Valid()
    ensures !NoteMatches(old(db.notes), deviceId, noteId) ==> r == Err(NoteNotFound) && unchanged(db)
    ensures NoteMatches(old(db.notes), deviceId, noteId) ==>
      && r == Ok(ApplyNoteUpdate(old(db.notes)[noteId], p, now))
      && db.notes == old(db.notes)[noteId := r.value]
    ensures db.computers == old(db.computers) && db.history == old(db.history)
    ensures db.components == old(db.components)
    ensures db.nextComputerId == old(db.nextComputerId) && db.nextMaintenanceId == old(db.nextMaintenanceId)
    ensures db.nextNoteId == old(db.nextNoteId)
  {
    if !(noteId in db.notes && db.notes[noteId].computerId == deviceId) {
      return Err(NoteNotFound);
    }
    var note := db.notes[noteId];
    if p.author.Some? {
      note := note.(author := p.author.value);
    }
    if p.content.Some? {
      note := note.(content := p.content.value);
    }
    note := note.(updatedAt := Some(now));
    db.notes := db.notes[noteId := note];
    return Ok(note);
  }

  /**
   * `delete_device_note`: exactly the note matching both ids is removed and
   * every other note stays as it was; otherwise a not-found error.
   */
  method DeleteDeviceNote(db: Database, deviceId: int, noteId: int) returns (r: Result<(), NotFound>)
    requires db.Valid()
    modifies db
    ensures db.Valid()
    ensures !NoteMatches(old(db.notes), deviceId, noteId) ==> r == Err(NoteNotFound) && unchanged(db)
    ensures NoteMatches(old(db.notes), deviceId, noteId) ==>
      r == Ok(()) && db.notes == old(db.notes) - {noteId}
    ensures db.computers == old(db.computers) && db.history == old(db.history)
    ensures db.components == old(db.components)
    ensures db.nextComputerId == old(db.nextComputerId) && db.nextMaintenanceId == old(db.nextMaintenanceId)
    ensures db.nextNoteId == old(db.nextNoteId)
  {
    if !(noteId in db.notes && db.notes[noteId].computerId == deviceId) {
      return Err(NoteNotFound);
    }
    db.notes := db.notes - {noteId};
    return Ok(());
  }
}
