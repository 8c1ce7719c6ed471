/** The note store of app/db.ts: the `notes` object store, keyed by `id`,
    with a non-unique index on `userId`; `saveNotes` replaces everything a
    user has with the given list inside one transaction, and `loadNotes`
    reads a user's notes through the index. Timestamps are milliseconds. */
module NoteDb {
  import opened Wrappers

  datatype AttachmentKind = Image | Pdf

  datatype Attachment = Attachment(id: string, kind: AttachmentKind, name: string, data: string,
                                   createdAt: int)

  /** `isPinned` and `attachments` are optional in the source. */
  datatype Note = Note(id: string, title: string, content: string, folder: string,
                       tags: seq<string>, createdAt: int, updatedAt: int, userId: string,
                       isPinned: Option<bool>, attachments: Option<seq<Attachment>>)

  const SaveFailed := "Failed to save notes"

  /** The object store's key path: every note sits under its own id. */
  ghost predicate Keyed(table: map<string, Note>) {
    forall k :: k in table ==> table[k].id == k
  }

  /** What the delete phase of `saveNotes` leaves: the notes of other users. */
  function Remaining(table: map<string, Note>, userId: string): (r: map<string, Note>)
    ensures forall k :: k in r <==> k in table && table[k].userId != userId
    ensures forall k :: k in r ==> r[k] == table[k]
  {
    map k | k in table && table[k].userId != userId :: table[k]
  }

  /** `store.add` of each note in turn; an id already present aborts the
      whole transaction. */
  function AddAll(table: map<string, Note>, notes: seq<Note>): Option<map<string, Note>>
    decreases |notes|
  {
    if notes == [] then Some(table)
    else if notes[0].id in table then None
    else AddAll(table[notes[0].id := notes[0]], notes[1..])
  }

  /** The table a successful `saveNotes(notes, userId)` commits, or `None`
      when the transaction aborts. */
  function SaveResult(table: map<string, Note>, notes: seq<Note>, userId: string): Option<map<string, Note>> {
    AddAll(Remaining(table, userId), notes)
  }

  /** The notes held for `userId`, as `userIndex.getAll(userId)` finds them. */
  function NotesOf(table: map<string, Note>, userId: string): (r: set<Note>)
    ensures forall n :: n in r <==> n in table.Values && n.userId == userId
  {
    set k | k in table && table[k].userId == userId :: table[k]
  }

  ghost predicate DistinctIds(notes: seq<Note>) {
    forall i, j :: 0 <= i < j < |notes| ==> notes[i].id != notes[j].id
  }

  ghost predicate IdIn(notes: seq<Note>, id: string) {
    exists i :: 0 <= i < |notes| && notes[i].id == id
  }

  /** `AddAll` succeeds exactly when the ids are distinct and none is taken
      already. */
  lemma {:induction false} AddAllSucceedsIff(table: map<string, Note>, notes: seq<Note>)
    ensures AddAll(table, notes).Some? <==>
      DistinctIds(notes) && forall i :: 0 <= i < |notes| ==> notes[i].id !in table
    decreases |notes|
  {
    if notes != [] {
      var n := notes[0];
      var rest := notes[1..];
      var next := table[n.id := n];
      AddAllSucceedsIff(next, rest);
      assert forall i :: 0 < i < |notes| ==> notes[i] == rest[i - 1];
      if AddAll(table, notes).Some? {
        assert forall i :: 0 <= i < |rest| ==> rest[i].id != n.id;
      }
      if DistinctIds(notes) && forall i :: 0 <= i < |notes| ==> notes[i].id !in table {
        assert forall i :: 0 <= i < |rest| ==> rest[i].id !in next by {
          forall i | 0 <= i < |rest| ensures rest[i].id !in next {
            assert rest[i] == notes[i + 1];
          }
        }
      }
    }
  }

  /** A successful `AddAll` keeps what the table held and adds every note of
      the list under its id. */
  lemma {:induction false} AddAllAdds(table: map<string, Note>, notes: seq<Note>)
    requires AddAll(table, notes).Some?
    ensures var r := AddAll(table, notes).value;
      && (forall k :: k in r <==> k in table || IdIn(notes, k))
      && (forall k :: k in table ==> r[k] == table[k])
      && (forall i :: 0 <= i < |notes| ==> r[notes[i].id] == notes[i])
    decreases |notes|
  {
    if notes != [] {
      var n := notes[0];
      var rest := notes[1..];
      var next := table[n.id := n];
      AddAllAdds(next, rest);
      assert forall i :: 0 < i < |notes| ==> notes[i] == rest[i - 1];
      assert forall k :: IdIn(notes, k) <==> k == n.id || IdIn(rest, k) by {
        forall k | IdIn(notes, k) && k != n.id ensures IdIn(rest, k) {
          var i :| 0 <= i < |notes| && notes[i].id == k;
          assert rest[i - 1].id == k;
        }
        forall k | IdIn(rest, k) ensures IdIn(notes, k) {
          var i :| 0 <= i < |rest| && rest[i].id == k;
          assert notes[i + 1].id == k;
        }
      }
    }
  }

  /** A save commits exactly when the ids in the list are distinct and none of
      them belongs to a note of another user. */
  lemma SaveSucceedsIff(table: map<string, Note>, notes: seq<Note>, userId: string)
    requires Keyed(table)
    ensures SaveResult(table, notes, userId).Some? <==>
      && DistinctIds(notes)
      && forall i :: 0 <= i < |notes| ==> notes[i].id !in table || table[notes[i].id].userId == userId
  {
    AddAllSucceedsIff(Remaining(table, userId), notes);
  }

  /** A committed save holds the other users' notes as they were plus every
      note of the list under its id, stored as given (its `userId` is not
      rewritten). */
  lemma SaveContents(table: map<string, Note>, notes: seq<Note>, userId: string)
    requires SaveResult(table, notes, userId).Some?
    ensures DistinctIds(notes)
    ensures var t := SaveResult(table, notes, userId).value;
      && (forall k :: k in t <==> (k in table && table[k].userId != userId) || IdIn(notes, k))
      && (forall k :: k in table && table[k].userId != userId ==> t[k] == table[k])
      && (forall i :: 0 <= i < |notes| ==> t[notes[i].id] == notes[i])
  {
    AddAllSucceedsIff(Remaining(table, userId), notes);
    AddAllAdds(Remaining(table, userId), notes);
  }

  /** A save keeps the table keyed by id. */
  lemma SaveKeepsKeyed(table: map<string, Note>, notes: seq<Note>, userId: string)
    requires Keyed(table) && SaveResult(table, notes, userId).Some?
    ensures Keyed(SaveResult(table, notes, userId).value)
  {
    SaveContents(table, notes, userId);
    AddAllAdds(Remaining(table, userId), notes);
  }

  /** After saving a list whose notes all belong to `userId`, loading that
      user returns exactly the notes of the list. */
  lemma LoadAfterSave(table: map<string, Note>, notes: seq<Note>, userId: string)
    requires SaveResult(table, notes, userId).Some?
    requires forall i :: 0 <= i < |notes| ==> notes[i].userId == userId
    ensures NotesOf(SaveResult(table, notes, userId).value, userId) == set n | n in notes
  {
    var t := SaveResult(table, notes, userId).value;
    SaveContents(table, notes, userId);
    forall n | n in notes ensures n in NotesOf(t, userId) {
      var i :| 0 <= i < |notes| && notes[i] == n;
      assert t[n.id] == n;
    }
    forall n | n in NotesOf(t, userId) ensures n in notes {
      var k :| k in t && t[k] == n;
      var i :| 0 <= i < |notes| && notes[i].id == k;
    }
  }

  /** Saving an empty list deletes all of the user's notes. */
  lemma SaveEmptyClearsUser(table: map<string, Note>, userId: string)
    ensures SaveResult(table, [], userId).Some?
    ensures NotesOf(SaveResult(table, [], userId).value, userId) == {}
  {
    assert SaveResult(table, [], userId) == Some(Remaining(table, userId));
  }

  /** A note of another user slipped into the list is stored but is not
      loaded back for `userId`. */
  lemma ForeignNoteStoredButNotLoaded(table: map<string, Note>, notes: seq<Note>, userId: string, i: int)
    requires SaveResult(table, notes, userId).Some?
    requires 0 <= i < |notes| && notes[i].userId != userId
    ensures var t := SaveResult(table, notes, userId).value;
      notes[i].id in t && t[notes[i].id] == notes[i] && notes[i] !in NotesOf(t, userId)
  {
    SaveContents(table, notes, userId);
  }

  /** Saving the same list of the user's own notes twice is the same as
      saving it once. */
  lemma SaveIdempotent(table: map<string, Note>, notes: seq<Note>, userId: string)
    requires SaveResult(table, notes, userId).Some?
    requires forall i :: 0 <= i < |notes| ==> notes[i].userId == userId
    ensures var t := SaveResult(table, notes, userId).value;
      SaveResult(t, notes, userId) == Some(t)
  {
    var t := SaveResult(table, notes, userId).value;
    SaveContents(table, notes, userId);
    AddAllAdds(Remaining(table, userId), notes);
    assert Remaining(t, userId) == Remaining(table, userId);
  }

  /** The `notes` object store. */
  class NoteStore {
    var table: map<string, Note>

    ghost predicate Valid()
      reads this
    {
      Keyed(table)
    }

    constructor ()
      ensures Valid() && table == map[]
    {
      table := map[];
    }

    /** `saveNotes`: walk the `userId` index deleting each match, then `add`
        each note; a clashing id aborts and rolls the transaction back. */
    method Save(notes: seq<Note>, userId: string) returns (r: Result<(), string>)
      requires Valid()
      modifies this
      ensures Valid()
      ensures SaveResult(old(table), notes, userId).Some? ==>
        r == Ok(()) && table == SaveResult(old(table), notes, userId).value
      ensures SaveResult(old(table), notes, userId).None? ==>
        r == Err(SaveFailed) && table == old(table)
    {
      var snapshot := table;
      var target := SaveResult(snapshot, notes, userId);
      if target.Some? {
        SaveKeepsKeyed(snapshot, notes, userId);
      }
      // the key cursor over userIndex.openKeyCursor(userId)
      var cursor := set k | k in table && table[k].userId == userId;
      while cursor != {}
        invariant cursor <= table.Keys
        invariant table == map k | k in snapshot && (snapshot[k].userId != userId || k in cursor) :: snapshot[k]
        decreases cursor
      {
        var key :| key in cursor;
        table := table - {key};    // store.delete(cursor.primaryKey)
        cursor := cursor - {key};  // cursor.continue()
      }
      assert table == Remaining(snapshot, userId);
      var i := 0;
      while i < |notes|
        invariant 0 <= i <= |notes|
        invariant AddAll(table, notes[i..]) == target
      {
        assert notes[i..][1..] == notes[i + 1..];
        if notes[i].id in table {
          table := snapshot;
          return Err(SaveFailed);
        }
        table := table[notes[i].id := notes[i]];  // store.add(note)
        i := i + 1;
      }
      return Ok(());
    }

    /** `loadNotes`: a read-only lookup through the `userId` index. */
    function Load(userId: string): (r: set<Note>)
      reads this
      ensures forall n :: n in r <==> n in table.Values && n.userId == userId
    {
      NotesOf(table, userId)
    }
  }
}
