/** The note list logic of the page component in app/page.tsx: which notes
    the sidebar shows and in what order, the counters, the export selection,
    and the handlers that rewrite the in-memory list and hand it to the note
    store. The component's state is the class `Home`. */
module NotesPage {
  import opened Wrappers
  import opened Seqs
  import opened JsText
  import opened NoteDb
  import Auth

  const DefaultFolder := "Personal"
  const DefaultTitle := "Untitled Note"

  // ---------------------------------------------------------------------------
  // filteredNotes

  /** `!selectedFolder`: no folder, or the empty string, which is falsy. */
  predicate NoFolder(folder: Option<string>) {
    folder.None? || folder.value == ""
  }

  predicate InFolder(n: Note, folder: Option<string>) {
    NoFolder(folder) || n.folder == folder.value
  }

  predicate MatchesQuery(n: Note, query: string) {
    || query == ""
    || Includes(ToLower(n.title), ToLower(query))
    || Includes(ToLower(n.content), ToLower(query))
  }

  /** `filteredNotes`: the folder filter, then the search filter. */
  function FilteredNotes(notes: seq<Note>, folder: Option<string>, query: string): (r: seq<Note>)
    ensures forall n :: n in r <==> n in notes && InFolder(n, folder) && MatchesQuery(n, query)
  {
    Filter(n => MatchesQuery(n, query), Filter(n => InFolder(n, folder), notes))
  }

  /** The filter keeps notes one by one and in their order: a single note is
      kept iff it passes both tests, and a concatenation is filtered piecewise. */
  lemma FilteredNotesKeepsOrder(a: seq<Note>, b: seq<Note>, folder: Option<string>, query: string)
    ensures FilteredNotes(a + b, folder, query) == FilteredNotes(a, folder, query) + FilteredNotes(b, folder, query)
    ensures forall n: Note ::
      FilteredNotes([n], folder, query) == (if InFolder(n, folder) && MatchesQuery(n, query) then [n] else [])
  {
    FilterAppend(n => InFolder(n, folder), a, b);
    FilterAppend(n => MatchesQuery(n, query), Filter(n => InFolder(n, folder), a),
                 Filter(n => InFolder(n, folder), b));
  }

  /** The two filters in a row are one filter by both tests. */
  lemma FilteredNotesOneFilter(notes: seq<Note>, folder: Option<string>, query: string)
    ensures FilteredNotes(notes, folder, query) ==
      Filter((n: Note) => InFolder(n, folder) && MatchesQuery(n, query), notes)
  {
    FilterFilter(n => InFolder(n, folder), n => MatchesQuery(n, query),
                 (n: Note) => InFolder(n, folder) && MatchesQuery(n, query), notes);
  }

  /** The search is case-insensitive: lower-casing the query does not change
      which notes match it. */
  lemma MatchesQueryIgnoresCase(n: Note, query: string)
    ensures MatchesQuery(n, query) == MatchesQuery(n, ToLower(query))
  {
    ToLowerIdempotent(query);
    assert query == "" <==> ToLower(query) == "";
  }

  // ---------------------------------------------------------------------------
  // sortedNotes

  /** `note.isPinned` is truthy; an absent flag counts as unpinned. */
  predicate Pinned(n: Note) {
    n.isPinned == Some(true)
  }

  /** The comparator handed to `sort`. */
  function Compare(a: Note, b: Note): int {
    if Pinned(a) && !Pinned(b) then -1
    else if !Pinned(a) && Pinned(b) then 1
    else b.updatedAt - a.updatedAt
  }

  /** `a` may stay ahead of `b`: the comparator does not ask to swap them. */
  predicate Precedes(a: Note, b: Note) {
    Compare(a, b) <= 0
  }

  /** The comparator is a total preorder, so a sort with it is well defined. */
  lemma PrecedesTotalPreorder(a: Note, b: Note, c: Note)
    ensures Precedes(a, b) || Precedes(b, a)
    ensures Precedes(a, b) && Precedes(b, c) ==> Precedes(a, c)
  {
  }

  ghost predicate Ordered(s: seq<Note>) {
    forall i, j :: 0 <= i < j < |s| ==> Precedes(s[i], s[j])
  }

  lemma PrependOrdered(x: Note, s: seq<Note>)
    requires Ordered(s)
    requires forall y :: y in s ==> Precedes(x, y)
    ensures Ordered([x] + s)
  {
    var r := [x] + s;
    forall i, j | 0 <= i < j < |r| ensures Precedes(r[i], r[j]) {
      if i == 0 {
        assert r[j] == s[j - 1];
      } else {
        assert r[i] == s[i - 1] && r[j] == s[j - 1];
      }
    }
  }

  lemma InsertAtFront(x: Note, s: seq<Note>)
    requires Ordered(s)
    requires s == [] || Precedes(x, s[0])
    ensures Ordered([x] + s)
  {
    forall y | y in s ensures Precedes(x, y) {
      var j :| 0 <= j < |s| && s[j] == y;
      PrecedesTotalPreorder(x, s[0], y);
    }
    PrependOrdered(x, s);
  }

  lemma InsertBehind(x: Note, s: seq<Note>, rest: seq<Note>)
    requires Ordered(s) && s != [] && !Precedes(x, s[0])
    requires Ordered(rest) && multiset(rest) == multiset(s[1..]) + multiset{x}
    ensures Ordered([s[0]] + rest)
  {
    forall y | y in rest ensures Precedes(s[0], y) {
      assert y in multiset(rest);
      if y != x {
        assert y in s[1..];
        var j :| 0 <= j < |s[1..]| && s[1..][j] == y;
        assert s[j + 1] == y;
      } else {
        PrecedesTotalPreorder(x, s[0], x);
      }
    }
    PrependOrdered(s[0], rest);
  }

  /** Inserts `x` before the first element it does not sort after. */
  function Insert(x: Note, s: seq<Note>): (r: seq<Note>)
    requires Ordered(s)
    ensures multiset(r) == multiset(s) + multiset{x}
    ensures Ordered(r)
  {
    if s == [] || Precedes(x, s[0]) then
      InsertAtFront(x, s);
      [x] + s
    else
      var rest := Insert(x, s[1..]);
      InsertBehind(x, s, rest);
      assert s == [s[0]] + s[1..];
      [s[0]] + rest
  }

  /** What the comparator's order means for the list. */
  lemma OrderedMeaning(r: seq<Note>)
    requires Ordered(r)
    ensures forall i, j :: 0 <= i < j < |r| && Pinned(r[j]) ==> Pinned(r[i])
    ensures forall i, j :: 0 <= i < j < |r| && Pinned(r[i]) == Pinned(r[j]) ==>
      r[i].updatedAt >= r[j].updatedAt
  {
    forall i, j | 0 <= i < j < |r| ensures Precedes(r[i], r[j]) {
    }
  }

  /** `sortedNotes`: a stable sort with the comparator (insertion sort, which
      gives the same order as any stable sort with it). The result is a
      permutation in which every pinned note comes before every unpinned one,
      and notes with the same pin status are newest first. */
  function SortedNotes(s: seq<Note>): (r: seq<Note>)
    ensures multiset(r) == multiset(s)
    ensures Ordered(r)
    ensures forall i, j :: 0 <= i < j < |r| && Pinned(r[j]) ==> Pinned(r[i])
    ensures forall i, j :: 0 <= i < j < |r| && Pinned(r[i]) == Pinned(r[j]) ==>
      r[i].updatedAt >= r[j].updatedAt
  {
    if s == [] then []
    else
      var r := Insert(s[0], SortedNotes(s[1..]));
      assert s == [s[0]] + s[1..];
      OrderedMeaning(r);
      r
  }

  /** The notes that tie with `a` under the comparator. */
  function TiedWith(s: seq<Note>, a: Note): seq<Note> {
    Filter(n => Compare(n, a) == 0, s)
  }

  lemma {:induction false} InsertStable(x: Note, s: seq<Note>, a: Note)
    requires Ordered(s)
    ensures TiedWith(Insert(x, s), a) == (if Compare(x, a) == 0 then [x] else []) + TiedWith(s, a)
  {
    if s != [] && !Precedes(x, s[0]) {
      InsertStable(x, s[1..], a);
      assert Insert(x, s) == [s[0]] + Insert(x, s[1..]);
      assert Compare(x, a) == 0 ==> Compare(s[0], a) != 0;
    }
  }

  /** The sort is stable: notes that tie keep their relative order. */
  lemma {:induction false} SortedNotesStable(s: seq<Note>, a: Note)
    ensures TiedWith(SortedNotes(s), a) == TiedWith(s, a)
  {
    if s != [] {
      SortedNotesStable(s[1..], a);
      InsertStable(s[0], SortedNotes(s[1..]), a);
    }
  }

  // ---------------------------------------------------------------------------
  // getWordCount, getCharacterCount, getFolderNoteCount, the export selection

  /** `getWordCount`: the number of maximal runs of non-whitespace
      characters, which is zero exactly when the trimmed text is empty. */
  function WordCount(text: string): (r: nat)
    ensures r == Runs(text)
    ensures r == 0 <==> Trim(text) == ""
  {
    var t := Trim(text);
    TrimKeepsRuns(text);
    if t != "" then
      SplitCountsRuns(t);
      |SplitOnSpaceRuns(t)|
    else
      RunsAllSpace(text);
      0
  }

  /** `getCharacterCount`. */
  function CharacterCount(text: string): nat {
    |text|
  }

  lemma {:induction false} RunsAtMostLength(s: string)
    ensures Runs(s) <= |s|
  {
    if s != [] {
      RunsAtMostLength(s[1..]);
    }
  }

  /** A text never has more words than characters. */
  lemma WordsFitInCharacters(text: string)
    ensures WordCount(text) <= CharacterCount(text)
  {
    RunsAtMostLength(text);
  }

  /** `getFolderNoteCount`. */
  function FolderNoteCount(notes: seq<Note>, folder: string): nat {
    |Filter((n: Note) => n.folder == folder, notes)|
  }

  /** `notesToExport` in `exportNotes`: the selected folder's notes, or all. */
  function ExportList(notes: seq<Note>, folder: Option<string>): (r: seq<Note>)
    ensures forall n :: n in r <==> n in notes && InFolder(n, folder)
  {
    if NoFolder(folder) then notes else Filter((n: Note) => n.folder == folder.value, notes)
  }

  /** The export holds exactly what the sidebar lists (before sorting) with
      an empty search box, and for a folder the sidebar count is its length. */
  lemma ExportMatchesView(notes: seq<Note>, folder: Option<string>)
    ensures ExportList(notes, folder) == FilteredNotes(notes, folder, "")
    ensures !NoFolder(folder) ==> FolderNoteCount(notes, folder.value) == |ExportList(notes, folder)|
  {
    var inFolder := Filter(n => InFolder(n, folder), notes);
    FilterKeepsAll(n => MatchesQuery(n, ""), inFolder);
    if NoFolder(folder) {
      FilterKeepsAll(n => InFolder(n, folder), notes);
    } else {
      FilterAgree(n => InFolder(n, folder), (n: Note) => n.folder == folder.value, notes);
    }
  }

  /** Every note is counted in its own folder and in no other. */
  lemma FolderCountSplit(notes: seq<Note>, folder: string)
    ensures FolderNoteCount(notes, folder) + |Filter((n: Note) => n.folder != folder, notes)| == |notes|
  {
    FilterPartition((n: Note) => n.folder == folder, (n: Note) => n.folder != folder, notes);
  }

  // ---------------------------------------------------------------------------
  // The list updates of the handlers

  /** The note `createNote` prepends. */
  function NewNote(id: string, now: int, folder: Option<string>, userId: string): Note {
    Note(id, DefaultTitle, "", if NoFolder(folder) then DefaultFolder else folder.value, [],
         now, now, userId, Some(false), Some([]))
  }

  /** The note `createNote` adds passes the view's folder filter and an empty
      search, and counts once more in its own folder. */
  lemma NewNoteShown(notes: seq<Note>, id: string, now: int, folder: Option<string>, userId: string)
    ensures var n := NewNote(id, now, folder, userId);
      && n in FilteredNotes([n] + notes, folder, "")
      && FolderNoteCount([n] + notes, n.folder) == FolderNoteCount(notes, n.folder) + 1
  {
    var n := NewNote(id, now, folder, userId);
    FilterAppend((m: Note) => m.folder == n.folder, [n], notes);
  }

  /** The list `updateNote` sets: every note with the given note's id is
      replaced by it, and nothing else changes. */
  function ReplaceById(notes: seq<Note>, note: Note): (r: seq<Note>)
    ensures |r| == |notes|
    ensures forall i :: 0 <= i < |notes| && notes[i].id != note.id ==> r[i] == notes[i]
    ensures forall i :: 0 <= i < |notes| && notes[i].id == note.id ==> r[i] == note
  {
    if notes == [] then []
    else [if notes[0].id == note.id then note else notes[0]] + ReplaceById(notes[1..], note)
  }

  /** Replacing twice with the same note is replacing once, and the ids in
      the list stay as they were. */
  lemma ReplaceByIdIdempotent(notes: seq<Note>, note: Note)
    ensures ReplaceById(ReplaceById(notes, note), note) == ReplaceById(notes, note)
    ensures forall i :: 0 <= i < |notes| ==> ReplaceById(notes, note)[i].id == notes[i].id
  {
  }

  /** The list `deleteNote` sets: the notes whose id differs. */
  function RemoveById(notes: seq<Note>, id: string): (r: seq<Note>)
    ensures forall n :: n in r <==> n in notes && n.id != id
  {
    Filter((n: Note) => n.id != id, notes)
  }

  /** Deleting keeps the other notes in their order and drops as many notes
      as carry the id. */
  lemma RemoveByIdCount(notes: seq<Note>, id: string)
    ensures |RemoveById(notes, id)| + |Filter((n: Note) => n.id == id, notes)| == |notes|
    ensures forall a, b :: RemoveById(a + b, id) == RemoveById(a, id) + RemoveById(b, id)
  {
    FilterPartition((n: Note) => n.id == id, (n: Note) => n.id != id, notes);
    forall a, b ensures RemoveById(a + b, id) == RemoveById(a, id) + RemoveById(b, id) {
      FilterAppend((n: Note) => n.id != id, a, b);
    }
  }

  /** The selection after `deleteNote`: the first remaining note, or none, when
      the selected note was the one deleted. */
  function SelectionAfterDelete(remaining: seq<Note>, selected: Option<Note>, id: string): Option<Note> {
    if selected.Some? && selected.value.id == id then
      if |remaining| > 0 then Some(remaining[0]) else None
    else selected
  }

  /** The note with its pin flag negated; an absent flag becomes `true`. */
  function FlipPin(n: Note): Note {
    n.(isPinned := Some(!Pinned(n)))
  }

  /** The list `togglePin` sets: the notes with that id get the negated pin
      flag, the others stay as they are. */
  function TogglePinned(notes: seq<Note>, id: string): (r: seq<Note>)
    ensures |r| == |notes|
    ensures forall i :: 0 <= i < |notes| ==> r[i] == notes[i].(isPinned := r[i].isPinned)
    ensures forall i :: 0 <= i < |notes| && notes[i].id == id ==> r[i].isPinned == Some(!Pinned(notes[i]))
    ensures forall i :: 0 <= i < |notes| && notes[i].id != id ==> r[i] == notes[i]
  {
    if notes == [] then []
    else
      var head := if notes[0].id == id then FlipPin(notes[0]) else notes[0];
      var rest := TogglePinned(notes[1..], id);
      assert forall i :: 0 < i < |notes| ==> notes[i] == notes[1..][i - 1] && ([head] + rest)[i] == rest[i - 1];
      [head] + rest
  }

  /** Toggling twice restores every note's pin status. */
  lemma TogglePinnedTwice(notes: seq<Note>, id: string)
    ensures var r := TogglePinned(TogglePinned(notes, id), id);
      forall i :: 0 <= i < |r| ==> Pinned(r[i]) == Pinned(notes[i])
  {
    var twice := TogglePinned(TogglePinned(notes, id), id);
    forall i | 0 <= i < |twice| ensures Pinned(twice[i]) == Pinned(notes[i]) {
      ToggledTwiceAt(notes, id, i);
    }
  }

  /** Toggling twice restores the list itself when the toggled notes carry an
      explicit flag. */
  lemma TogglePinnedInvolution(notes: seq<Note>, id: string)
    requires forall i :: 0 <= i < |notes| && notes[i].id == id ==> notes[i].isPinned.Some?
    ensures TogglePinned(TogglePinned(notes, id), id) == notes
  {
    var twice := TogglePinned(TogglePinned(notes, id), id);
    forall i | 0 <= i < |notes| ensures twice[i] == notes[i] {
      ToggledTwiceAt(notes, id, i);
      if notes[i].id == id {
        var n := notes[i];
        assert n.isPinned.Some?;
        if n.isPinned.value {
          assert Pinned(n);
        } else {
          assert n.isPinned == Some(false);
        }
        assert n.(isPinned := n.isPinned) == n;
      }
    }
  }

  lemma ToggledTwiceAt(notes: seq<Note>, id: string, i: int)
    requires 0 <= i < |notes|
    ensures TogglePinned(TogglePinned(notes, id), id)[i] ==
      notes[i].(isPinned := if notes[i].id == id then Some(Pinned(notes[i])) else notes[i].isPinned)
  {
    var once := TogglePinned(notes, id);
    var n, m := notes[i], once[i];
    assert m == n.(isPinned := m.isPinned);
    if n.id == id {
      assert m.isPinned == Some(!Pinned(n));
    }
  }

  /** The selected note after `removeAttachment`: the attachments with that
      id are dropped, the others kept in order, and `updatedAt` is set. */
  /** The test `a => a.id !== attachmentId` of the attachment filter. */
  function OtherThan(attachmentId: string): Attachment -> bool {
    (a: Attachment) => a.id != attachmentId
  }

  function WithoutAttachment(note: Note, attachmentId: string, now: int): (r: Note)
    ensures r == note.(attachments := r.attachments, updatedAt := now)
    ensures r.attachments.Some?
    ensures forall a :: a in r.attachments.value <==> a in note.attachments.GetOr([]) && a.id != attachmentId
  {
    note.(attachments := Some(Filter(OtherThan(attachmentId), note.attachments.GetOr([]))),
          updatedAt := now)
  }

  /** The attachment `handleAttachment` builds from a read file: an image
      when the MIME type starts with "image/", a PDF otherwise. */
  function NewAttachment(id: string, mimeType: string, name: string, data: string, now: int): (r: Attachment)
    ensures r.kind == Image <==> |mimeType| >= 6 && mimeType[..6] == "image/"
    ensures r.id == id && r.name == name && r.data == data && r.createdAt == now
  {
    Attachment(id, if "image/" <= mimeType then Image else Pdf, name, data, now)
  }

  /** The selected note after `handleAttachment`: the attachment is appended
      to the existing ones (none counts as empty) and `updatedAt` is set. */
  function WithAttachment(note: Note, attachment: Attachment, now: int): (r: Note)
    ensures r == note.(attachments := r.attachments, updatedAt := now)
    ensures r.attachments.Some? && |r.attachments.value| == |note.attachments.GetOr([])| + 1
    ensures r.attachments.value[..|r.attachments.value| - 1] == note.attachments.GetOr([])
    ensures r.attachments.value[|r.attachments.value| - 1] == attachment
  {
    var existing := note.attachments.GetOr([]);
    var added := existing + [attachment];
    assert added[..|added| - 1] == existing;
    note.(attachments := Some(added), updatedAt := now)
  }

  /** Removing an attachment just added undoes the addition, apart from the
      timestamps and an absent list becoming an empty one. */
  lemma RemoveUndoesAdd(note: Note, attachment: Attachment, t1: int, t2: int)
    ensures WithoutAttachment(WithAttachment(note, attachment, t1), attachment.id, t2)
         == WithoutAttachment(note, attachment.id, t2)
  {
    var keep := OtherThan(attachment.id);
    var before := note.attachments.GetOr([]);
    FilterAppend(keep, before, [attachment]);
    assert [attachment][1..] == [];
    assert Filter(keep, [attachment]) == [];
    assert Filter(keep, before + [attachment]) == Filter(keep, before);
    var added := WithAttachment(note, attachment, t1);
    assert added.attachments.GetOr([]) == before + [attachment];
    assert WithoutAttachment(added, attachment.id, t2).attachments == WithoutAttachment(note, attachment.id, t2).attachments;
  }

  // ---------------------------------------------------------------------------
  // The stale selection after togglePin

  /** `updateNote` after an edit of the selected note (its title here), as the
      autosave runs it. */
  function SaveEdit(notes: seq<Note>, selected: Note, title: string, now: int): seq<Note> {
    ReplaceById(notes, selected.(title := title).(updatedAt := now))
  }

  /** As written, `togglePin` leaves the selected note as it was, so the next
      autosave of an edit to it writes the old pin status back. */
  lemma PinLostAfterEdit(notes: seq<Note>, i: int, title: string, now: int)
    requires 0 <= i < |notes|
    ensures var toggled := TogglePinned(notes, notes[i].id);
      var saved := SaveEdit(toggled, notes[i], title, now);
      Pinned(toggled[i]) != Pinned(notes[i]) && Pinned(saved[i]) == Pinned(notes[i])
  {
  }

  /** The same, on one note: pinned by the click, unpinned again by the edit. */
  lemma PinLostExample()
    ensures var n := Note("n1", "t", "", "Personal", [], 0, 0, "u1", Some(false), Some([]));
      var toggled := TogglePinned([n], "n1");
      Pinned(toggled[0]) && !Pinned(SaveEdit(toggled, n, "t2", 1)[0])
  {
    var n := Note("n1", "t", "", "Personal", [], 0, 0, "u1", Some(false), Some([]));
    assert TogglePinned([n], "n1")[0] == FlipPin(n);
  }

  /** The selection as `togglePin` evidently means to leave it: flipped too
      when it is the toggled note. */
  function SelectionAfterToggle(selected: Option<Note>, id: string): Option<Note> {
    if selected.Some? && selected.value.id == id then Some(FlipPin(selected.value)) else selected
  }

  /** With the selection flipped along with the list, the next autosave keeps
      the new pin status. */
  lemma PinKeptAfterEdit(notes: seq<Note>, i: int, title: string, now: int)
    requires 0 <= i < |notes|
    ensures var id := notes[i].id;
      var toggled := TogglePinned(notes, id);
      var selected := SelectionAfterToggle(Some(notes[i]), id).value;
      Pinned(SaveEdit(toggled, selected, title, now)[i]) == Pinned(toggled[i]) != Pinned(notes[i])
  {
  }

  // ---------------------------------------------------------------------------
  // The component

  /** The table after `saveNotes` ran: the committed table, or the old one
      when the transaction aborted (the handlers only log that). */
  function Persisted(table: map<string, Note>, notes: seq<Note>, userId: string): map<string, Note> {
    match SaveResult(table, notes, userId)
    case Some(t) => t
    case None => table
  }

  ghost predicate OwnedBy(notes: seq<Note>, userId: string) {
    forall i :: 0 <= i < |notes| ==> notes[i].userId == userId
  }

  /** The state of the `Home` component that the note logic touches, and the
      two stores it talks to. */
  class Home {
    var notes: seq<Note>
    var selectedNote: Option<Note>
    var selectedFolder: Option<string>
    var searchQuery: string
    var user: Option<Auth.User>
    var showAuth: bool
    const store: NoteStore
    const auth: Auth.CredentialStore

    ghost predicate Valid()
      reads this, store, auth
    {
      store.Valid() && auth.Valid()
    }

    /** `user?.id` is truthy. */
    predicate SignedIn()
      reads this
    {
      user.Some? && user.value.id != ""
    }

    /** `sortedNotes`: what the sidebar lists. */
    function Listed(): (r: seq<Note>)
      reads this
      ensures forall n :: n in r <==>
        n in notes && InFolder(n, selectedFolder) && MatchesQuery(n, searchQuery)
      ensures multiset(r) == multiset(FilteredNotes(notes, selectedFolder, searchQuery))
      ensures forall i, j :: 0 <= i < j < |r| && Pinned(r[j]) ==> Pinned(r[i])
    {
      var shown := FilteredNotes(notes, selectedFolder, searchQuery);
      var sorted := SortedNotes(shown);
      assert forall n :: n in sorted <==> n in multiset(shown);
      sorted
    }

    /** The store returns for the user exactly the notes the page holds. */
    ghost predicate InStep()
      reads this, store
      requires SignedIn()
    {
      store.Load(user.value.id) == set n | n in notes
    }

    /** The initial state: `user` starts as what `getCurrentUser()` returns
        at time `now`, which also drops an expired session. */
    constructor (store: NoteStore, auth: Auth.CredentialStore, now: int)
      requires store.Valid() && auth.Valid()
      modifies auth`session
      ensures Valid() && this.store == store && this.auth == auth
      ensures (user, auth.State()) == Auth.CurrentUserStep(old(auth.State()), now)
      ensures notes == [] && selectedNote == None && selectedFolder == None
      ensures searchQuery == "" && !showAuth
    {
      this.store := store;
      this.auth := auth;
      var u := auth.GetCurrentUser(now);
      this.user := u;
      notes := [];
      selectedNote := None;
      selectedFolder := None;
      searchQuery := "";
      showAuth := false;
    }

    /** Hands the list to the note store; a failure is only logged. */
    method SaveList(userId: string)
      requires Valid()
      modifies store
      ensures Valid()
      ensures store.table == Persisted(old(store.table), notes, userId)
      ensures SaveResult(old(store.table), notes, userId).Some? && OwnedBy(notes, userId) ==>
        store.Load(userId) == set n | n in notes
    {
      var _ := store.Save(notes, userId);
      if SaveResult(old(store.table), notes, userId).Some? && OwnedBy(notes, userId) {
        LoadAfterSave(old(store.table), notes, userId);
      }
    }

    method CreateNote(id: string, now: int)
      requires Valid()
      modifies this
      ensures Valid()
      ensures user == old(user) && selectedFolder == old(selectedFolder) && searchQuery == old(searchQuery)
      ensures !old(SignedIn()) ==>
        showAuth && notes == old(notes) && selectedNote == old(selectedNote)
      ensures old(SignedIn()) ==>
        && notes == [NewNote(id, now, selectedFolder, user.value.id)] + old(notes)
        && selectedNote == Some(notes[0]) && showAuth == old(showAuth)
    {
      if !SignedIn() {
        showAuth := true;
        return;
      }
      var newNote := NewNote(id, now, selectedFolder, user.value.id);
      notes := [newNote] + notes;
      selectedNote := Some(newNote);
    }

    method UpdateNote(note: Note, now: int)
      requires Valid()
      modifies this, store
      ensures Valid()
      ensures !old(SignedIn()) ==> unchanged(this) && store.table == old(store.table)
      ensures old(SignedIn()) ==>
        && notes == ReplaceById(old(notes), note.(updatedAt := now))
        && unchanged(this`selectedNote, this`user, this`selectedFolder, this`searchQuery, this`showAuth)
        && store.table == Persisted(old(store.table), notes, user.value.id)
        && (SaveResult(old(store.table), notes, user.value.id).Some? && OwnedBy(notes, user.value.id)
            ==> InStep())
    {
      if !SignedIn() {
        return;
      }
      notes := ReplaceById(notes, note.(updatedAt := now));
      SaveList(user.value.id);
    }

    method DeleteNote(id: string)
      requires Valid()
      modifies this, store
      ensures Valid()
      ensures !old(SignedIn()) ==> unchanged(this) && store.table == old(store.table)
      ensures old(SignedIn()) ==>
        && notes == RemoveById(old(notes), id)
        && selectedNote == SelectionAfterDelete(notes, old(selectedNote), id)
        && unchanged(this`user, this`selectedFolder, this`searchQuery, this`showAuth)
        && store.table == Persisted(old(store.table), notes, user.value.id)
        && (SaveResult(old(store.table), notes, user.value.id).Some? && OwnedBy(notes, user.value.id)
            ==> InStep())
    {
      if !SignedIn() {
        return;
      }
      var updated := RemoveById(notes, id);
      notes := updated;
      if selectedNote.Some? && selectedNote.value.id == id {
        selectedNote := if |updated| > 0 then Some(updated[0]) else None;
      }
      SaveList(user.value.id);
    }

    /** As written: the selected note is left as it was (see `PinLostAfterEdit`). */
    method TogglePin(id: string)
      requires Valid()
      modifies this, store
      ensures Valid()
      ensures !old(SignedIn()) ==> unchanged(this) && store.table == old(store.table)
      ensures old(SignedIn()) ==>
        && notes == TogglePinned(old(notes), id)
        && unchanged(this`selectedNote, this`user, this`selectedFolder, this`searchQuery, this`showAuth)
        && store.table == Persisted(old(store.table), notes, user.value.id)
        && (SaveResult(old(store.table), notes, user.value.id).Some? && OwnedBy(notes, user.value.id)
            ==> InStep())
    {
      if !SignedIn() {
        return;
      }
      notes := TogglePinned(notes, id);
      SaveList(user.value.id);
    }

    method RemoveAttachment(attachmentId: string, now: int)
      requires Valid()
      modifies this, store
      ensures Valid()
      ensures old(selectedNote).None? || !old(SignedIn()) ==>
        unchanged(this) && store.table == old(store.table)
      ensures old(selectedNote).Some? && old(SignedIn()) ==>
        && selectedNote == Some(WithoutAttachment(old(selectedNote).value, attachmentId, now))
        && notes == ReplaceById(old(notes), selectedNote.value)
        && unchanged(this`user, this`selectedFolder, this`searchQuery, this`showAuth)
        && store.table == Persisted(old(store.table), notes, user.value.id)
        && (SaveResult(old(store.table), notes, user.value.id).Some? && OwnedBy(notes, user.value.id)
            ==> InStep())
    {
      if selectedNote.None? || !SignedIn() {
        return;
      }
      var updatedNote := WithoutAttachment(selectedNote.value, attachmentId, now);
      selectedNote := Some(updatedNote);
      notes := ReplaceById(notes, updatedNote);
      SaveList(user.value.id);
    }

    /** `handleAttachment` once the file has been read: `attachment` is what
        the reader's callback builds (see `NewAttachment`). */
    method AddAttachment(attachment: Attachment, now: int)
      requires Valid()
      modifies this, store
      ensures Valid()
      ensures old(selectedNote).None? || !old(SignedIn()) ==>
        unchanged(this) && store.table == old(store.table)
      ensures old(selectedNote).Some? && old(SignedIn()) ==>
        && selectedNote == Some(WithAttachment(old(selectedNote).value, attachment, now))
        && notes == ReplaceById(old(notes), selectedNote.value)
        && unchanged(this`user, this`selectedFolder, this`searchQuery, this`showAuth)
        && store.table == Persisted(old(store.table), notes, user.value.id)
        && (SaveResult(old(store.table), notes, user.value.id).Some? && OwnedBy(notes, user.value.id)
            ==> InStep())
    {
      if selectedNote.None? || !SignedIn() {
        return;
      }
      var updatedNote := WithAttachment(selectedNote.value, attachment, now);
      selectedNote := Some(updatedNote);
      notes := ReplaceById(notes, updatedNote);
      SaveList(user.value.id);
    }

    method HandleSignOut()
      requires Valid()
      modifies this, auth`session
      ensures Valid()
      ensures auth.session == None && auth.accounts == old(auth.accounts)
      ensures user == None && notes == [] && selectedNote == None && !showAuth
      ensures selectedFolder == old(selectedFolder) && searchQuery == old(searchQuery)
    {
      auth.SignOut();
      user := None;
      notes := [];
      selectedNote := None;
      showAuth := false;
    }
  }
}
