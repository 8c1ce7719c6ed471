# MinNotes core in Dafny

MinNotes is a browser note-taking app. This project models its three core
files.

- **Credential store** (`app/auth.ts`). An account table keyed by email, and
  one session slot with a 24-hour expiry. It has the email and password
  validators, the lower-case hex rendering of the SHA-256 password digest,
  and `signUp`, `signIn`, `getCurrentUser` and `signOut`.
- **Note store** (`app/db.ts`). An object store of notes keyed by id, with an
  index on `userId`. `saveNotes` replaces all of a user's notes in one
  transaction. `loadNotes` reads a user's notes back.
- **Page logic** (`app/page.tsx`). This covers:
  - the sidebar's folder and search filter and its pinned-first,
    newest-first sort;
  - the word, character and folder counters, and the export selection;
  - the handlers that create, update, delete and pin notes, remove an
    attachment, and sign out.

Layout, one module per file:

| file | module | contents |
|---|---|---|
| `wrappers.dfy` | `Wrappers` | `Option` and `Result` |
| `seqs.dfy` | `Seqs` | `Array.prototype.filter` on sequences and its algebra |
| `js_text.dfy` | `JsText` | `\s`, `.`, `toLowerCase`, `includes`, `trim`, `split(/\s+/)` |
| `auth.dfy` | `Auth` | validators, hex digest, the sign-up/sign-in/session steps, class `CredentialStore` |
| `note_db.dfy` | `NoteDb` | `Note`, `Attachment`, the save and load semantics, class `NoteStore` |
| `notes_page.dfy` | `NotesPage` | filter, sort, counters, list updates, class `Home` |

State that the source updates in place is modelled as a class:
- the auth database plus the `localStorage` session slot is `Auth.CredentialStore`;
- the `notes` object store is `NoteDb.NoteStore`;
- the React state of the page is `NotesPage.Home`.

Each state-changing method is tied to a pure step function, or states its whole new state. The lemmas are proved about those functions.

Values the source draws from the environment are parameters:
- the SHA-256 function is the store's `digest : string -> Digest`, about which nothing is assumed except that it is deterministic;
- `crypto.randomUUID()` is an `id` argument;
- `Date.now()` / `new Date()` is a `now` argument in milliseconds.

## Model

| member | source | states |
|---|---|---|
| Auth.ValidateEmailIff | app/auth.ts:27-30 | the validator accepts exactly the strings `A@B.C` where `A`, `B`, `C` are non-empty and contain neither whitespace (`\s`) nor `@` |
| Auth.AcceptedEmailShape | app/auth.ts:28 | an accepted email holds exactly one `@`, not first, and after it a `.` with at least one character on each side |
| Auth.ScanPasswordIff | app/auth.ts:32-36 | the one-pass scan succeeds iff there is no line terminator and each character class is either already seen or present in the rest |
| Auth.ValidatePasswordIff | app/auth.ts:32-36 | the validator accepts exactly the language of its three-lookahead pattern, and that language is: length at least 8, no line terminator (`.` does not match one), an ASCII lower-case letter, an ASCII upper-case letter and an ASCII digit |
| Auth.ByteToHexDigits | app/auth.ts:19 | `toString(16).padStart(2, '0')` renders every byte as two lower-case hex digits, high nibble first |
| Auth.HexShape | app/auth.ts:18-20 | the joined rendering has two characters per byte, all lower-case hex digits |
| Auth.UnhexHex | app/auth.ts:18-20 | the rendering decodes back to the bytes (round trip) |
| Auth.HexInjective | app/auth.ts:18-20 | different digests never render to the same string |
| Auth.HashPassword | app/auth.ts:14-21 | the stored hash is 64 lower-case hex digits and decodes to the password's digest |
| Auth.SignUpStep | app/auth.ts:68-124 | rejections in source order: email format, then password strength, then duplicate email; each leaves the state unchanged and carries the source's message. Succeeds iff all three checks pass, and then adds the account with the hashed password and opens a session that expires 24 hours later |
| Auth.SignInStep | app/auth.ts:126-174 | never writes the table; rejects a bad email format, an unknown email ("User not found") and a wrong digest ("Invalid password"); succeeds iff the stored hash equals the password's hash, returning the stored id and email and a fresh 24-hour session; on a well-formed table the returned email is the one signed in with |
| Auth.CurrentUserStep | app/auth.ts:176-187 | returns the session's user iff a session exists and `now` is not past its expiry; an expired session is removed on read; nothing else changes |
| Auth.SignUpKeepsWellFormed | app/auth.ts:68-124 | sign-up keeps every record under its own email, with a valid email and a 64-digit hex hash |
| Auth.SignUpThenSignIn | app/auth.ts:126-174 | signing in with just-registered credentials returns the same user and a new 24-hour session |
| Auth.SignInAfterSignUp | app/auth.ts:148-150 | after sign-up with `p0`, sign-in with `p` succeeds iff `p` and `p0` have the same digest, and otherwise fails with "Invalid password", never "User not found" |
| Auth.SessionExpiry | app/auth.ts:176-187 | a session opened at `t0` is visible up to and including `t0 + 24h`, and the first read after that clears it |
| Auth.CredentialStore.constructor | app/auth.ts:38-66 | the store starts with no account and no session |
| Auth.CredentialStore.SignUp | app/auth.ts:68-124 | result and new state are those of `SignUpStep`; the table stays well formed |
| Auth.CredentialStore.SignIn | app/auth.ts:126-174 | result and new state are those of `SignInStep`; only the session slot may change |
| Auth.CredentialStore.GetCurrentUser | app/auth.ts:176-187 | result and new state are those of `CurrentUserStep` |
| Auth.CredentialStore.SignOut | app/auth.ts:189-191 | the session slot is empty afterwards; the accounts are untouched |
| JsText.ToLower | app/page.tsx:259-260 | lower-casing keeps the length, maps each ASCII upper-case letter to its lower-case partner and leaves every other character alone, so no upper-case letter remains |
| JsText.ToLowerIdempotent | app/page.tsx:259-260 | lower-casing an already lower-cased string changes nothing |
| JsText.Trim | app/page.tsx:249 | the result is a slice with only whitespace cut off either end, it neither starts nor ends with whitespace, and it is empty iff the text is all whitespace |
| JsText.SplitJoinsToSqueeze | app/page.tsx:249 | the pieces of `split(/\s+/)`, joined with single spaces, give back the text with every whitespace run squeezed to one space, so the split loses nothing but the exact whitespace |
| JsText.SplitPiecesHaveNoSpace | app/page.tsx:249 | no piece of `split(/\s+/)` holds whitespace |
| JsText.SplitPieceShape | app/page.tsx:249 | there is exactly one piece iff the text has no whitespace; the first piece is non-empty when the text starts with a non-whitespace character, and every inner piece is non-empty |
| JsText.SplitCountsRuns | app/page.tsx:249 | on a string with no whitespace at either end, the number of pieces is the number of maximal non-whitespace runs |
| JsText.TrimKeepsRuns | app/page.tsx:249 | trimming does not change the number of runs |
| Seqs.Filter | app/page.tsx:256-262 | the filter keeps exactly the elements satisfying the predicate, and is no longer than its input |
| Seqs.FilterAppend | app/page.tsx:256-262 | filtering distributes over concatenation, so kept elements stay in order |
| Seqs.FilterFilter | app/page.tsx:256-262 | two filters in a row are one filter by the conjunction of their predicates |
| NoteDb.Remaining | app/db.ts:67-74 | the delete phase leaves exactly the other users' notes, unchanged |
| NoteDb.NotesOf | app/db.ts:97-104 | `getAll` on the `userId` index returns exactly the stored notes whose `userId` matches |
| NoteDb.AddAllSucceedsIff | app/db.ts:76-78 | the `add` calls succeed iff the list's ids are distinct and none is already in the store |
| NoteDb.AddAllAdds | app/db.ts:76-78 | after successful adds, the store holds its old records plus each listed note under its id, and nothing else |
| NoteDb.SaveSucceedsIff | app/db.ts:56-88 | a save commits iff the ids are distinct and no id belongs to another user's stored note |
| NoteDb.SaveContents | app/db.ts:56-88 | a committed save keeps every other user's note unchanged and stores each listed note as given under its id (`userId` is not rewritten), and nothing else |
| NoteDb.SaveKeepsKeyed | app/db.ts:49 | a committed save keeps every note under its own id |
| NoteDb.LoadAfterSave | app/db.ts:90-112 | once a list of the user's own notes is saved, loading that user returns exactly those notes |
| NoteDb.SaveEmptyClearsUser | app/db.ts:67-80 | saving an empty list always commits and deletes all of the user's notes |
| NoteDb.ForeignNoteStoredButNotLoaded | app/db.ts:76-78 | a note with another user's id that is saved is stored, but is not loaded back for the saving user |
| NoteDb.SaveIdempotent | app/db.ts:56-88 | saving the same list of the user's own notes again commits and leaves the store as it was |
| NoteDb.NoteStore.constructor | app/db.ts:45-52 | the store starts empty |
| NoteDb.NoteStore.Save | app/db.ts:56-88 | the cursor deletes, then the adds; the new table is the committed table with result `Ok`, or on a clash the old table with result `Err("Failed to save notes")`; it stays keyed by id |
| NoteDb.NoteStore.Load | app/db.ts:90-112 | the load returns exactly the stored notes with that `userId` |
| NotesPage.FilteredNotes | app/page.tsx:256-262 | a note is listed iff it is in the selected folder (or no folder is selected) and the search is empty or occurs, case-folded, in its title or content |
| NotesPage.FilteredNotesKeepsOrder | app/page.tsx:256-262 | the filter is applied note by note and keeps the notes' order |
| NotesPage.FilteredNotesOneFilter | app/page.tsx:256-262 | the folder filter followed by the search filter is a single filter by both tests |
| NotesPage.MatchesQueryIgnoresCase | app/page.tsx:259-260 | the search is case-insensitive: lower-casing the query does not change which notes match |
| NotesPage.PrecedesTotalPreorder | app/page.tsx:265-269 | the comparator is total and transitive, so the sort order is well defined |
| NotesPage.Insert | app/page.tsx:265-269 | inserting into an ordered list gives an ordered permutation with the note added |
| NotesPage.SortedNotes | app/page.tsx:264-269 | the sorted list is a permutation of the filtered list, ordered by the comparator: every pinned note precedes every unpinned note, and within the same pin status `updatedAt` does not increase |
| NotesPage.SortedNotesStable | app/page.tsx:264-269 | notes that tie under the comparator keep their relative order (stable sort) |
| NotesPage.WordCount | app/page.tsx:248-250 | the word count is the number of maximal non-whitespace runs, and it is 0 iff the trimmed text is empty |
| NotesPage.WordsFitInCharacters | app/page.tsx:248-254 | the word count (`getWordCount`) never exceeds the character count (`getCharacterCount`) |
| NotesPage.ExportList | app/page.tsx:38-41 | a note is exported iff it is in the selected folder, or no folder is selected |
| NotesPage.ExportMatchesView | app/page.tsx:38-41 | the export is the sidebar's filter with an empty search; for a selected folder, its length is that folder's count |
| NotesPage.FolderCountSplit | app/page.tsx:244-246 | the folder count plus the notes of other folders add up to all notes |
| NotesPage.NewNoteShown | app/page.tsx:168-189 | the new note passes the view's folder filter with an empty search, and adds one to its folder's count |
| NotesPage.ReplaceById | app/page.tsx:155-157 | every note with the given id is replaced by the given note; every other note stays where it was |
| NotesPage.ReplaceByIdIdempotent | app/page.tsx:155-157 | replacing twice is replacing once, and the ids in the list do not change |
| NotesPage.RemoveById | app/page.tsx:194 | exactly the notes whose id differs remain |
| NotesPage.RemoveByIdCount | app/page.tsx:194 | the remaining notes and the notes with that id add up to the list, and deletion works piecewise over a concatenation, so order is kept |
| NotesPage.TogglePinned | app/page.tsx:209-211 | notes with the id get the negation of their pin flag's truthiness; nothing else about any note changes |
| NotesPage.TogglePinnedTwice | app/page.tsx:209-211 | toggling twice restores every note's pin status |
| NotesPage.TogglePinnedInvolution | app/page.tsx:209-211 | toggling twice restores the list when the toggled notes have an explicit flag |
| NotesPage.NewAttachment | app/page.tsx:65-71 | the attachment built from a read file is an image iff its MIME type starts with "image/", otherwise a PDF, and carries the given id, name, data and creation time |
| NotesPage.WithAttachment | app/page.tsx:73-77 | the note gets its existing attachments (a missing list counts as empty) followed by the new one, and the new `updatedAt`; nothing else changes |
| NotesPage.RemoveUndoesAdd | app/page.tsx:73-77 | removing an attachment right after adding it leaves the note as removing that id would have without the addition |
| NotesPage.WithoutAttachment | app/page.tsx:91-95 | the note keeps only the attachments with a different id (a missing list becomes empty) and gets the new `updatedAt`; nothing else changes |
| NotesPage.PinLostAfterEdit | app/page.tsx:206-218 | as written: after a toggle, an autosave of an edit to the selected note writes the old pin status back |
| NotesPage.PinLostExample | app/page.tsx:206-218 | a concrete note that is pinned by the click and unpinned again by the next title edit |
| NotesPage.PinKeptAfterEdit | app/page.tsx:206-218 | with the selection flipped too, the next autosave keeps the new pin status |
| NotesPage.Home.constructor | app/page.tsx:8-17 | no notes, no selection, no folder, an empty search and the auth form hidden; the user and the session slot are what `getCurrentUser` at the current time yields, so an expired session is dropped and the page starts signed out |
| NotesPage.Home.SaveList | app/page.tsx:158-165 | the store holds the committed table, or the old one if the save aborted; a committed save of the user's own notes makes the store load back exactly the page's notes |
| NotesPage.Home.Listed | app/page.tsx:256-269 | the sidebar lists exactly the notes of the page that pass the folder and search filters, each as often as the filter keeps it, with every pinned note before every unpinned one |
| NotesPage.Home.CreateNote | app/page.tsx:168-189 | signed out: only the auth form opens. Signed in: the new note (the default title, empty content, the selected folder or "Personal", unpinned, no attachments, the user's id) is prepended and selected. Nothing is saved |
| NotesPage.Home.UpdateNote | app/page.tsx:152-166 | signed in: the list replaces the note (with the new `updatedAt`) and is saved; signed out: nothing changes |
| NotesPage.Home.DeleteNote | app/page.tsx:191-204 | signed in: the notes with the id are dropped, a deleted selection moves to the first remaining note or none, and the list is saved |
| NotesPage.Home.TogglePin | app/page.tsx:206-218 | signed in: the list gets the toggled pins and is saved, and the selection is left as it was |
| NotesPage.Home.AddAttachment | app/page.tsx:57-86 | with a selection and a signed-in user: the selection gets the attachment appended, replaces its note in the list, and the list is saved; otherwise nothing changes |
| NotesPage.Home.RemoveAttachment | app/page.tsx:88-101 | with a selection and a signed-in user: the selection loses the attachment, replaces its note in the list, and the list is saved; otherwise nothing changes |
| NotesPage.Home.HandleSignOut | app/page.tsx:220-226 | the session slot is emptied, and the page drops the user, the notes and the selection and hides the auth form |

## Left out

- IndexedDB plumbing is not modelled: opening and upgrading the databases, `db.close()`, and the lazy `initDB`. The stores start empty, with the key paths and the index the upgrade creates.
- Every account transaction closes the connection when it completes (app/auth.ts:121, 171). `initAuthDB` still hands back that cached, closed handle (app/auth.ts:40-43). So a second `signUp` or `signIn` in the same page load calls `db.transaction` on a closed connection, which throws and rejects its promise. The model reopens the store for every call. `Auth.SignUpThenSignIn` and `Auth.SignInAfterSignUp` therefore describe the program only across a page reload.
- Storage failures other than the `add` clash are not modelled ("Failed to create account", "Failed to check existing user", "Transaction failed", "Authentication failed", "Failed to load notes"). Their triggers lie in the browser's storage engine.
- Concurrency is not modelled. That covers the race between the duplicate check and the `add` in sign-up across tabs, and interleaved async handlers; each operation runs to completion.
- The debounced autosave timer is not modelled, and neither are closures capturing stale state beyond the one case in "Findings". `updateNote` is modelled as the timer's callback would run it.
- `handleAuth` and the effect that loads a user's notes are not modelled; they only wire the modelled operations to React state.
- Not modelled because they do not touch notes or accounts: the theme, the sidebar toggle, attachment download and preview, and all rendering.
- `handleAttachment` (app/page.tsx:57-86): reading the file is I/O. The empty-file-list guard, `FileReader`, `crypto.randomUUID()` and the clock become the parameters of `NotesPage.NewAttachment` and `NotesPage.Home.AddAttachment`. The list update and the save are modelled.
- `app/components/NotesApp.tsx` and `next.config.js` are not part of this model.
- Auth.HashPassword: SHA-256 and the UTF-8 encoding are an opaque parameter `digest`. Only determinism and the hex rendering are modelled, so two passwords with the same digest are indistinguishable.
- Auth.ValidatePasswordIff: lengths are counted in characters, not in the UTF-16 code units that `.{8,}` without the `u` flag counts. A password such as "Aa1" followed by three characters outside the Basic Multilingual Plane (6 characters, 9 code units) is accepted by the code but rejected by the model.
- JsText.ToLower: only ASCII letters are folded. JavaScript's full Unicode case mapping is not modelled.
- NotesPage.CharacterCount: strings are sequences of characters, not UTF-16 code units, so `length` differs for characters outside the Basic Multilingual Plane.
- NoteDb.NoteStore.Load: returns a set. The key order of `getAll` is not modelled.
- NoteDb.NoteStore.Save: the cursor visits the user's keys in an unspecified order rather than index order. The outcome does not depend on it.
- NotesPage.SortedNotes: timestamps are integers of milliseconds. Invalid dates (NaN from `getTime`) are not modelled.
- What `saveNotes` does, as modelled:
  - It stores each note as given and never rewrites its `userId` (app/db.ts:76-78). See `ForeignNoteStoredButNotLoaded`.
  - It has no empty-`userId` guard.
  - Timestamps are stored as they are.

## Findings

| source | as written | input that shows it | evidently intended | confidence | as-written member | corrected member |
|---|---|---|---|---|---|---|
| app/page.tsx:206-218 | `togglePin` updates the list but leaves `selectedNote` holding the old `isPinned`. The autosave after the next title or content edit (app/page.tsx:141-157, 502-503, 567-568) or `removeAttachment` (91-98) writes that stale note back, undoing the pin | the selected note `n1` with `isPinned: false`: click its pin, then type in its title; the list and the store end with `n1` unpinned | the selected note is toggled together with the list, so later edits keep the new pin status | not executed | `NotesPage.PinLostAfterEdit`, `NotesPage.PinLostExample` | `NotesPage.SelectionAfterToggle`, `NotesPage.PinKeptAfterEdit` |
