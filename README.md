# Notes workspace — a Dafny model

This project models the notes workspace of a small note-taking web
application. A signed-in user keeps short text notes in a hosted document
store. Each note has a content string, an ordered list of tags, a pinned flag
and a creation timestamp set by the server. The workspace does the following:

- subscribes to the user's notes and shows them sorted, pinned notes first
  and newest first within each group;
- filters the list by a case-insensitive search over the content and the tags;
- creates and edits notes from a draft and a comma-separated tag field;
- deletes a note once the user confirms;
- toggles the pinned flag.

The modules follow the component's structure:

- `Text`: the string operations the component relies on. These are `trim`,
  `toLowerCase`, `includes`, `split` and `join`.
- `Seqs`: `filter` and `map` on sequences, plus subsequences.
- `NoteModel`: the note record.
- `Ordering`: the snapshot comparator and the stable sort that uses it.
- `Search`: the search filter.
- `Tags`: parsing the tag field, and rendering tags back into it for editing.
- `Store`: the "notes" collection as a class holding a map of documents. It
  has the owner query and the create, update and delete writes.
- `NotesView`: the component as a class. Its fields are the component's state
  (`note`, `tagInput`, `editingId`, `search`, `notes`, `loading`, `user`) and
  its methods are the event handlers.

Inputs stand in for the outside world:

- `now` stands for the server's clock.
- `fault` says whether the backend rejects a write.
- `confirmed` is the user's answer to the delete prompt.
- The auth callback's argument is the signed-in user's uid.

`deleteDoc` on a missing document succeeds and changes nothing, and
`Store.NoteStore.Delete` follows it. A second delete of the same note
therefore leaves the record absent and the draft untouched.

## Model

| member | source | states |
|---|---|---|
| NoteModel.Seconds | src/pages/Notes.jsx:62-63 | the note's stored creation second, or 0 when it has none |
| NoteModel.TagList | src/pages/Notes.jsx:140 | the note's stored tags, or the empty list when it has none |
| Ordering.Compare | src/pages/Notes.jsx:58-65 | negative exactly when `a` is pinned and `b` is not, or both share a pinned flag and `a` is newer; positive symmetrically; zero exactly when pinned flag and seconds agree; a missing timestamp counts as 0 |
| Ordering.CompareIsConsistent | src/pages/Notes.jsx:58-65 | the comparator is antisymmetric and `<= 0` is transitive, so it is a valid sort order |
| Ordering.SortNotes | src/pages/Notes.jsx:58 | the sorted list has as many notes as the snapshot; its full specification is `Ordering.SortNotesSpec` |
| Ordering.SortIsPermutation | src/pages/Notes.jsx:58 | sorting keeps exactly the snapshot's documents (same multiset) |
| Ordering.SortIsSorted | src/pages/Notes.jsx:58-65 | every earlier note compares `<= 0` with every later one |
| Ordering.SortIsStable | src/pages/Notes.jsx:58 | notes with equal pinned flag and timestamp keep their snapshot order |
| Ordering.SortedMeansPinnedThenNewest | src/pages/Notes.jsx:59-64 | in a sorted list no unpinned note precedes a pinned one and, within a group, timestamps do not increase |
| Ordering.SortNotesSpec | src/pages/Notes.jsx:58-65 | the sorted list is a permutation, pinned first, newest first within each group, stable |
| Ordering.StableSortIsUnique | src/pages/Notes.jsx:58-65 | any sorted arrangement that keeps each equal-key group in snapshot order is the sort's result |
| Ordering.InsertCount | src/pages/Notes.jsx:58 | inserting one note adds exactly that note to the multiset |
| Ordering.InsertSorted | src/pages/Notes.jsx:58-65 | inserting into a sorted list keeps it sorted |
| Ordering.InsertGroup | src/pages/Notes.jsx:58 | the inserted note comes first among the notes that share its key; other groups are unchanged |
| Ordering.SortedGroupsDetermine | src/pages/Notes.jsx:58-65 | two sorted lists with the same equal-key groups are equal |
| Search.Matches | src/pages/Notes.jsx:155-161 | every note matches the empty query, and a match needs the content or the joined tags to be at least as long as the query |
| Search.FilteredNotes | src/pages/Notes.jsx:155-161 | no longer than the list, and every shown note is in the list and matches |
| Search.TagOccurrenceMatches | src/pages/Notes.jsx:157-160 | a note matches when the query, ignoring case, occurs inside any one of its tags |
| Search.SearchIgnoresLetterCase | src/pages/Notes.jsx:156-160 | queries that agree up to ASCII letter case (such as "MILK" and "milk") show the same notes |
| Search.SearchByLoweredQuery | src/pages/Notes.jsx:158 | searching for the lower-cased query shows the same notes as the query itself |
| Search.MatchesIff | src/pages/Notes.jsx:155-161 | a note matches exactly when the lower-cased query occurs in the lower-cased content or in the lower-cased space-joined tags |
| Search.FilteredNotesSpec | src/pages/Notes.jsx:155-161 | the shown list is a subsequence of the notes, keeps every copy of a matching note, and holds a note exactly when it matches |
| Search.EmptySearchShowsAll | src/pages/Notes.jsx:155-161 | an empty search shows every note in order |
| Search.SearchIgnoresCase | src/pages/Notes.jsx:158 | two queries that lower-case alike show the same list |
| Tags.CleanPieces | src/pages/Notes.jsx:88-89 | no more tags than pieces; `Tags.CleanPiecesIsMapFilter` equates it with trimming every piece and dropping the empty ones |
| Tags.ParseTags | src/pages/Notes.jsx:86-89 | no more tags than comma-separated pieces |
| Tags.TagInputOf | src/pages/Notes.jsx:140 | the tag field's length is the tags' total length plus two characters (", ") between each pair of neighbours |
| Tags.CleanPiecesIsMapFilter | src/pages/Notes.jsx:86-89 | the recursive parser equals trimming every piece and then dropping the empty ones |
| Tags.ParseTagsWellFormed | src/pages/Notes.jsx:86-89 | every parsed tag is non-empty, trimmed and comma-free |
| Tags.CleanWellFormed | src/pages/Notes.jsx:88-89 | trimming comma-free pieces and dropping empties yields well-formed tags |
| Tags.ParseTagsKeepsOrder | src/pages/Notes.jsx:86-89 | parsed tags are the trimmed pieces in input order, and every non-blank trimmed piece is kept |
| Tags.EditTagsRoundTrip | src/pages/Notes.jsx:140 | rendering well-formed tags with ", " and parsing them again gives back the same tags |
| Tags.ParseTagsIsStable | src/pages/Notes.jsx:86-89 | starting an edit and saving again without touching the tags stores the same tags |
| Tags.ParseTagsExample | src/pages/Notes.jsx:86-89 | `a, b ,, c` parses to `[a, b, c]` for any tags a, b, c |
| Tags.ParseTagsKeepsDuplicates | src/pages/Notes.jsx:86-89 | a repeated tag is kept twice |
| Tags.ParsePaddedJoin | src/pages/Notes.jsx:140 | leading whitespace before a ", "-joined tag list does not change what parses |
| Text.Trim | src/pages/Notes.jsx:84 | the result has no whitespace at either end |
| Text.TrimStartShape | src/pages/Notes.jsx:88 | `TrimStart` removes a whitespace prefix and keeps the rest |
| Text.TrimEndShape | src/pages/Notes.jsx:88 | `TrimEnd` removes a whitespace suffix and keeps the rest |
| Text.TrimIsEmptyIff | src/pages/Notes.jsx:84 | a draft is blank exactly when it is all whitespace |
| Text.TrimKeepsCharacters | src/pages/Notes.jsx:88 | trimming adds no characters |
| Text.TrimPadded | src/pages/Notes.jsx:88 | trimming a trimmed string surrounded by whitespace gives that string |
| Text.TrimOfTrimmed | src/pages/Notes.jsx:88 | trimming is the identity on trimmed strings |
| Text.Lower | src/pages/Notes.jsx:156-158 | same length; each character lower-cased on its own |
| Text.LowerChar | src/pages/Notes.jsx:156-158 | an upper-case ASCII letter becomes the lower-case letter at the same alphabet position; every other character is kept; no upper-case letter remains |
| Text.LowerCharEqualIff | src/pages/Notes.jsx:156-158 | two characters lower-case alike exactly when they are equal or are the two cases of one ASCII letter |
| Text.LowerEqualIff | src/pages/Notes.jsx:156-158 | two strings lower-case alike exactly when they agree character by character up to ASCII letter case |
| Text.LowerAppend | src/pages/Notes.jsx:157 | lower-casing distributes over concatenation |
| Text.LowerIdempotent | src/pages/Notes.jsx:158 | lower-casing twice is lower-casing once |
| Text.Contains | src/pages/Notes.jsx:160 | a string includes only needles no longer than itself, and always includes the empty needle |
| Text.OccursInMiddle | src/pages/Notes.jsx:160 | an occurrence inside a string stays an occurrence when text is added on either side |
| Text.Join | src/pages/Notes.jsx:157 | the joined string's length is the parts' total length plus one separator between each pair of neighbours |
| Text.JoinHasPart | src/pages/Notes.jsx:157 | every part appears whole inside the joined string |
| Text.ContainsIff | src/pages/Notes.jsx:160 | `includes` holds exactly when the needle occurs at some index; the empty needle always occurs |
| Text.Split | src/pages/Notes.jsx:87 | at least one piece, and no piece contains the separator |
| Text.SplitJoin | src/pages/Notes.jsx:87 | joining the pieces with the separator restores the input |
| Text.SplitNoSeparator | src/pages/Notes.jsx:87 | a string without the separator is one piece |
| Text.SplitAtSeparator | src/pages/Notes.jsx:87 | the first separator ends the first piece |
| Seqs.Filter | src/pages/Notes.jsx:89 | no longer than the input, and keeps only elements that satisfy the predicate |
| Seqs.Map | src/pages/Notes.jsx:88 | same length; each element mapped |
| Seqs.FilterIsSubsequence | src/pages/Notes.jsx:155 | filtering keeps order |
| Seqs.FilterCount | src/pages/Notes.jsx:155 | filtering keeps every copy of a kept element and no copy of a dropped one |
| Seqs.FilterKeepsAll | src/pages/Notes.jsx:155 | filtering with a predicate every element satisfies changes nothing |
| Store.OwnedBy | src/pages/Notes.jsx:45-48 | no longer than the bound, and every note in it is stored and belongs to the owner |
| Store.OwnedByIdsIncrease | src/pages/Notes.jsx:45-48 | when every document sits under its own id, the result's ids are below the bound and strictly increasing, so no document appears twice |
| Store.QueryIdsIncrease | src/pages/Notes.jsx:45-48 | the owner query lists each of the owner's documents once, in increasing id order |
| Store.NoteStore.Query | src/pages/Notes.jsx:45-48 | every note in the result is stored and belongs to the owner |
| Store.OwnedByMembership | src/pages/Notes.jsx:45-48 | a note is in the owner query exactly when it is stored under an id below the bound and belongs to the owner |
| Store.OwnedByFrame | src/pages/Notes.jsx:45-48 | storing under an id at or above the bound leaves the query unchanged |
| Store.AddExtendsQuery | src/pages/Notes.jsx:100-106 | a document created under the next id joins the end of its owner's query and no other owner's |
| Store.QueryIsOwnedDocuments | src/pages/Notes.jsx:45-48 | the owner query holds exactly the owner's stored documents |
| Store.DeletedNotInQuery | src/pages/Notes.jsx:122 | a deleted document is in no owner's query |
| Store.NoteStore.Add | src/pages/Notes.jsx:100-106 | on success a fresh id holds the new document and the owner's query grows by it; on failure nothing changes |
| Store.NoteStore.UpdateContent | src/pages/Notes.jsx:93-97 | succeeds exactly when the backend accepts and the document exists; then only its content and tags change |
| Store.NoteStore.UpdatePinned | src/pages/Notes.jsx:130-132 | succeeds exactly when the backend accepts and the document exists; then only its pinned flag changes |
| Store.NoteStore.Delete | src/pages/Notes.jsx:122 | on success the document is gone, whether or not it existed; on failure nothing changes |
| Store.NoteStore.constructor | src/pages/Notes.jsx:46 | an empty collection |
| NotesView.NotesPage.constructor | src/pages/Notes.jsx:17-23 | initial state: empty draft, tags and search, no edit, no user, loading |
| NotesView.NotesPage.OnAuthStateChanged | src/pages/Notes.jsx:31-43 | the user is recorded, and a signed-in user's list shows as loading |
| NotesView.NotesPage.OnStoreChanged | src/pages/Notes.jsx:40-69 | with a user, the list is the sorted owner query and holds exactly the user's stored notes, pinned first and newest first; without a user nothing changes |
| NotesView.NotesPage.OnSnapshot | src/pages/Notes.jsx:52-68 | the list becomes the sorted snapshot (a permutation, pinned first, newest first, stable) and loading stops |
| NotesView.NotesPage.OnSnapshotError | src/pages/Notes.jsx:70-73 | loading stops and the list stays as it was |
| NotesView.NotesPage.SetNote | src/pages/Notes.jsx:217 | the draft becomes the typed text |
| NotesView.NotesPage.SetTagInput | src/pages/Notes.jsx:232 | the tag field becomes the typed text |
| NotesView.NotesPage.SetSearch | src/pages/Notes.jsx:281 | the search becomes the typed text |
| NotesView.NotesPage.Shown | src/pages/Notes.jsx:155-161 | no longer than the list, and every shown note is in the list and matches the search |
| NotesView.NotesPage.SaveNote | src/pages/Notes.jsx:83-115 | a blank draft or no user changes nothing; when editing, the note's content and parsed tags are written and the draft and edit are cleared; otherwise a new unpinned note stamped with the server's clock is created under a fresh id and the draft is cleared; a rejected write leaves everything as it was |
| NotesView.NotesPage.DeleteNote | src/pages/Notes.jsx:117-126 | nothing happens unless confirmed; a confirmed, accepted delete removes exactly that id |
| NotesView.NotesPage.TogglePin | src/pages/Notes.jsx:128-136 | writes the negation of the displayed pinned flag to that note only; a rejected write or a missing note changes nothing |
| NotesView.NotesPage.StartEdit | src/pages/Notes.jsx:138-143 | the draft, the tag field (tags joined with ", ") and the edited id are loaded from the note |
| NotesView.NotesPage.CancelEdit | src/pages/Notes.jsx:145-149 | the draft, the tag field and the edited id are cleared |

## Left out

- Subscription plumbing is not modelled. This covers the `onSnapshot` and
  `onAuthStateChanged` registrations and their unsubscribe cleanup. The
  callbacks themselves are methods, and a snapshot delivers whatever
  documents the caller passes (`OnSnapshot`) or the current owner query
  (`OnStoreChanged`).
- The interleaving of asynchronous writes with snapshots is not modelled.
  Each write completes before the next event.
- The `console.error` logging on failures is left out. A failure is the
  `fault` input, and its only visible effect is that the state does not
  change.
- Focusing the text area is not modelled. Neither is the dark-mode flag and
  its `localStorage` persistence, sign-out, or the rendered markup. This
  includes the 500-character counter, which is a display hint only.
- Login.jsx, Signup.jsx, Home.jsx and App.jsx are not part of this model.
- Document ids are natural numbers issued in increasing order by the
  collection. The store's auto-generated ids are opaque unique strings, and
  a query without `orderBy` returns documents in an order the model fixes
  as id order.
- A server timestamp that is still pending locally is not modelled. A
  document's `createdAt` may still be absent (`None`), and the comparator
  then counts it as 0.
- Text.LowerChar: only ASCII capitals are mapped to lower case; every other
  character is kept, so `LowerCharEqualIff` and `LowerEqualIff` speak of
  ASCII letter case only.
- Text.Lower: only ASCII letters are lower-cased. `toLowerCase` also maps
  other Unicode letters.
- Text.Trim: strings are sequences of Unicode scalar values, not UTF-16 code
  units. Its whitespace set is that of the ECMAScript `trim`.
- Tags.ParseTagsExample: stated for arbitrary well-formed tags a, b and c
  rather than for particular literal strings.
- Last-writer-wins conflicts between two sessions are not modelled. Security
  rules are not modelled either.
