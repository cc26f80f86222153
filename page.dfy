/**
 * The notes workspace component: its state (the draft, the tag input, the
 * id being edited, the search text, the sorted snapshot) and its event
 * handlers. The component's state setters become field updates; the store
 * calls go to a `NoteStore`.
 */
module NotesView {
  import opened Wrappers
  import opened Text
  import opened NoteModel
  import opened Ordering
  import opened Search
  import opened Tags
  import opened Store

  class NotesPage {
    const db: NoteStore
    var user: Option<string>      // uid of the signed-in user, if any
    var note: string              // the draft's text
    var tagInput: string          // the draft's comma-separated tags
    var editingId: Option<Id>     // the note being edited; None while composing
    var search: string
    var notes: seq<Note>          // the latest snapshot, sorted
    var loading: bool

    constructor (db: NoteStore)
      ensures this.db == db
      ensures user == None && note == [] && tagInput == [] && editingId == None
      ensures search == [] && notes == [] && loading
    {
      this.db := db;
      user := None;
      note, tagInput, editingId := [], [], None;
      search, notes, loading := [], [], true;
    }

    /** The auth listener's callback, followed by the effect that depends on
        the user: a signed-in user's list shows as loading until its first
        snapshot arrives. */
    method OnAuthStateChanged(u: Option<string>)
      modifies this`user, this`loading
      ensures user == u
      ensures u.Some? ==> loading
      ensures u == None ==> loading == old(loading)
    {
      user := u;
      if u.Some? {
        loading := true;
      }
    }

    /** The snapshot listener, delivering the signed-in user's query result:
        the list then holds exactly the user's stored notes, pinned first and
        newest first. Without a user there is no listener and nothing changes. */
    method OnStoreChanged()
      requires db.Valid()
      modifies this`notes, this`loading
      ensures user == None ==> notes == old(notes) && loading == old(loading)
      ensures user.Some? ==>
        && notes == SortNotes(db.Query(user.value)) && !loading
        && PinnedFirst(notes) && NewestFirstWithinGroup(notes)
        && forall n :: n in notes <==> n in db.records.Values && n.userId == user.value
    {
      if user == None {
        return;
      }
      var uid := user.value;
      var docs := db.Query(uid);
      OnSnapshot(docs);
      forall n ensures n in notes <==> n in db.records.Values && n.userId == uid {
        QueryIsOwnedDocuments(db, uid, n);
        assert n in notes <==> n in docs by {
          assert multiset(notes)[n] == multiset(docs)[n];
        }
      }
    }

    /** The snapshot listener's callback: the records, sorted, become the list. */
    method OnSnapshot(docs: seq<Note>)
      modifies this`notes, this`loading
      ensures notes == SortNotes(docs) && !loading
      ensures multiset(notes) == multiset(docs)
      ensures PinnedFirst(notes) && NewestFirstWithinGroup(notes)
      ensures forall k :: Group(notes, k) == Group(docs, k)
    {
      notes := SortNotes(docs);
      loading := false;
      SortNotesSpec(docs);
    }

    /** The snapshot listener's error callback: the list stays as it was. */
    method OnSnapshotError()
      modifies this`loading
      ensures !loading
    {
      loading := false;
    }

    /** The text area's change handler. */
    method SetNote(text: string)
      modifies this`note
      ensures note == text
    {
      note := text;
    }

    /** The tag field's change handler. */
    method SetTagInput(text: string)
      modifies this`tagInput
      ensures tagInput == text
    {
      tagInput := text;
    }

    /** The search box's change handler. */
    method SetSearch(text: string)
      modifies this`search
      ensures search == text
    {
      search := text;
    }

    /** The list on screen. */
    function Shown(): (r: seq<Note>)
      reads this
      ensures |r| <= |notes|
      ensures forall x :: x in r ==> x in notes && Matches(x, search)
    {
      FilteredNotes(notes, search)
    }

    /** `saveNote`: ignored for a blank draft or without a user; otherwise
        updates the edited note's content and tags, or creates a new unpinned
        note, and clears the draft. A rejected write leaves the draft, the
        edited id and the store as they were. */
    method SaveNote(now: nat, fault: bool)
      requires db.Valid()
      modifies this`note, this`tagInput, this`editingId, db
      ensures db.Valid()
      ensures Trim(old(note)) == [] || old(user) == None ==>
        && note == old(note) && tagInput == old(tagInput) && editingId == old(editingId)
        && db.records == old(db.records) && db.nextId == old(db.nextId)
      ensures Trim(old(note)) != [] && old(user).Some? && old(editingId).Some? ==>
        var id := old(editingId).value;
        if !fault && id in old(db.records) then
          && db.records == old(db.records)[id := old(db.records)[id].(content := old(note), tags := Some(ParseTags(old(tagInput))))]
          && db.nextId == old(db.nextId)
          && note == [] && tagInput == [] && editingId == None
        else
          && db.records == old(db.records) && db.nextId == old(db.nextId)
          && note == old(note) && tagInput == old(tagInput) && editingId == old(editingId)
      ensures Trim(old(note)) != [] && old(user).Some? && old(editingId) == None ==>
        var id := old(db.nextId);
        if !fault then
          && id !in old(db.records)
          && db.records == old(db.records)[id := Note(id, old(user).value, old(note), Some(ParseTags(old(tagInput))), false, Some(now))]
          && db.nextId == id + 1
          && note == [] && tagInput == [] && editingId == None
        else
          && db.records == old(db.records) && db.nextId == old(db.nextId)
          && note == old(note) && tagInput == old(tagInput) && editingId == None
    {
      if Trim(note) == [] || user == None {
        return;
      }
      var tags := ParseTags(tagInput);
      if editingId.Some? {
        var ok := db.UpdateContent(editingId.value, note, tags, fault);
        if !ok {
          return;
        }
        editingId := None;
      } else {
        var id := db.Add(user.value, note, tags, false, now, fault);
        if id == None {
          return;
        }
      }
      note := [];
      tagInput := [];
    }

    /** `deleteNote`: removes the document only once the user confirms. */
    method DeleteNote(id: Id, confirmed: bool, fault: bool)
      requires db.Valid()
      modifies db
      ensures db.Valid() && db.nextId == old(db.nextId)
      ensures confirmed && !fault ==> db.records == old(db.records) - {id}
      ensures !confirmed || fault ==> db.records == old(db.records)
    {
      if !confirmed {
        return;
      }
      var _ := db.Delete(id, fault);
    }

    /** `togglePin`: writes the negation of the pinned flag the list showed
        for `n`, and nothing else. */
    method TogglePin(n: Note, fault: bool)
      requires db.Valid()
      modifies db
      ensures db.Valid() && db.nextId == old(db.nextId)
      ensures !fault && n.id in old(db.records) ==>
        db.records == old(db.records)[n.id := old(db.records)[n.id].(pinned := !n.pinned)]
      ensures fault || n.id !in old(db.records) ==> db.records == old(db.records)
    {
      var _ := db.UpdatePinned(n.id, !n.pinned, fault);
    }

    /** `startEdit`: loads `n` into the draft, overwriting whatever was there. */
    method StartEdit(n: Note)
      modifies this`note, this`tagInput, this`editingId
      ensures note == n.content
      ensures tagInput == TagInputOf(TagList(n))
      ensures editingId == Some(n.id)
    {
      note := n.content;
      tagInput := TagInputOf(TagList(n));
      editingId := Some(n.id);
    }

    /** `cancelEdit`: back to an empty draft; the store is not touched. */
    method CancelEdit()
      modifies this`note, this`tagInput, this`editingId
      ensures note == [] && tagInput == [] && editingId == None
    {
      note, tagInput, editingId := [], [], None;
    }
  }
}
