/** The note record as the view sees it: the document's id spread together
    with its stored fields. */
module NoteModel {
  import opened Wrappers

  /** Document identifier, assigned by the store when a note is created. */
  type Id = nat

  datatype Note = Note(
    id: Id,
    userId: string,
    content: string,
    tags: Option<seq<string>>,   // absent on documents written without tags
    pinned: bool,
    createdAt: Option<nat>        // server timestamp in seconds; absent until confirmed
  )

  /** `n.tags || []`. */
  function TagList(n: Note): (r: seq<string>)
    ensures n.tags == Some(r) || (n.tags == None && r == [])
  {
    n.tags.GetOr([])
  }

  /** `n.createdAt?.seconds || 0`: a missing timestamp counts as 0. */
  function Seconds(n: Note): (r: nat)
    ensures n.createdAt == Some(r) || (n.createdAt == None && r == 0)
  {
    n.createdAt.GetOr(0)
  }
}
