/** The search box: which notes of the sorted list are shown for a query. */
module Search {
  import opened Text
  import opened Seqs
  import opened NoteModel

  /** The filter callback: the lower-cased query occurs in the lower-cased
      content, or in the lower-cased tags joined by one space. */
  predicate Matches(n: Note, search: string)
    ensures search == [] ==> Matches(n, search)
    ensures Matches(n, search) ==> |search| <= |n.content| || |search| <= |Join(TagList(n), " ")|
  {
    var text := Lower(n.content);
    var tags := Lower(Join(TagList(n), " "));
    var q := Lower(search);
    Contains(text, q) || Contains(tags, q)
  }

  function MatchesQuery(search: string): Note -> bool {
    n => Matches(n, search)
  }

  /** `notes.filter(...)` with the search box's text. */
  function FilteredNotes(notes: seq<Note>, search: string): (r: seq<Note>)
    ensures |r| <= |notes|
    ensures forall x :: x in r ==> x in notes && Matches(x, search)
  {
    Filter(notes, MatchesQuery(search))
  }

  /** A note matches exactly when the query, ignoring case, occurs at some
      position of its content or of its space-joined tags. */
  lemma MatchesIff(n: Note, search: string)
    ensures Matches(n, search) <==>
      Occurs(Lower(n.content), Lower(search)) || Occurs(Lower(Join(TagList(n), " ")), Lower(search))
  {
    var text, tags, q := Lower(n.content), Lower(Join(TagList(n), " ")), Lower(search);
    assert Matches(n, search) == (Contains(text, q) || Contains(tags, q));
    ContainsIff(text, q);
    ContainsIff(tags, q);
  }

  /** The shown list is an order-preserving subsequence of the notes, holding
      every matching note as often as the notes do and no other note. */
  lemma FilteredNotesSpec(notes: seq<Note>, search: string, x: Note)
    ensures IsSubsequence(FilteredNotes(notes, search), notes)
    ensures multiset(FilteredNotes(notes, search))[x] ==
      if Matches(x, search) then multiset(notes)[x] else 0
    ensures x in FilteredNotes(notes, search) <==> x in notes && Matches(x, search)
  {
    FilterIsSubsequence(notes, MatchesQuery(search));
    FilterCount(notes, MatchesQuery(search), x);
  }

  /** An empty search shows every note. */
  lemma EmptySearchShowsAll(notes: seq<Note>)
    ensures FilteredNotes(notes, []) == notes
  {
    FilterKeepsAll(notes, MatchesQuery([]));
  }

  /** A note matches when the query, ignoring case, occurs inside any one of
      its tags. */
  lemma TagOccurrenceMatches(n: Note, search: string, k: nat)
    requires k < |TagList(n)| && Occurs(Lower(TagList(n)[k]), Lower(search))
    ensures Matches(n, search)
  {
    var t := TagList(n)[k];
    var a, b := JoinHasPart(TagList(n), " ", k);
    LowerAppend(a + t, b);
    LowerAppend(a, t);
    OccursInMiddle(Lower(a), Lower(t), Lower(b), Lower(search));
    MatchesIff(n, search);
  }

  /** Queries that agree up to letter case show the same notes. */
  lemma SearchIgnoresLetterCase(notes: seq<Note>, q1: string, q2: string)
    requires EqualIgnoringCase(q1, q2)
    ensures FilteredNotes(notes, q1) == FilteredNotes(notes, q2)
  {
    LowerEqualIff(q1, q2);
    SearchIgnoresCase(notes, q1, q2);
  }

  /** Lower-casing the query first changes nothing. */
  lemma SearchByLoweredQuery(notes: seq<Note>, search: string)
    ensures FilteredNotes(notes, Lower(search)) == FilteredNotes(notes, search)
  {
    LowerIdempotent(search);
    SearchIgnoresCase(notes, Lower(search), search);
  }

  /** Queries that lower-case alike show the same notes. */
  lemma {:induction false} SearchIgnoresCase(notes: seq<Note>, q1: string, q2: string)
    requires Lower(q1) == Lower(q2)
    ensures FilteredNotes(notes, q1) == FilteredNotes(notes, q2)
  {
    if notes != [] {
      SearchIgnoresCase(notes[1..], q1, q2);
    }
  }
}
