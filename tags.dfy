/**
 * The tag input: parsed into a tag list when a note is saved, and rebuilt
 * from a note's tags when an edit starts.
 */
module Tags {
  import opened Text
  import opened Seqs

  predicate IsNonEmpty(t: string) {
    t != []
  }

  /** What a parsed tag looks like: non-empty, without a comma, and without
      whitespace at either end. */
  predicate IsTag(t: string) {
    t != [] && ',' !in t && IsTrimmed(t)
  }

  /** The cleanup half of parsing: trim each piece, drop the empty ones. */
  function CleanPieces(pieces: seq<string>): (r: seq<string>)
    ensures |r| <= |pieces|
  {
    if pieces == [] then []
    else
      var t := Trim(pieces[0]);
      (if t != [] then [t] else []) + CleanPieces(pieces[1..])
  }

  /** The cleanup is the `.map(t => t.trim()).filter(Boolean)` chain. */
  lemma {:induction false} CleanPiecesIsMapFilter(pieces: seq<string>)
    ensures CleanPieces(pieces) == Filter(Map(pieces, Trim), IsNonEmpty)
  {
    if pieces != [] {
      CleanPiecesIsMapFilter(pieces[1..]);
      assert Map(pieces, Trim)[1..] == Map(pieces[1..], Trim);
    }
  }

  /** `tagInput.split(",").map(t => t.trim()).filter(Boolean)`. */
  function ParseTags(input: string): (r: seq<string>)
    ensures |r| <= |Split(input, ',')|
  {
    CleanPieces(Split(input, ','))
  }

  /** Every parsed tag is non-empty, comma-free and trimmed. */
  lemma ParseTagsWellFormed(input: string)
    ensures forall t :: t in ParseTags(input) ==> IsTag(t)
  {
    CleanWellFormed(Split(input, ','));
  }

  lemma {:induction false} CleanWellFormed(pieces: seq<string>)
    requires forall i :: 0 <= i < |pieces| ==> ',' !in pieces[i]
    ensures forall t :: t in CleanPieces(pieces) ==> IsTag(t)
  {
    if pieces != [] {
      CleanWellFormed(pieces[1..]);
      assert ',' !in pieces[0];
      TrimKeepsCharacters(pieces[0]);
    }
  }

  /** `(n.tags || []).join(", ")`: the tag input an edit starts from. */
  function TagInputOf(tags: seq<string>): (r: string)
    ensures tags != [] ==> |r| + 2 == TotalLength(tags) + 2 * |tags|
  {
    Join(tags, ", ")
  }

  /** Parsing keeps the pieces' order and every non-empty trimmed piece. */
  lemma ParseTagsKeepsOrder(input: string)
    ensures IsSubsequence(ParseTags(input), Map(Split(input, ','), Trim))
    ensures forall i :: 0 <= i < |Split(input, ',')| && Trim(Split(input, ',')[i]) != [] ==>
      Trim(Split(input, ',')[i]) in ParseTags(input)
  {
    var trimmed := Map(Split(input, ','), Trim);
    CleanPiecesIsMapFilter(Split(input, ','));
    FilterIsSubsequence(trimmed, IsNonEmpty);
    forall i | 0 <= i < |Split(input, ',')| && Trim(Split(input, ',')[i]) != []
      ensures Trim(Split(input, ',')[i]) in ParseTags(input)
    {
      var t := trimmed[i];
      FilterCount(trimmed, IsNonEmpty, t);
      assert t in multiset(trimmed);
    }
  }

  lemma CleanCons(a: string, rest: seq<string>)
    ensures CleanPieces([a] + rest) == (if Trim(a) != [] then [Trim(a)] else []) + CleanPieces(rest)
  {
    assert ([a] + rest)[1..] == rest;
  }

  lemma CleanSingle(a: string)
    ensures CleanPieces([a]) == if Trim(a) == [] then [] else [Trim(a)]
  {
    CleanCons(a, []);
  }

  lemma NoCommaInWhitespace(p: string)
    requires AllWhitespace(p)
    ensures ',' !in p
  {
  }

  /** A piece without separators, after a whitespace prefix, parses to its trimmed self. */
  lemma ParsePaddedLast(p: string, t: string)
    requires AllWhitespace(p)
    requires t == [] || IsTag(t)
    ensures CleanPieces(Split(p + t, ',')) == if t == [] then [] else [t]
  {
    NoCommaInWhitespace(p);
    SplitNoSeparator(p + t, ',');
    TrimPadded(p, t, []);
    assert p + t + [] == p + t;
    CleanSingle(p + t);
  }

  lemma ParsePaddedStep(p: string, t: string, rest: string)
    requires AllWhitespace(p) && IsTag(t)
    ensures CleanPieces(Split(p + t + ", " + rest, ',')) == [t] + CleanPieces(Split(" " + rest, ','))
  {
    NoCommaInWhitespace(p);
    assert p + t + ", " + rest == (p + t) + [','] + (" " + rest);
    SplitAtSeparator(p + t, ',', " " + rest);
    TrimPadded(p, t, []);
    assert p + t + [] == p + t;
    CleanCons(p + t, Split(" " + rest, ','));
  }

  /** Parsing a whitespace prefix followed by the joined tags gives the tags back. */
  lemma {:induction false} ParsePaddedJoin(p: string, tags: seq<string>)
    requires AllWhitespace(p)
    requires forall t :: t in tags ==> IsTag(t)
    ensures CleanPieces(Split(p + TagInputOf(tags), ',')) == tags
    decreases |tags|
  {
    if |tags| == 0 {
      assert p + TagInputOf(tags) == p + [];
      ParsePaddedLast(p, []);
    } else if |tags| == 1 {
      assert tags[0] in tags;
      ParsePaddedLast(p, tags[0]);
    } else {
      var t := tags[0];
      assert t in tags;
      assert p + TagInputOf(tags) == p + t + ", " + TagInputOf(tags[1..]);
      ParsePaddedStep(p, t, TagInputOf(tags[1..]));
      assert forall u :: u in tags[1..] ==> u in tags;
      ParsePaddedJoin(" ", tags[1..]);
      assert [t] + tags[1..] == tags;
    }
  }

  /** Starting an edit and saving the tag input unchanged writes the same tags back. */
  lemma EditTagsRoundTrip(tags: seq<string>)
    requires forall t :: t in tags ==> IsTag(t)
    ensures ParseTags(TagInputOf(tags)) == tags
  {
    ParsePaddedJoin([], tags);
    assert [] + TagInputOf(tags) == TagInputOf(tags);
  }

  /** Re-editing a note's parsed tags changes nothing. */
  lemma ParseTagsIsStable(input: string)
    ensures ParseTags(TagInputOf(ParseTags(input))) == ParseTags(input)
  {
    ParseTagsWellFormed(input);
    EditTagsRoundTrip(ParseTags(input));
  }

  /** Parsing proceeds piece by piece. */
  lemma CleanSplitAt(x: string, rest: string)
    requires ',' !in x
    ensures CleanPieces(Split(x + [','] + rest, ',')) == CleanPieces([x]) + CleanPieces(Split(rest, ','))
  {
    SplitAtSeparator(x, ',', rest);
    CleanCons(x, Split(rest, ','));
    CleanSingle(x);
  }

  /** The shape of `"a, b ,, c"`: empty pieces are dropped, whitespace is
      trimmed and the order is kept, whatever the three tags are. */
  lemma ParseTagsExample(a: string, b: string, c: string)
    requires IsTag(a) && IsTag(b) && IsTag(c)
    ensures ParseTags(a + ", " + b + " ,, " + c) == [a, b, c]
  {
    var rest := " " + b + " " + [','] + ("," + (" " + c));
    assert a + ", " + b + " ,, " + c == a + [','] + rest;
    ExampleRest(b, c);
    TrimOfTrimmed(a);
    CleanSingle(a);
    CleanSplitAt(a, rest);
  }

  /** The `" b ,, c"` part of the example. */
  lemma ExampleRest(b: string, c: string)
    requires IsTag(b) && IsTag(c)
    ensures CleanPieces(Split(" " + b + " " + [','] + ("," + (" " + c)), ',')) == [b, c]
  {
    var pb := " " + b + " ";
    ExampleLast(c);
    TrimPadded(" ", b, " ");
    CleanSingle(pb);
    CleanSplitAt(pb, "," + (" " + c));
  }

  /** The `", c"` part of the example: the empty piece is dropped. */
  lemma ExampleLast(c: string)
    requires IsTag(c)
    ensures CleanPieces(Split("," + (" " + c), ',')) == [c]
  {
    var pc := " " + c;
    assert "," + pc == [] + [','] + pc;
    CleanSingle([]);
    assert pc == " " + c + [];
    TrimPadded(" ", c, []);
    SplitNoSeparator(pc, ',');
    CleanSingle(pc);
    CleanSplitAt([], pc);
  }

  /** Duplicates are kept. */
  lemma ParseTagsKeepsDuplicates(t: string)
    requires IsTag(t)
    ensures ParseTags(t + "," + t) == [t, t]
  {
    assert t + "," + t == t + [','] + t;
    TrimOfTrimmed(t);
    CleanSingle(t);
    SplitNoSeparator(t, ',');
    CleanSplitAt(t, t);
  }
}
