/**
 * Ordering of a snapshot: the comparator handed to `Array.prototype.sort`
 * (pinned notes first, then newest first), and the stable sort it drives.
 */
module Ordering {
  import opened NoteModel
  import opened Seqs

  /** What the comparator looks at: the pinned flag and the creation second. */
  type Key = (bool, nat)

  function KeyOf(n: Note): Key {
    (n.pinned, Seconds(n))
  }

  /** The snapshot comparator: negative when `a` goes first, positive when `b`
      does, zero when they tie. */
  function Compare(a: Note, b: Note): (r: int)
    ensures r < 0 <==> (a.pinned && !b.pinned) || (a.pinned == b.pinned && Seconds(a) > Seconds(b))
    ensures r > 0 <==> (!a.pinned && b.pinned) || (a.pinned == b.pinned && Seconds(a) < Seconds(b))
    ensures r == 0 <==> KeyOf(a) == KeyOf(b)
  {
    if a.pinned && !b.pinned then -1
    else if !a.pinned && b.pinned then 1
    else Seconds(b) - Seconds(a)
  }

  /** The comparator is consistent in the sense `sort` requires: swapping the
      arguments flips the sign, and "goes no later than" is transitive. */
  lemma CompareIsConsistent(a: Note, b: Note, c: Note)
    ensures Compare(a, b) < 0 <==> Compare(b, a) > 0
    ensures Compare(a, b) <= 0 && Compare(b, c) <= 0 ==> Compare(a, c) <= 0
  {
  }

  /** Every pair in order, as the comparator sees it. */
  ghost predicate Sorted(s: seq<Note>) {
    forall i, j :: 0 <= i < j < |s| ==> Compare(s[i], s[j]) <= 0
  }

  ghost predicate PinnedFirst(s: seq<Note>) {
    forall i, j :: 0 <= i < j < |s| && s[j].pinned ==> s[i].pinned
  }

  ghost predicate NewestFirstWithinGroup(s: seq<Note>) {
    forall i, j :: 0 <= i < j < |s| && s[i].pinned == s[j].pinned ==> Seconds(s[i]) >= Seconds(s[j])
  }

  function HasKey(k: Key): Note -> bool {
    n => KeyOf(n) == k
  }

  /** The notes of `s` that tie on key `k`, in the order `s` has them. */
  function Group(s: seq<Note>, k: Key): seq<Note> {
    Filter(s, HasKey(k))
  }

  /** `x` goes before the first element it does not come after. */
  function Insert(x: Note, s: seq<Note>): (r: seq<Note>)
    ensures |r| == |s| + 1
  {
    if s == [] then [x]
    else if Compare(x, s[0]) <= 0 then [x] + s
    else [s[0]] + Insert(x, s[1..])
  }

  /** `data.sort(Compare)`, stable as ECMAScript 2019 requires. */
  function SortNotes(s: seq<Note>): (r: seq<Note>)
    ensures |r| == |s|
  {
    if s == [] then [] else Insert(s[0], SortNotes(s[1..]))
  }

  lemma {:induction false} InsertCount(x: Note, s: seq<Note>)
    ensures multiset(Insert(x, s)) == multiset{x} + multiset(s)
  {
    if s != [] && Compare(x, s[0]) > 0 {
      InsertCount(x, s[1..]);
      assert s == [s[0]] + s[1..];
    }
  }

  /** A note that goes no later than any of a sorted sequence's elements can head it. */
  lemma SortedCons(y: Note, t: seq<Note>)
    requires Sorted(t)
    requires forall z :: z in t ==> Compare(y, z) <= 0
    ensures Sorted([y] + t)
  {
    var r := [y] + t;
    forall i, j | 0 <= i < j < |r| ensures Compare(r[i], r[j]) <= 0 {
      if i == 0 {
        assert r[j] == t[j - 1];
        assert r[j] in t;
      } else {
        assert r[i] == t[i - 1] && r[j] == t[j - 1];
      }
    }
  }

  lemma {:induction false} InsertSorted(x: Note, s: seq<Note>)
    requires Sorted(s)
    ensures Sorted(Insert(x, s))
  {
    if s == [] {
    } else if Compare(x, s[0]) <= 0 {
      forall z | z in s ensures Compare(x, z) <= 0 {
        var j :| 0 <= j < |s| && s[j] == z;
        CompareIsConsistent(x, s[0], z);
      }
      SortedCons(x, s);
    } else {
      var t := Insert(x, s[1..]);
      InsertSorted(x, s[1..]);
      InsertCount(x, s[1..]);
      forall z | z in t ensures Compare(s[0], z) <= 0 {
        assert z in multiset(t);
        if z != x {
          assert z in multiset(s[1..]);
          var j :| 0 <= j < |s[1..]| && s[1..][j] == z;
          assert s[j + 1] == z;
        }
      }
      assert Sorted(s[1..]) by {
        forall i, j | 0 <= i < j < |s[1..]| ensures Compare(s[1..][i], s[1..][j]) <= 0 {
          assert s[1..][i] == s[i + 1] && s[1..][j] == s[j + 1];
        }
      }
      SortedCons(s[0], t);
    }
  }

  /** Inserting `x` only lengthens `x`'s own group, at the front. */
  lemma {:induction false} InsertGroup(x: Note, s: seq<Note>, k: Key)
    ensures Group(Insert(x, s), k) == (if KeyOf(x) == k then [x] else []) + Group(s, k)
  {
    if s == [] {
    } else if Compare(x, s[0]) <= 0 {
      assert ([x] + s)[1..] == s;
    } else {
      InsertGroup(x, s[1..], k);
      var t := Insert(x, s[1..]);
      assert ([s[0]] + t)[1..] == t;
      assert KeyOf(x) != KeyOf(s[0]);
    }
  }

  /** The sort keeps exactly the snapshot's records: nothing added, dropped or changed. */
  lemma {:induction false} SortIsPermutation(s: seq<Note>)
    ensures multiset(SortNotes(s)) == multiset(s)
  {
    if s != [] {
      SortIsPermutation(s[1..]);
      InsertCount(s[0], SortNotes(s[1..]));
      assert s == [s[0]] + s[1..];
    }
  }

  lemma {:induction false} SortIsSorted(s: seq<Note>)
    ensures Sorted(SortNotes(s))
  {
    if s != [] {
      SortIsSorted(s[1..]);
      InsertSorted(s[0], SortNotes(s[1..]));
    }
  }

  /** Notes that tie keep their snapshot order. */
  lemma {:induction false} SortIsStable(s: seq<Note>, k: Key)
    ensures Group(SortNotes(s), k) == Group(s, k)
  {
    if s != [] {
      SortIsStable(s[1..], k);
      InsertGroup(s[0], SortNotes(s[1..]), k);
    }
  }

  /** What the comparator's order means for the displayed list. */
  lemma SortedMeansPinnedThenNewest(s: seq<Note>)
    requires Sorted(s)
    ensures PinnedFirst(s)
    ensures NewestFirstWithinGroup(s)
  {
  }

  /** The sorted snapshot: pinned notes first, newest first within each
      group, ties in snapshot order, and the same records as the snapshot. */
  lemma SortNotesSpec(s: seq<Note>)
    ensures multiset(SortNotes(s)) == multiset(s)
    ensures PinnedFirst(SortNotes(s))
    ensures NewestFirstWithinGroup(SortNotes(s))
    ensures forall k :: Group(SortNotes(s), k) == Group(s, k)
  {
    SortIsPermutation(s);
    SortIsSorted(s);
    SortedMeansPinnedThenNewest(SortNotes(s));
    forall k ensures Group(SortNotes(s), k) == Group(s, k) {
      SortIsStable(s, k);
    }
  }

  lemma GroupCons(s: seq<Note>, k: Key)
    requires s != []
    ensures Group(s, k) == (if KeyOf(s[0]) == k then [s[0]] else []) + Group(s[1..], k)
  {
  }

  /** Two sorted sequences with the same groups are equal. */
  lemma {:induction false} SortedGroupsDetermine(r1: seq<Note>, r2: seq<Note>)
    requires Sorted(r1) && Sorted(r2)
    requires forall k :: Group(r1, k) == Group(r2, k)
    ensures r1 == r2
    decreases |r1| + |r2|
  {
    if r1 == [] {
      if r2 != [] {
        GroupCons(r2, KeyOf(r2[0]));
        assert false;
      }
    } else {
      var k := KeyOf(r1[0]);
      GroupCons(r1, k);
      assert Group(r2, k) != [];
      assert r2 != [];
      var k2 := KeyOf(r2[0]);
      GroupCons(r2, k2);
      // Each head is the first of its group in the other sequence, so neither
      // key can come strictly before the other.
      assert k == k2;
      assert Group(r1, k)[0] == r1[0];
      assert Group(r2, k)[0] == r2[0];
      forall k' ensures Group(r1[1..], k') == Group(r2[1..], k') {
        GroupCons(r1, k');
        GroupCons(r2, k');
        var head := if KeyOf(r1[0]) == k' then [r1[0]] else [];
        assert Group(r1[1..], k') == Group(r1, k')[|head|..];
        assert Group(r2[1..], k') == Group(r2, k')[|head|..];
      }
      SortedGroupsDetermine(r1[1..], r2[1..]);
      assert r1 == [r1[0]] + r1[1..];
      assert r2 == [r2[0]] + r2[1..];
    }
  }

  /** Any sorted arrangement of the snapshot that keeps ties in snapshot order
      is the one `SortNotes` gives: whichever stable algorithm the engine
      uses, the displayed order is the same. */
  lemma StableSortIsUnique(s: seq<Note>, r: seq<Note>)
    requires Sorted(r)
    requires forall k :: Group(r, k) == Group(s, k)
    ensures r == SortNotes(s)
  {
    SortIsSorted(s);
    forall k ensures Group(SortNotes(s), k) == Group(s, k) {
      SortIsStable(s, k);
    }
    SortedGroupsDetermine(r, SortNotes(s));
  }
}
