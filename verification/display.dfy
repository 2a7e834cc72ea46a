/** The list pane's display order: `[...notes].sort((a, b) => new Date(b.updatedAt) - new Date(a.updatedAt))`,
    with the timestamps compared as integers.
    ECMAScript's `Array.prototype.sort` is stable, so the order is the stable
    sort by update time, most recent first; it is modelled as a stable
    insertion sort on a copy, leaving the stored collection as it was. */
module Display {
  import opened Notes

  /** Update times never increase along the sequence. */
  predicate NewestFirst(s: seq<Note>) {
    forall i, j :: 0 <= i < j < |s| ==> s[i].updatedAt >= s[j].updatedAt
  }

  /** The notes of `s` last updated at instant `t`, in the order of `s`. */
  function UpdatedAt(s: seq<Note>, t: int): seq<Note>
  {
    if |s| == 0 then []
    else (if s[0].updatedAt == t then [s[0]] else []) + UpdatedAt(s[1..], t)
  }

  /** `UpdatedAt(s, t)` holds exactly the notes of `s` updated at `t`. */
  lemma {:induction false} UpdatedAtSelects(s: seq<Note>, t: int)
    ensures forall n :: n in UpdatedAt(s, t) <==> n in s && n.updatedAt == t
  {
    if |s| > 0 {
      UpdatedAtSelects(s[1..], t);
      assert s == [s[0]] + s[1..];
    }
  }

  /** An upper bound on update times carries over to any rearrangement. */
  lemma BoundCarriesOver(a: seq<Note>, b: seq<Note>, t: int)
    requires multiset(a) == multiset(b)
    requires forall i :: 0 <= i < |b| ==> b[i].updatedAt <= t
    ensures forall i :: 0 <= i < |a| ==> a[i].updatedAt <= t
  {
    forall i | 0 <= i < |a| ensures a[i].updatedAt <= t {
      assert a[i] in multiset(b);
    }
  }

  /** Places `x` in front of the first note not more recent than it, so it
      stays ahead of the notes it ties with. */
  function Insert(x: Note, s: seq<Note>): (r: seq<Note>)
    requires NewestFirst(s)
    ensures NewestFirst(r)
    ensures multiset(r) == multiset(s) + multiset{x}
  {
    if |s| == 0 || x.updatedAt >= s[0].updatedAt then
      [x] + s
    else
      var rest := Insert(x, s[1..]);
      var pool := s[1..] + [x];
      assert multiset(rest) == multiset(pool);
      assert forall i :: 0 <= i < |pool| ==> pool[i].updatedAt <= s[0].updatedAt;
      BoundCarriesOver(rest, pool, s[0].updatedAt);
      assert multiset(s) == multiset{s[0]} + multiset(s[1..]) by {
        assert s == [s[0]] + s[1..];
      }
      [s[0]] + rest
  }

  /** `sortedNotes`: a permutation of the stored notes, most recently
      updated first. */
  function SortForDisplay(notes: seq<Note>): (r: seq<Note>)
    ensures NewestFirst(r)
    ensures multiset(r) == multiset(notes)
  {
    if |notes| == 0 then []
    else
      assert notes == [notes[0]] + notes[1..];
      Insert(notes[0], SortForDisplay(notes[1..]))
  }

  /** Selecting the notes updated at `t` from a list with a known head. */
  lemma UpdatedAtCons(n: Note, s: seq<Note>, t: int)
    ensures UpdatedAt([n] + s, t) == (if n.updatedAt == t then [n] else []) + UpdatedAt(s, t)
  {
    assert ([n] + s)[1..] == s;
  }

  /** Inserting a note updated at another instant leaves the notes updated
      at `t` in the order they had. */
  lemma {:induction false} InsertOtherStamp(x: Note, s: seq<Note>, t: int)
    requires NewestFirst(s)
    requires x.updatedAt != t
    ensures UpdatedAt(Insert(x, s), t) == UpdatedAt(s, t)
  {
    if |s| == 0 || x.updatedAt >= s[0].updatedAt {
      UpdatedAtCons(x, s, t);
    } else {
      InsertOtherStamp(x, s[1..], t);
      UpdatedAtCons(s[0], Insert(x, s[1..]), t);
      UpdatedAtCons(s[0], s[1..], t);
      assert s == [s[0]] + s[1..];
    }
  }

  /** Inserting a note updated at `t` puts it ahead of every note it ties
      with. */
  lemma {:induction false} InsertSameStamp(x: Note, s: seq<Note>)
    requires NewestFirst(s)
    ensures UpdatedAt(Insert(x, s), x.updatedAt) == [x] + UpdatedAt(s, x.updatedAt)
  {
    var t := x.updatedAt;
    if |s| == 0 || t >= s[0].updatedAt {
      UpdatedAtCons(x, s, t);
    } else {
      InsertSameStamp(x, s[1..]);
      UpdatedAtCons(s[0], Insert(x, s[1..]), t);
      UpdatedAtCons(s[0], s[1..], t);
      assert s == [s[0]] + s[1..];
    }
  }

  /** The display order is stable: notes updated at the same instant appear
      in their stored order. */
  lemma {:induction false} SortIsStable(notes: seq<Note>, t: int)
    ensures UpdatedAt(SortForDisplay(notes), t) == UpdatedAt(notes, t)
  {
    if |notes| > 0 {
      var rest := SortForDisplay(notes[1..]);
      SortIsStable(notes[1..], t);
      if notes[0].updatedAt == t {
        InsertSameStamp(notes[0], rest);
      } else {
        InsertOtherStamp(notes[0], rest, t);
      }
    }
  }
}
