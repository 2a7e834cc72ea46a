/** The note record and the three list operations the handlers apply to the
    stored collection: `find` by id, `filter` out an id, and the in-place
    `map` that rewrites the notes carrying an id. */
module Notes {
  import opened Wrappers

  /** A stored note. The timestamps are integer instants; the application
      stores ISO-8601 strings, which order the same way for the dates the
      application produces. */
  datatype Note = Note(id: string, title: string, content: string, createdAt: int, updatedAt: int)

  /** Some note of the collection carries `id`. */
  predicate HasId(notes: seq<Note>, id: string) {
    exists i :: 0 <= i < |notes| && notes[i].id == id
  }

  /** No two notes of the collection share an identifier. */
  predicate UniqueIds(notes: seq<Note>) {
    forall i, j :: 0 <= i < j < |notes| ==> notes[i].id != notes[j].id
  }

  /** Every note was last touched no earlier than it was created. */
  predicate TimestampsOrdered(notes: seq<Note>) {
    forall i :: 0 <= i < |notes| ==> notes[i].createdAt <= notes[i].updatedAt
  }

  /** No timestamp of the collection lies after `now`. */
  predicate NotAfter(notes: seq<Note>, now: int) {
    forall i :: 0 <= i < |notes| ==> notes[i].createdAt <= now && notes[i].updatedAt <= now
  }

  /** Position of the first note carrying `id`, if any. */
  function FirstIndexOf(notes: seq<Note>, id: string): (r: Option<nat>)
    ensures r.None? <==> !HasId(notes, id)
    ensures r.Some? ==> r.value < |notes| && notes[r.value].id == id
    ensures r.Some? ==> forall j :: 0 <= j < r.value ==> notes[j].id != id
  {
    if |notes| == 0 then None
    else if notes[0].id == id then Some(0)
    else
      match FirstIndexOf(notes[1..], id)
      case None =>
        assert !HasId(notes, id) by {
          forall i | 0 <= i < |notes| ensures notes[i].id != id {
            if i > 0 { assert notes[1..][i - 1] == notes[i]; }
          }
        }
        None
      case Some(k) => Some(k + 1)
  }

  /** `notes.find(n => n.id === id)`: the first note carrying `id`, or
      `None` (JavaScript `undefined`) when there is none. */
  function Find(notes: seq<Note>, id: string): (r: Option<Note>)
    ensures r.None? <==> !HasId(notes, id)
    ensures r.Some? ==> r.value in notes && r.value.id == id
    ensures r.Some? ==> exists k :: 0 <= k < |notes| && r.value == notes[k]
                                    && forall j :: 0 <= j < k ==> notes[j].id != id
    ensures UniqueIds(notes) ==>
              forall i :: 0 <= i < |notes| && notes[i].id == id ==> r == Some(notes[i])
  {
    match FirstIndexOf(notes, id)
    case None => None
    case Some(k) => Some(notes[k])
  }

  /** `notes.filter(n => n.id !== id)`: the collection without the notes
      carrying `id`, in their stored order. */
  function Without(notes: seq<Note>, id: string): (r: seq<Note>)
    ensures |r| <= |notes|
    ensures forall n :: n in r <==> n in notes && n.id != id
    ensures !HasId(r, id)
  {
    if |notes| == 0 then []
    else (if notes[0].id == id then [] else [notes[0]]) + Without(notes[1..], id)
  }

  /** Filtering distributes over concatenation, so it keeps the relative
      order of the surviving notes. */
  lemma {:induction false} WithoutConcat(a: seq<Note>, b: seq<Note>, id: string)
    ensures Without(a + b, id) == Without(a, id) + Without(b, id)
  {
    if |a| == 0 {
      assert a + b == b;
    } else {
      assert (a + b)[1..] == a[1..] + b;
      WithoutConcat(a[1..], b, id);
    }
  }

  /** Filtering an id that no note carries leaves the collection as it is. */
  lemma {:induction false} WithoutAbsent(notes: seq<Note>, id: string)
    requires !HasId(notes, id)
    ensures Without(notes, id) == notes
  {
    if |notes| > 0 {
      assert !HasId(notes[1..], id) by {
        forall i | 0 <= i < |notes[1..]| ensures notes[1..][i].id != id {
          assert notes[1..][i] == notes[i + 1];
        }
      }
      WithoutAbsent(notes[1..], id);
    }
  }

  /** No note outside position `k` carries the id found at `k`. */
  lemma UniqueElsewhere(notes: seq<Note>, k: nat)
    requires UniqueIds(notes)
    requires k < |notes|
    ensures !HasId(notes[..k], notes[k].id)
    ensures !HasId(notes[k + 1..], notes[k].id)
  {
    var pre, post := notes[..k], notes[k + 1..];
    forall i | 0 <= i < |pre| ensures pre[i].id != notes[k].id {
      assert pre[i] == notes[i];
    }
    forall i | 0 <= i < |post| ensures post[i].id != notes[k].id {
      assert post[i] == notes[k + 1 + i];
    }
  }

  /** With unique identifiers, filtering out the id found at position `k`
      removes exactly that one note and splices the rest together. */
  lemma {:induction false} WithoutUniqueIsSplice(notes: seq<Note>, k: nat)
    requires UniqueIds(notes)
    requires k < |notes|
    ensures Without(notes, notes[k].id) == notes[..k] + notes[k + 1..]
    ensures |Without(notes, notes[k].id)| == |notes| - 1
  {
    var id := notes[k].id;
    var pre, post := notes[..k], notes[k + 1..];
    var tail := [notes[k]] + post;
    assert notes == pre + tail;
    assert tail[1..] == post;
    UniqueElsewhere(notes, k);
    WithoutAbsent(pre, id);
    WithoutAbsent(post, id);
    assert Without(tail, id) == post;
    WithoutConcat(pre, tail, id);
  }

  /** Dropping one position keeps identifiers unique. */
  lemma SpliceKeepsUnique(notes: seq<Note>, k: nat)
    requires UniqueIds(notes)
    requires k < |notes|
    ensures UniqueIds(notes[..k] + notes[k + 1..])
  {
    var pre, post := notes[..k], notes[k + 1..];
    var r := pre + post;
    forall i, j | 0 <= i < j < |r| ensures r[i].id != r[j].id {
      var i' := if i < k then i else i + 1;
      var j' := if j < k then j else j + 1;
      assert r[i] == notes[i'] by {
        if i < k { assert r[i] == pre[i]; } else { assert r[i] == post[i - k]; }
      }
      assert r[j] == notes[j'] by {
        if j < k { assert r[j] == pre[j]; } else { assert r[j] == post[j - k]; }
      }
    }
  }

  /** Filtering keeps identifiers unique. */
  lemma WithoutKeepsUnique(notes: seq<Note>, id: string)
    requires UniqueIds(notes)
    ensures UniqueIds(Without(notes, id))
  {
    var found := FirstIndexOf(notes, id);
    if found.Some? {
      WithoutUniqueIsSplice(notes, found.value);
      SpliceKeepsUnique(notes, found.value);
    } else {
      WithoutAbsent(notes, id);
    }
  }

  /** `notes.map(n => n.id === id ? {...n, title, content, updatedAt: now} : n)`:
      every note carrying `id` takes the new title, content and update time;
      identifiers, creation times, positions and all other notes stay. */
  function Touch(notes: seq<Note>, id: string, title: string, content: string, now: int): (r: seq<Note>)
    ensures |r| == |notes|
    ensures forall i :: 0 <= i < |notes| ==>
              r[i].id == notes[i].id && r[i].createdAt == notes[i].createdAt
    ensures forall i :: 0 <= i < |notes| && notes[i].id == id ==>
              r[i].title == title && r[i].content == content && r[i].updatedAt == now
    ensures forall i :: 0 <= i < |notes| && notes[i].id != id ==> r[i] == notes[i]
  {
    if |notes| == 0 then []
    else
      var n := notes[0];
      var rest := Touch(notes[1..], id, title, content, now);
      var r := [if n.id == id then n.(title := title, content := content, updatedAt := now) else n] + rest;
      assert forall i :: 1 <= i < |notes| ==> r[i] == rest[i - 1] && notes[i] == notes[1..][i - 1];
      r
  }
}
