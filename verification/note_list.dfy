/** The note list of the notes client, as a value: the note record, the id
    filter that delete applies, and what that filter keeps and drops. */
module NoteList {

  /** One note as the client holds it. `id` is the clock reading in
      milliseconds at creation; `createdAt` is the creation time as an ISO
      string and `image` an inline data URL or "" (both opaque here). */
  datatype Note = Note(id: int, title: string, content: string, image: string, createdAt: string)

  /** The number of notes in `notes` that carry `id`. */
  function Count(notes: seq<Note>, id: int): (n: nat)
    ensures n <= |notes|
    ensures n == 0 <==> forall k :: 0 <= k < |notes| ==> notes[k].id != id
  {
    if notes == [] then 0
    else
      var rest := Count(notes[1..], id);
      assert forall k :: 1 <= k < |notes| ==> notes[k] == notes[1..][k - 1];
      (if notes[0].id == id then 1 else 0) + rest
  }

  /** The list that delete leaves: the notes whose id differs from `id`. */
  function Without(notes: seq<Note>, id: int): (r: seq<Note>)
    ensures |r| == |notes| - Count(notes, id)
    ensures forall k :: 0 <= k < |r| ==> r[k].id != id
    ensures forall n :: n in r ==> n in notes
  {
    if notes == [] then []
    else if notes[0].id == id then Without(notes[1..], id)
    else [notes[0]] + Without(notes[1..], id)
  }

  /** `s` is what remains of `t` after deleting some of its elements; the
      remaining ones keep their relative order. */
  predicate IsSubsequence(s: seq<Note>, t: seq<Note>)
  {
    if s == [] then true
    else if t == [] then false
    else (s[0] == t[0] && IsSubsequence(s[1..], t[1..])) || IsSubsequence(s, t[1..])
  }

  /** No two notes of the list share an id. */
  predicate UniqueIds(notes: seq<Note>)
  {
    forall i, j :: 0 <= i < j < |notes| ==> notes[i].id != notes[j].id
  }

  /** Delete keeps the surviving notes in their original relative order. */
  lemma {:induction false} WithoutIsSubsequence(notes: seq<Note>, id: int)
    ensures IsSubsequence(Without(notes, id), notes)
  {
    if notes != [] {
      WithoutIsSubsequence(notes[1..], id);
      if notes[0].id != id {
        var r := Without(notes, id);
        assert r[0] == notes[0] && r[1..] == Without(notes[1..], id);
      }
    }
  }

  /** A subsequence of `t` that avoids `id` is at most as long as the notes of
      `t` that do not carry `id`. */
  lemma {:induction false} AvoidingSubsequenceBound(s: seq<Note>, t: seq<Note>, id: int)
    requires IsSubsequence(s, t)
    requires forall k :: 0 <= k < |s| ==> s[k].id != id
    ensures |s| <= |t| - Count(t, id)
  {
    if s != [] {
      if s[0] == t[0] && IsSubsequence(s[1..], t[1..]) {
        AvoidingSubsequenceBound(s[1..], t[1..], id);
      } else {
        AvoidingSubsequenceBound(s, t[1..], id);
      }
    }
  }

  /** Delete yields exactly the subsequence of the notes whose id is not `id`:
      a subsequence of `notes` avoiding `id` that drops only the notes carrying
      `id` is the result of delete, and the result of delete is one. */
  lemma {:induction false} WithoutCharacterized(s: seq<Note>, notes: seq<Note>, id: int)
    ensures s == Without(notes, id) <==>
      IsSubsequence(s, notes)
      && (forall k :: 0 <= k < |s| ==> s[k].id != id)
      && |s| == |notes| - Count(notes, id)
  {
    if s == Without(notes, id) {
      WithoutIsSubsequence(notes, id);
    } else if IsSubsequence(s, notes) && (forall k :: 0 <= k < |s| ==> s[k].id != id)
              && |s| == |notes| - Count(notes, id) {
      OnlyAvoidingSubsequence(s, notes, id);
      assert false;
    }
  }

  /** The uniqueness half of WithoutCharacterized. */
  lemma {:induction false} OnlyAvoidingSubsequence(s: seq<Note>, notes: seq<Note>, id: int)
    requires IsSubsequence(s, notes)
    requires forall k :: 0 <= k < |s| ==> s[k].id != id
    requires |s| == |notes| - Count(notes, id)
    ensures s == Without(notes, id)
  {
    if notes == [] {
      return;
    }
    var t := notes[1..];
    if notes[0].id == id {
      // notes[0] cannot be s[0], so s lies in the tail
      OnlyAvoidingSubsequence(s, t, id);
    } else if s == [] {
      assert false;
    } else if s[0] == notes[0] && IsSubsequence(s[1..], t) {
      OnlyAvoidingSubsequence(s[1..], t, id);
      assert s == [notes[0]] + s[1..];
    } else {
      // skipping a note that delete keeps leaves s one note too long
      AvoidingSubsequenceBound(s, t, id);
      assert false;
    }
  }

  /** Delete leaves the list as it was exactly when no note carries `id`. */
  lemma {:induction false} WithoutAbsent(notes: seq<Note>, id: int)
    ensures Without(notes, id) == notes <==> Count(notes, id) == 0
  {
    if notes != [] && Count(notes, id) == 0 {
      assert Count(notes[1..], id) == 0;
      WithoutAbsent(notes[1..], id);
    }
  }

  /** Deleting an id twice is the same as deleting it once. */
  lemma {:induction false} WithoutIdempotent(notes: seq<Note>, id: int)
    ensures Without(Without(notes, id), id) == Without(notes, id)
  {
    WithoutAbsent(Without(notes, id), id);
  }

  /** Deleting two ids gives the same list in either order. */
  lemma {:induction false} WithoutCommutes(notes: seq<Note>, a: int, b: int)
    ensures Without(Without(notes, a), b) == Without(Without(notes, b), a)
  {
    if notes != [] {
      WithoutCommutes(notes[1..], a, b);
      var x, t := notes[0], notes[1..];
      if x.id != a {
        assert Without(notes, a) == [x] + Without(t, a);
        assert ([x] + Without(t, a))[1..] == Without(t, a);
      }
      if x.id != b {
        assert Without(notes, b) == [x] + Without(t, b);
        assert ([x] + Without(t, b))[1..] == Without(t, b);
      }
      if x.id != a && x.id != b {
        assert ([x] + Without(Without(t, a), b))[1..] == Without(Without(t, a), b);
      }
    }
  }

  /** Delete keeps every note whose id differs from `id`, as many times as it
      occurs, and keeps no note carrying `id`. */
  lemma {:induction false} WithoutKeepsOthers(notes: seq<Note>, id: int, n: Note)
    ensures multiset(Without(notes, id))[n] == if n.id == id then 0 else multiset(notes)[n]
  {
    if notes != [] {
      WithoutKeepsOthers(notes[1..], id, n);
      assert notes == [notes[0]] + notes[1..];
    }
  }

  /** Deleting the id of a note just placed in front of a list that did not
      use that id gives back the list: delete undoes a submit. */
  lemma {:induction false} WithoutUndoesPrepend(notes: seq<Note>, n: Note)
    requires Count(notes, n.id) == 0
    ensures Without([n] + notes, n.id) == notes
  {
    assert ([n] + notes)[1..] == notes;
    WithoutAbsent(notes, n.id);
  }

  /** Placing a note in front keeps the ids unique exactly when its id is new. */
  lemma UniqueIdsPrepend(n: Note, notes: seq<Note>)
    ensures UniqueIds([n] + notes) <==> UniqueIds(notes) && Count(notes, n.id) == 0
  {
    var s := [n] + notes;
    if UniqueIds(s) {
      forall i, j | 0 <= i < j < |notes| ensures notes[i].id != notes[j].id {
        assert s[i + 1] == notes[i] && s[j + 1] == notes[j];
      }
      forall k | 0 <= k < |notes| ensures notes[k].id != n.id {
        assert s[0] == n && s[k + 1] == notes[k];
      }
    }
  }

  /** With unique ids, an id occurs at most once. */
  lemma {:induction false} CountUnique(notes: seq<Note>, id: int)
    requires UniqueIds(notes)
    ensures Count(notes, id) <= 1
  {
    if notes != [] {
      UniqueIdsPrepend(notes[0], notes[1..]);
      assert notes == [notes[0]] + notes[1..];
      CountUnique(notes[1..], id);
    }
  }

  /** With unique ids, deleting a present id removes exactly one note. */
  lemma {:induction false} WithoutUniqueDropsOne(notes: seq<Note>, id: int)
    requires UniqueIds(notes)
    requires exists k :: 0 <= k < |notes| && notes[k].id == id
    ensures |Without(notes, id)| == |notes| - 1
  {
    CountUnique(notes, id);
  }

  /** Delete keeps the ids unique. */
  lemma {:induction false} WithoutKeepsUnique(notes: seq<Note>, id: int)
    requires UniqueIds(notes)
    ensures UniqueIds(Without(notes, id))
  {
    if notes != [] {
      var x, t := notes[0], notes[1..];
      assert notes == [x] + t;
      UniqueIdsPrepend(x, t);
      WithoutKeepsUnique(t, id);
      if x.id != id {
        var w := Without(t, id);
        forall k | 0 <= k < |w| ensures w[k].id != x.id {
          assert w[k] in w;
        }
        UniqueIdsPrepend(x, w);
      }
    }
  }
}
