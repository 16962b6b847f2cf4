/** The note list of the Markdown-Notes application, as values.

    A note is an id and a markdown body; the application keeps an ordered list
    of them, most recently created or edited first. This module holds the pure
    operations on that list (lookup, lookup with fallback, filtering out an id,
    and the list that an edit produces) and the lemmas that say what they do.
 */
module Notes {

  datatype Option<T> = None | Some(value: T)

  /** One note: its id (generated once, never changed) and its markdown text. */
  datatype Note = Note(id: string, body: string)

  /** The body every freshly created note starts with. */
  const Placeholder: string := "# Type your markdown note's title here"

  /** The ids of a list of notes, in list order. */
  function Ids(notes: seq<Note>): (r: seq<string>)
    ensures |r| == |notes|
    ensures forall i :: 0 <= i < |notes| ==> r[i] == notes[i].id
  {
    if notes == [] then [] else [notes[0].id] + Ids(notes[1..])
  }

  /** No two notes of the list share an id. */
  predicate UniqueIds(notes: seq<Note>)
  {
    forall i, j :: 0 <= i < j < |notes| ==> notes[i].id != notes[j].id
  }

  lemma InIds(notes: seq<Note>, id: string)
    ensures id in Ids(notes) <==> exists k :: 0 <= k < |notes| && notes[k].id == id
  {
    if id in Ids(notes) {
      var k :| 0 <= k < |Ids(notes)| && Ids(notes)[k] == id;
      assert notes[k].id == id;
    }
  }

  /** Array.prototype.find on the list with the test `note.id === id`:
      the first note carrying `id`, or nothing when no note does. */
  function Find(notes: seq<Note>, id: string): (r: Option<Note>)
    ensures r.None? <==> id !in Ids(notes)
    ensures r.Some? ==> r.value.id == id && r.value in notes
  {
    if notes == [] then None
    else if notes[0].id == id then Some(notes[0])
    else
      assert Ids(notes) == [notes[0].id] + Ids(notes[1..]);
      Find(notes[1..], id)
  }

  /** The note Find returns is the first one with the id: when the note at
      index `k` has the id and none before it does, Find returns that note. */
  lemma {:induction false} FindFirst(notes: seq<Note>, id: string, k: nat)
    requires k < |notes| && notes[k].id == id
    requires forall j :: 0 <= j < k ==> notes[j].id != id
    ensures Find(notes, id) == Some(notes[k])
  {
    if k > 0 {
      FindFirst(notes[1..], id, k - 1);
    }
  }

  /** The note shown and edited as current: the note whose id is `currentId`,
      else the first note of the list, else nothing on an empty list
      (`notes.find(...) || notes[0]`). */
  function FindCurrent(notes: seq<Note>, currentId: string): (r: Option<Note>)
    ensures r.None? <==> notes == []
    ensures currentId in Ids(notes) ==> r.Some? && r.value.id == currentId && r.value in notes
    ensures currentId in Ids(notes) ==> r == Find(notes, currentId)
    ensures currentId !in Ids(notes) && notes != [] ==> r == Some(notes[0])
  {
    match Find(notes, currentId)
    case Some(n) => Some(n)
    case None => if notes != [] then Some(notes[0]) else None
  }

  /** The list with every note carrying `id` removed
      (`filter(oldNote => oldNote.id != id)`). */
  function Without(notes: seq<Note>, id: string): (r: seq<Note>)
    ensures |r| <= |notes|
    ensures id !in Ids(r)
    ensures id !in Ids(notes) ==> r == notes
  {
    if notes == [] then []
    else
      var w := Without(notes[1..], id);
      assert Ids(notes) == [notes[0].id] + Ids(notes[1..]);
      if notes[0].id == id then w
      else
        assert ([notes[0]] + w)[1..] == w;
        [notes[0]] + w
  }

  /** A note survives deletion of `id` if and only if it has another id. */
  lemma {:induction false} WithoutMembers(notes: seq<Note>, id: string)
    ensures forall n :: n in Without(notes, id) <==> n in notes && n.id != id
  {
    if notes != [] {
      WithoutMembers(notes[1..], id);
      assert notes == [notes[0]] + notes[1..];
    }
  }

  /** Filtering distributes over concatenation: relative order is kept. */
  lemma {:induction false} WithoutAppend(a: seq<Note>, b: seq<Note>, id: string)
    ensures Without(a + b, id) == Without(a, id) + Without(b, id)
  {
    if a == [] {
      assert a + b == b;
    } else {
      assert (a + b)[1..] == a[1..] + b;
      WithoutAppend(a[1..], b, id);
    }
  }

  /** The note at index `k` is the only one carrying its id; other ids may
      repeat. */
  predicate SoleAt(notes: seq<Note>, k: nat)
  {
    k < |notes| && forall j :: 0 <= j < |notes| && j != k ==> notes[j].id != notes[k].id
  }

  /** With unique ids, every note is the only one carrying its id. */
  lemma UniqueSoleAt(notes: seq<Note>, k: nat)
    requires UniqueIds(notes)
    requires k < |notes|
    ensures SoleAt(notes, k)
  {
    forall j | 0 <= j < |notes| && j != k ensures notes[j].id != notes[k].id {
      if j < k { assert notes[j].id != notes[k].id; } else { assert notes[k].id != notes[j].id; }
    }
  }

  /** The id of a note that is the only one carrying it occurs neither before
      nor after it. */
  lemma UniqueElsewhere(notes: seq<Note>, k: nat)
    requires SoleAt(notes, k)
    ensures notes[k].id !in Ids(notes[..k])
    ensures notes[k].id !in Ids(notes[k + 1..])
  {
    var id := notes[k].id;
    forall j | 0 <= j < k ensures Ids(notes[..k])[j] != id {
      assert notes[..k][j] == notes[j];
    }
    var tail := notes[k + 1..];
    forall j | 0 <= j < |tail| ensures Ids(tail)[j] != id {
      assert tail[j] == notes[k + 1 + j];
    }
  }

  /** Deleting the id of the note at index `k`, when no other note carries
      it, removes exactly that note and keeps the others in order. */
  lemma DeleteUniqueRemovesOne(notes: seq<Note>, k: nat)
    requires SoleAt(notes, k)
    ensures Without(notes, notes[k].id) == notes[..k] + notes[k + 1..]
    ensures |Without(notes, notes[k].id)| == |notes| - 1
  {
    var id := notes[k].id;
    assert notes == notes[..k] + ([notes[k]] + notes[k + 1..]);
    WithoutAppend(notes[..k], [notes[k]] + notes[k + 1..], id);
    WithoutAppend([notes[k]], notes[k + 1..], id);
    UniqueElsewhere(notes, k);
    assert Without([notes[k]], id) == [];
  }

  /** A note whose id the list lacks can go in front of a list of unique ids. */
  lemma ConsUnique(n: Note, notes: seq<Note>)
    requires UniqueIds(notes)
    requires n.id !in Ids(notes)
    ensures UniqueIds([n] + notes)
  {
    var r := [n] + notes;
    forall i, j | 0 <= i < j < |r| ensures r[i].id != r[j].id {
      assert r[j] == notes[j - 1];
      if i > 0 { assert r[i] == notes[i - 1]; } else { assert Ids(notes)[j - 1] == notes[j - 1].id; }
    }
  }

  /** Deleting keeps ids unique. */
  lemma {:induction false} DeleteKeepsUnique(notes: seq<Note>, id: string)
    requires UniqueIds(notes)
    ensures UniqueIds(Without(notes, id))
  {
    if notes != [] {
      var rest := notes[1..];
      assert UniqueIds(rest) by {
        forall i, j | 0 <= i < j < |rest| ensures rest[i].id != rest[j].id {
          assert rest[i] == notes[i + 1] && rest[j] == notes[j + 1];
        }
      }
      DeleteKeepsUnique(rest, id);
      if notes[0].id != id {
        var w := Without(rest, id);
        UniqueSoleAt(notes, 0);
        UniqueElsewhere(notes, 0);
        WithoutMembers(rest, id);
        forall j | 0 <= j < |w| ensures Ids(w)[j] != notes[0].id {
          assert w[j] in rest;
          var m :| 0 <= m < |rest| && rest[m] == w[j];
          assert Ids(rest)[m] == w[j].id;
        }
        ConsUnique(notes[0], w);
      }
    }
  }

  /** The matching notes of the list, each with its body replaced by `text`. */
  function Rewritten(notes: seq<Note>, id: string, text: string): (r: seq<Note>)
    ensures forall n :: n in r ==> n == Note(id, text)
  {
    if notes == [] then []
    else if notes[0].id == id then [notes[0].(body := text)] + Rewritten(notes[1..], id, text)
    else Rewritten(notes[1..], id, text)
  }

  lemma {:induction false} RewrittenAppend(a: seq<Note>, b: seq<Note>, id: string, text: string)
    ensures Rewritten(a + b, id, text) == Rewritten(a, id, text) + Rewritten(b, id, text)
  {
    if a == [] {
      assert a + b == b;
    } else {
      assert (a + b)[1..] == a[1..] + b;
      RewrittenAppend(a[1..], b, id, text);
    }
  }

  lemma {:induction false} RewrittenAbsent(notes: seq<Note>, id: string, text: string)
    requires id !in Ids(notes)
    ensures Rewritten(notes, id, text) == []
  {
    if notes != [] {
      RewrittenAbsent(notes[1..], id, text);
    }
  }

  /** Every note lands either among the rewritten ones or among the others. */
  lemma {:induction false} RewrittenWithoutLength(notes: seq<Note>, id: string, text: string)
    ensures |Rewritten(notes, id, text)| + |Without(notes, id)| == |notes|
  {
    if notes != [] {
      RewrittenWithoutLength(notes[1..], id, text);
    }
  }

  function Reverse<T>(s: seq<T>): (r: seq<T>)
    ensures |r| == |s|
  {
    if s == [] then [] else Reverse(s[1..]) + [s[0]]
  }

  lemma AppendAssoc<T>(a: seq<T>, b: seq<T>, c: seq<T>)
    ensures (a + b) + c == a + (b + c)
  {
  }

  /** A prefix one longer is the prefix with the next element appended. */
  lemma TakeSnoc<T>(s: seq<T>, i: nat)
    requires i < |s|
    ensures s[..i + 1] == s[..i] + [s[i]]
  {
  }

  lemma {:induction false} ReverseAppend<T>(s: seq<T>, x: T)
    ensures Reverse(s + [x]) == [x] + Reverse(s)
  {
    if s != [] {
      assert (s + [x])[1..] == s[1..] + [x];
      ReverseAppend(s[1..], x);
    }
  }

  /** The list that editing the note with id `id` produces: the matching notes,
      in the reverse of their order (each one was put in front of the result
      when met), with body `text`, followed by all other notes in their order. */
  function Updated(notes: seq<Note>, id: string, text: string): seq<Note>
  {
    Reverse(Rewritten(notes, id, text)) + Without(notes, id)
  }

  /** One more note at the end of the input: a match goes in front, any other
      note at the back. */
  lemma UpdatedSnoc(notes: seq<Note>, n: Note, id: string, text: string)
    ensures Updated(notes + [n], id, text)
         == if n.id == id then [n.(body := text)] + Updated(notes, id, text)
            else Updated(notes, id, text) + [n]
  {
    var rw, w := Rewritten(notes, id, text), Without(notes, id);
    RewrittenAppend(notes, [n], id, text);
    WithoutAppend(notes, [n], id);
    if n.id == id {
      var m := n.(body := text);
      assert Rewritten([n], id, text) == [m];
      assert Without([n], id) == [];
      ReverseAppend(rw, m);
      assert w + [] == w;
      AppendAssoc([m], Reverse(rw), w);
    } else {
      assert Rewritten([n], id, text) == [];
      assert Without([n], id) == [n];
      assert rw + [] == rw;
      AppendAssoc(Reverse(rw), w, [n]);
    }
  }

  /** An edit never changes the number of notes. */
  lemma UpdatedLength(notes: seq<Note>, id: string, text: string)
    ensures |Updated(notes, id, text)| == |notes|
  {
    RewrittenWithoutLength(notes, id, text);
  }

  /** An edit when no note has the id gives back the very same list. */
  lemma UpdatedNoMatch(notes: seq<Note>, id: string, text: string)
    requires id !in Ids(notes)
    ensures Updated(notes, id, text) == notes
  {
    RewrittenAbsent(notes, id, text);
  }

  /** An edit when exactly the note at index `k` has the id (other ids may
      repeat): that note, with the new body, comes first, and the others follow
      in their original order. */
  lemma UpdatedUniqueMatch(notes: seq<Note>, k: nat, text: string)
    requires SoleAt(notes, k)
    ensures Updated(notes, notes[k].id, text) == [Note(notes[k].id, text)] + notes[..k] + notes[k + 1..]
  {
    DeleteUniqueRemovesOne(notes, k);
    RewrittenUnique(notes, k, text);
    assert Reverse([Note(notes[k].id, text)]) == [Note(notes[k].id, text)];
  }

  /** The same, read off the result: its first note is the edited one, and
      the rest is exactly the list with that id deleted. */
  lemma UpdatedSoleMatchFront(notes: seq<Note>, k: nat, text: string)
    requires SoleAt(notes, k)
    ensures |Updated(notes, notes[k].id, text)| == |notes|
    ensures Updated(notes, notes[k].id, text)[0] == Note(notes[k].id, text)
    ensures Updated(notes, notes[k].id, text)[1..] == Without(notes, notes[k].id)
  {
    UpdatedUniqueMatch(notes, k, text);
    DeleteUniqueRemovesOne(notes, k);
    AppendAssoc([Note(notes[k].id, text)], notes[..k], notes[k + 1..]);
  }

  /** An edit when exactly one note has the id, stated without naming its
      index; unique ids give such a note whenever the id occurs. */
  lemma UpdatedSoleFront(notes: seq<Note>, id: string, text: string)
    ensures UniqueIds(notes) && id in Ids(notes) ==> exists k: nat :: SoleAt(notes, k) && notes[k].id == id
    ensures (exists k: nat :: SoleAt(notes, k) && notes[k].id == id) ==>
              |Updated(notes, id, text)| == |notes| &&
              Updated(notes, id, text)[0] == Note(id, text) &&
              Updated(notes, id, text)[1..] == Without(notes, id)
  {
    if UniqueIds(notes) && id in Ids(notes) {
      InIds(notes, id);
      var k :| 0 <= k < |notes| && notes[k].id == id;
      UniqueSoleAt(notes, k);
    }
    if k: nat :| SoleAt(notes, k) && notes[k].id == id {
      UpdatedSoleMatchFront(notes, k, text);
    }
  }

  lemma RewrittenUnique(notes: seq<Note>, k: nat, text: string)
    requires SoleAt(notes, k)
    ensures Rewritten(notes, notes[k].id, text) == [Note(notes[k].id, text)]
  {
    var id := notes[k].id;
    assert notes == notes[..k] + ([notes[k]] + notes[k + 1..]);
    RewrittenAppend(notes[..k], [notes[k]] + notes[k + 1..], id, text);
    RewrittenAppend([notes[k]], notes[k + 1..], id, text);
    UniqueElsewhere(notes, k);
    RewrittenAbsent(notes[..k], id, text);
    RewrittenAbsent(notes[k + 1..], id, text);
    assert Rewritten([notes[k]], id, text) == [Note(id, text)];
  }

  /** An edit leaves every note with another id exactly as it was (it is in the
      result if and only if it was in the list), and every note carrying the id
      in the result has the new body. */
  lemma UpdatedKeepsOthers(notes: seq<Note>, id: string, text: string)
    ensures forall n: Note :: n.id != id ==> (n in Updated(notes, id, text) <==> n in notes)
    ensures forall n: Note :: n in Updated(notes, id, text) && n.id == id ==> n.body == text
  {
    var rw := Rewritten(notes, id, text);
    WithoutMembers(notes, id);
    forall n | n in Reverse(rw) ensures n in rw {
      ReverseMembers(rw, n);
    }
  }

  lemma {:induction false} ReverseMembers<T>(s: seq<T>, x: T)
    ensures x in Reverse(s) <==> x in s
  {
    if s != [] {
      ReverseMembers(s[1..], x);
      assert s == [s[0]] + s[1..];
    }
  }

  /** An edit keeps ids unique. */
  lemma UpdatedKeepsUnique(notes: seq<Note>, id: string, text: string)
    requires UniqueIds(notes)
    ensures UniqueIds(Updated(notes, id, text))
  {
    InIds(notes, id);
    if id in Ids(notes) {
      var k :| 0 <= k < |notes| && notes[k].id == id;
      UniqueSoleAt(notes, k);
      UpdatedUniqueMatch(notes, k, text);
      DeleteUniqueRemovesOne(notes, k);
      DeleteKeepsUnique(notes, id);
      AppendAssoc([Note(id, text)], notes[..k], notes[k + 1..]);
      ConsUnique(Note(id, text), Without(notes, id));
    } else {
      UpdatedNoMatch(notes, id, text);
    }
  }

  /** Putting each match in front (rather than at the back) cannot be observed:
      all matches become the same note, so the result equals the matches in
      list order followed by the others. */
  lemma UpdatedReversalInvisible(notes: seq<Note>, id: string, text: string)
    ensures Updated(notes, id, text) == Rewritten(notes, id, text) + Without(notes, id)
  {
    AllAlikeReverse(Rewritten(notes, id, text), Note(id, text));
  }

  lemma {:induction false} AllAlikeReverse<T>(s: seq<T>, x: T)
    requires forall y :: y in s ==> y == x
    ensures Reverse(s) == s
  {
    if s != [] {
      assert forall y :: y in s[1..] ==> y in s;
      AllAlikeReverse(s[1..], x);
      assert s[1..] + [s[0]] == s by {
        forall i | 0 <= i < |s| ensures (s[1..] + [s[0]])[i] == s[i] {
          assert s[i] in s && s[0] in s;
          if i < |s| - 1 { assert s[i + 1] in s; }
        }
      }
    }
  }

  /** Editing while the current id is stale: the current note falls back to the
      first note, yet the edit leaves the list untouched, so typing into that
      fallback note changes nothing. */
  lemma StaleSelectionEditIsNoop(notes: seq<Note>, currentId: string, text: string)
    requires notes != []
    requires currentId !in Ids(notes)
    ensures FindCurrent(notes, currentId) == Some(notes[0])
    ensures Updated(notes, currentId, text) == notes
    ensures text != notes[0].body ==> FindCurrent(Updated(notes, currentId, text), currentId).value.body != text
  {
    UpdatedNoMatch(notes, currentId, text);
  }

  /** After the current note is deleted, the current note falls back to the
      first remaining note, or to nothing when none remains. */
  lemma DeleteCurrentFallsBack(notes: seq<Note>, currentId: string)
    ensures FindCurrent(Without(notes, currentId), currentId)
         == if Without(notes, currentId) == [] then None else Some(Without(notes, currentId)[0])
  {
  }

  /** The initial selection (the first note's id, or "" on an empty list)
      resolves to the first note, or to nothing on an empty list. */
  lemma InitialSelectionResolves(notes: seq<Note>)
    ensures FindCurrent(notes, if notes != [] then notes[0].id else "")
         == if notes != [] then Some(notes[0]) else None
  {
    if notes != [] {
      FindFirst(notes, notes[0].id, 0);
    }
  }
}
