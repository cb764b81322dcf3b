/** The note collection of the notes page and the four transformations
    the page applies to it: create (prepend), update (map by id), delete
    (filter by id) and search (case-insensitive substring filter).
    Identifiers and clock readings are passed in by the caller. */
module Notes {
  import opened Text
  import opened Seqs

  /** A note. Timestamps are clock readings in milliseconds. */
  datatype Note = Note(id: string, title: string, content: string, createdAt: nat, updatedAt: nat)

  datatype Option<T> = None | Some(value: T) {
    function GetOr(default: T): T {
      match this
      case Some(v) => v
      case None => default
    }
  }

  /** A `Partial<Note>`: a field is `Some` when the update object has that key. */
  datatype Patch = Patch(id: Option<string>, title: Option<string>, content: Option<string>,
                         createdAt: Option<nat>, updatedAt: Option<nat>)

  /** The update the edit dialog sends: only the title and the content. */
  function EditPatch(title: string, content: string): Patch {
    Patch(None, Some(title), Some(content), None, None)
  }

  /** The ids of the collection, in order. */
  function Ids(notes: seq<Note>): (r: seq<string>)
    ensures |r| == |notes|
    ensures forall k :: 0 <= k < |notes| ==> r[k] == notes[k].id
  {
    seq(|notes|, k requires 0 <= k < |notes| => notes[k].id)
  }

  /** No two notes of the collection share an id. */
  predicate UniqueIds(notes: seq<Note>) {
    forall i, j :: 0 <= i < j < |notes| ==> Ids(notes)[i] != Ids(notes)[j]
  }

  /** Every note was last updated no earlier than it was created. */
  predicate TimesOrdered(notes: seq<Note>) {
    forall k :: 0 <= k < |notes| ==> notes[k].createdAt <= notes[k].updatedAt
  }

  // ---------------------------------------------------------------- create

  /** `createNote`: a blank title is refused and the collection stays as it
      is; otherwise a note holding the title and content exactly as given
      (not trimmed) is put in front of the existing notes. `createdAt` and
      `updatedAt` are the two clock readings `createNote` takes. */
  function Created(notes: seq<Note>, title: string, content: string, id: string,
                   createdAt: nat, updatedAt: nat): (r: seq<Note>)
    ensures IsBlank(title) ==> r == notes
    ensures !IsBlank(title) ==>
      |r| == |notes| + 1 && r[1..] == notes && r[0] == Note(id, title, content, createdAt, updatedAt)
  {
    if IsBlank(title) then notes else [Note(id, title, content, createdAt, updatedAt)] + notes
  }

  /** A title made only of whitespace (the empty title included) leaves
      the collection unchanged. */
  lemma CreateBlankIsNoOp(notes: seq<Note>, title: string, content: string, id: string,
                          createdAt: nat, updatedAt: nat)
    requires forall k :: 0 <= k < |title| ==> IsSpace(title[k])
    ensures Created(notes, title, content, id, createdAt, updatedAt) == notes
  {
    BlankIffAllSpace(title);
  }

  /** A title with some non-whitespace character adds exactly one note, in
      front, holding the untrimmed inputs; the old notes follow in order. */
  lemma CreatePrepends(notes: seq<Note>, title: string, content: string, id: string,
                       createdAt: nat, updatedAt: nat)
    requires exists k :: 0 <= k < |title| && !IsSpace(title[k])
    ensures var r := Created(notes, title, content, id, createdAt, updatedAt);
      |r| == |notes| + 1 &&
      r[0].id == id && r[0].title == title && r[0].content == content &&
      r[0].createdAt == createdAt && r[0].updatedAt == updatedAt &&
      forall k :: 0 <= k < |notes| ==> r[k + 1] == notes[k]
  {
    BlankIffAllSpace(title);
  }

  /** With a fresh id, creating keeps the ids unique. */
  lemma CreateKeepsIdsUnique(notes: seq<Note>, title: string, content: string, id: string,
                             createdAt: nat, updatedAt: nat)
    requires UniqueIds(notes)
    requires id !in Ids(notes)
    ensures UniqueIds(Created(notes, title, content, id, createdAt, updatedAt))
  {
    if !IsBlank(title) {
      forall j | 0 <= j < |notes| ensures notes[j].id != id {
        assert Ids(notes)[j] == notes[j].id;
      }
      ConsKeepsIdsUnique(Note(id, title, content, createdAt, updatedAt), notes);
    }
  }

  /** When the clock does not run backwards between its two readings,
      creating keeps every note's `createdAt <= updatedAt`. */
  lemma CreateKeepsTimesOrdered(notes: seq<Note>, title: string, content: string, id: string,
                                createdAt: nat, updatedAt: nat)
    requires TimesOrdered(notes)
    requires createdAt <= updatedAt
    ensures TimesOrdered(Created(notes, title, content, id, createdAt, updatedAt))
  {
    var r := Created(notes, title, content, id, createdAt, updatedAt);
    if !IsBlank(title) {
      forall k | 0 <= k < |r| ensures r[k].createdAt <= r[k].updatedAt {
        if k > 0 {
          assert r[k] == notes[k - 1];
        }
      }
    }
  }

  // ---------------------------------------------------------------- update

  /** `{ ...note, ...updates, updatedAt: new Date() }` with the clock
      reading `t`: the fields present in the patch replace the note's, and
      `updatedAt` is always `t`. */
  function Apply(n: Note, patch: Patch, t: nat): Note {
    Note(patch.id.GetOr(n.id), patch.title.GetOr(n.title), patch.content.GetOr(n.content),
         patch.createdAt.GetOr(n.createdAt), t)
  }

  /** `updateNote`: every note whose id equals `id` is patched; every other
      note, the length and the order stay as they were. The `.map` callback
      reads the clock once for each matching note, so `now[k]` is the
      reading taken while visiting position `k`. */
  function Updated(notes: seq<Note>, id: string, patch: Patch, now: seq<nat>): (r: seq<Note>)
    requires |now| == |notes|
    ensures |r| == |notes|
    ensures forall k :: 0 <= k < |notes| ==>
      r[k] == if notes[k].id == id then Apply(notes[k], patch, now[k]) else notes[k]
  {
    if notes == [] then []
    else [if notes[0].id == id then Apply(notes[0], patch, now[0]) else notes[0]]
         + Updated(notes[1..], id, patch, now[1..])
  }

  /** Updating an id no note has returns the collection unchanged. */
  lemma UpdateAbsentIsNoOp(notes: seq<Note>, id: string, patch: Patch, now: seq<nat>)
    requires |now| == |notes|
    requires id !in Ids(notes)
    ensures Updated(notes, id, patch, now) == notes
  {
    var r := Updated(notes, id, patch, now);
    forall k | 0 <= k < |notes| ensures r[k] == notes[k] {
      assert Ids(notes)[k] == notes[k].id;
    }
  }

  /** For a matching note, each field the patch holds takes the patch's
      value, each field it lacks keeps the old one, and `updatedAt` becomes
      the clock reading whatever the patch says about it. */
  lemma UpdateMergesPatch(notes: seq<Note>, id: string, patch: Patch, now: seq<nat>, k: nat)
    requires |now| == |notes|
    requires k < |notes| && notes[k].id == id
    ensures var n, m := notes[k], Updated(notes, id, patch, now)[k];
      m.updatedAt == now[k] &&
      (patch.id.None? ==> m.id == n.id) && (patch.id.Some? ==> m.id == patch.id.value) &&
      (patch.title.None? ==> m.title == n.title) && (patch.title.Some? ==> m.title == patch.title.value) &&
      (patch.content.None? ==> m.content == n.content) && (patch.content.Some? ==> m.content == patch.content.value) &&
      (patch.createdAt.None? ==> m.createdAt == n.createdAt) &&
      (patch.createdAt.Some? ==> m.createdAt == patch.createdAt.value)
  {
  }

  /** The edit dialog's update sets the title, the content and `updatedAt`
      of the matching note, keeping its id and `createdAt`. */
  lemma EditSetsTitleAndContent(notes: seq<Note>, id: string, title: string, content: string,
                                now: seq<nat>, k: nat)
    requires |now| == |notes|
    requires k < |notes| && notes[k].id == id
    ensures Updated(notes, id, EditPatch(title, content), now)[k] ==
      Note(id, title, content, notes[k].createdAt, now[k])
  {
  }

  /** With unique ids, an update of the note at position `k` touches that
      note only. */
  lemma UpdateTouchesOne(notes: seq<Note>, patch: Patch, now: seq<nat>, k: nat)
    requires |now| == |notes|
    requires UniqueIds(notes)
    requires k < |notes|
    ensures forall j :: 0 <= j < |notes| && j != k ==>
      Updated(notes, notes[k].id, patch, now)[j] == notes[j]
  {
    forall j | 0 <= j < |notes| && j != k ensures notes[j].id != notes[k].id {
      if j < k {
        assert Ids(notes)[j] != Ids(notes)[k];
      } else {
        assert Ids(notes)[k] != Ids(notes)[j];
      }
    }
  }

  /** An update without an `id` key leaves the ids, in order, as they were. */
  lemma UpdateKeepsIds(notes: seq<Note>, id: string, patch: Patch, now: seq<nat>)
    requires |now| == |notes|
    requires patch.id.None?
    ensures Ids(Updated(notes, id, patch, now)) == Ids(notes)
  {
  }

  /** An update without a `createdAt` key, whose clock readings are no
      earlier than the matching notes' `createdAt`, keeps `createdAt <= updatedAt`. */
  lemma UpdateKeepsTimesOrdered(notes: seq<Note>, id: string, patch: Patch, now: seq<nat>)
    requires |now| == |notes|
    requires TimesOrdered(notes)
    requires patch.createdAt.None?
    requires forall k :: 0 <= k < |notes| && notes[k].id == id ==> notes[k].createdAt <= now[k]
    ensures TimesOrdered(Updated(notes, id, patch, now))
  {
  }

  // ---------------------------------------------------------------- delete

  /** The test `deleteNote` filters with. */
  function Survives(id: string): Note -> bool {
    (n: Note) => n.id != id
  }

  /** `deleteNote`: the notes whose id differs from `id`. */
  function Deleted(notes: seq<Note>, id: string): (r: seq<Note>)
    ensures forall k :: 0 <= k < |r| ==> r[k] in notes && r[k].id != id
    ensures forall k :: 0 <= k < |notes| && notes[k].id != id ==> notes[k] in r
  {
    Filter(notes, Survives(id))
  }

  /** The remaining notes keep their relative order. */
  lemma DeleteKeepsOrder(notes: seq<Note>, id: string)
    ensures IsSubseq(Deleted(notes, id), notes)
  {
    FilterIsSubseq(notes, Survives(id));
  }

  /** Each note with another id remains exactly as often as it occurred;
      a note with the id does not remain. */
  lemma DeleteMultiplicity(notes: seq<Note>, id: string, n: Note)
    ensures multiset(Deleted(notes, id))[n] == if n.id != id then multiset(notes)[n] else 0
  {
    FilterMultiplicity(notes, Survives(id), n);
  }

  /** Deleting an id no note has returns the collection unchanged. */
  lemma DeleteAbsentIsNoOp(notes: seq<Note>, id: string)
    requires id !in Ids(notes)
    ensures Deleted(notes, id) == notes
  {
    forall k | 0 <= k < |notes| ensures Survives(id)(notes[k]) {
      assert Ids(notes)[k] == notes[k].id;
    }
    FilterAllPass(notes, Survives(id));
  }

  /** Deleting twice is deleting once. */
  lemma DeleteIdempotent(notes: seq<Note>, id: string)
    ensures Deleted(Deleted(notes, id), id) == Deleted(notes, id)
  {
    FilterIdempotent(notes, Survives(id));
  }

  /** With unique ids, deleting an id that is present removes exactly one note. */
  lemma {:induction false} DeleteRemovesOne(notes: seq<Note>, id: string)
    requires UniqueIds(notes)
    requires id in Ids(notes)
    ensures |Deleted(notes, id)| == |notes| - 1
  {
    var rest := notes[1..];
    assert Ids(rest) == Ids(notes)[1..];
    assert UniqueIds(rest);
    assert Deleted(notes, id) == (if notes[0].id != id then [notes[0]] else []) + Deleted(rest, id);
    if notes[0].id == id {
      assert id !in Ids(rest) by {
        forall j | 0 <= j < |rest| ensures Ids(rest)[j] != id {
          assert Ids(notes)[0] != Ids(notes)[j + 1];
        }
      }
      DeleteAbsentIsNoOp(rest, id);
    } else {
      assert id in Ids(rest);
      DeleteRemovesOne(rest, id);
    }
  }

  /** Putting a note in front of a collection with unique ids keeps them
      unique when no note of the collection has the new note's id. */
  lemma ConsKeepsIdsUnique(n: Note, notes: seq<Note>)
    requires UniqueIds(notes)
    requires forall j :: 0 <= j < |notes| ==> notes[j].id != n.id
    ensures UniqueIds([n] + notes)
  {
    var r := [n] + notes;
    forall i, j | 0 <= i < j < |r| ensures Ids(r)[i] != Ids(r)[j] {
      assert r[j] == notes[j - 1];
      if i > 0 {
        assert r[i] == notes[i - 1];
        assert Ids(notes)[i - 1] != Ids(notes)[j - 1];
      }
    }
  }

  /** The tail of a collection with unique ids has unique ids, none of
      them the head's. */
  lemma TailIdsUnique(notes: seq<Note>)
    requires notes != [] && UniqueIds(notes)
    ensures UniqueIds(notes[1..])
    ensures forall m :: 0 <= m < |notes| - 1 ==> notes[1..][m].id != notes[0].id
  {
    assert Ids(notes[1..]) == Ids(notes)[1..];
    forall m | 0 <= m < |notes| - 1 ensures notes[1..][m].id != notes[0].id {
      assert Ids(notes)[0] != Ids(notes)[m + 1];
    }
  }

  /** Deleting keeps the ids unique. */
  lemma {:induction false} DeleteKeepsIdsUnique(notes: seq<Note>, id: string)
    requires UniqueIds(notes)
    ensures UniqueIds(Deleted(notes, id))
  {
    if notes != [] {
      var rest := notes[1..];
      TailIdsUnique(notes);
      DeleteKeepsIdsUnique(rest, id);
      var d := Deleted(rest, id);
      assert Deleted(notes, id) == (if notes[0].id != id then [notes[0]] else []) + d;
      if notes[0].id != id {
        forall j | 0 <= j < |d| ensures d[j].id != notes[0].id {
          var m :| 0 <= m < |rest| && rest[m] == d[j];
        }
        ConsKeepsIdsUnique(notes[0], d);
      } else {
        assert Deleted(notes, id) == d;
      }
    }
  }

  // ---------------------------------------------------------------- search

  /** The test `filteredNotes` applies: the lower-cased title or the
      lower-cased content contains the lower-cased query. */
  predicate Matches(n: Note, query: string, lower: char -> char) {
    Contains(LowerAll(n.title, lower), LowerAll(query, lower)) ||
    Contains(LowerAll(n.content, lower), LowerAll(query, lower))
  }

  function Matcher(query: string, lower: char -> char): Note -> bool {
    (n: Note) => Matches(n, query, lower)
  }

  /** `filteredNotes`, for any per-character case mapping `lower`: the
      notes that match, and every note that matches. */
  function Search(notes: seq<Note>, query: string, lower: char -> char): (r: seq<Note>)
    ensures forall k :: 0 <= k < |r| ==> r[k] in notes && Matches(r[k], query, lower)
    ensures forall k :: 0 <= k < |notes| && Matches(notes[k], query, lower) ==> notes[k] in r
  {
    Filter(notes, Matcher(query, lower))
  }

  /** The search result keeps the collection's order. */
  lemma SearchKeepsOrder(notes: seq<Note>, query: string, lower: char -> char)
    ensures IsSubseq(Search(notes, query, lower), notes)
  {
    FilterIsSubseq(notes, Matcher(query, lower));
  }

  /** Every matching note remains as often as it occurred; no other note remains. */
  lemma SearchMultiplicity(notes: seq<Note>, query: string, lower: char -> char, n: Note)
    ensures multiset(Search(notes, query, lower))[n] ==
      if Matches(n, query, lower) then multiset(notes)[n] else 0
  {
    FilterMultiplicity(notes, Matcher(query, lower), n);
  }

  /** The empty query shows the whole collection. */
  lemma SearchEmptyQueryIsAll(notes: seq<Note>, lower: char -> char)
    ensures Search(notes, [], lower) == notes
  {
    forall k | 0 <= k < |notes| ensures Matcher([], lower)(notes[k]) {
      ContainsEmpty(LowerAll(notes[k].title, lower));
    }
    FilterAllPass(notes, Matcher([], lower));
  }

  /** A note matches exactly when the lower-cased query occurs at some
      position of its lower-cased title or of its lower-cased content. */
  lemma MatchesIffOccurs(n: Note, query: string, lower: char -> char)
    ensures Matches(n, query, lower) <==>
      (exists i :: OccursAt(LowerAll(n.title, lower), LowerAll(query, lower), i)) ||
      (exists i :: OccursAt(LowerAll(n.content, lower), LowerAll(query, lower), i))
  {
  }
}
