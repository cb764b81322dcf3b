/** The page component's `notes` state and the handlers that replace it
    through `setNotes`. Draft and dialog state, rendering and the
    localStorage mirror are not part of this model. */
module Store {
  import opened Text
  import opened Seqs
  import opened Notes

  class NoteStore {
    /** The `notes` state, newest first. */
    var notes: seq<Note>

    /** `useState<Note[]>([])`: the page starts with no notes. */
    constructor ()
      ensures notes == []
    {
      notes := [];
    }

    /** `createNote` with the draft's title and content, the id the page
        derives from the clock and the clock's two readings. */
    method Create(title: string, content: string, id: string, createdAt: nat, updatedAt: nat)
      modifies this
      ensures notes == Created(old(notes), title, content, id, createdAt, updatedAt)
      ensures (forall k :: 0 <= k < |title| ==> IsSpace(title[k])) ==> notes == old(notes)
      ensures UniqueIds(old(notes)) && id !in Ids(old(notes)) ==> UniqueIds(notes)
      ensures TimesOrdered(old(notes)) && createdAt <= updatedAt ==> TimesOrdered(notes)
    {
      var before := notes;
      notes := Created(notes, title, content, id, createdAt, updatedAt);
      assert (forall k :: 0 <= k < |title| ==> IsSpace(title[k])) ==> notes == before by {
        BlankIffAllSpace(title);
      }
      assert UniqueIds(before) && id !in Ids(before) ==> UniqueIds(notes) by {
        if UniqueIds(before) && id !in Ids(before) {
          CreateKeepsIdsUnique(before, title, content, id, createdAt, updatedAt);
        }
      }
      assert TimesOrdered(before) && createdAt <= updatedAt ==> TimesOrdered(notes) by {
        if TimesOrdered(before) && createdAt <= updatedAt {
          CreateKeepsTimesOrdered(before, title, content, id, createdAt, updatedAt);
        }
      }
    }

    /** `updateNote(id, updates)`; `now[k]` is the clock reading taken
        when the `.map` callback visits position `k`. */
    method Update(id: string, patch: Patch, now: seq<nat>)
      requires |now| == |notes|
      modifies this
      ensures notes == Updated(old(notes), id, patch, now)
      ensures id !in Ids(old(notes)) ==> notes == old(notes)
      ensures patch.id.None? ==> Ids(notes) == Ids(old(notes))
      ensures patch.id.None? && UniqueIds(old(notes)) ==> UniqueIds(notes)
      ensures TimesOrdered(old(notes)) && patch.createdAt.None? &&
        (forall k :: 0 <= k < |old(notes)| && old(notes)[k].id == id ==> old(notes)[k].createdAt <= now[k])
        ==> TimesOrdered(notes)
    {
      var before := notes;
      notes := Updated(notes, id, patch, now);
      assert id !in Ids(before) ==> notes == before by {
        if id !in Ids(before) {
          UpdateAbsentIsNoOp(before, id, patch, now);
        }
      }
      assert patch.id.None? ==> Ids(notes) == Ids(before) by {
        if patch.id.None? {
          UpdateKeepsIds(before, id, patch, now);
        }
      }
      assert TimesOrdered(before) && patch.createdAt.None? &&
        (forall k :: 0 <= k < |before| && before[k].id == id ==> before[k].createdAt <= now[k])
        ==> TimesOrdered(notes) by {
        if TimesOrdered(before) && patch.createdAt.None? &&
          (forall k :: 0 <= k < |before| && before[k].id == id ==> before[k].createdAt <= now[k]) {
          UpdateKeepsTimesOrdered(before, id, patch, now);
        }
      }
    }

    /** `deleteNote(id)`. */
    method Delete(id: string)
      modifies this
      ensures notes == Deleted(old(notes), id)
      ensures forall k :: 0 <= k < |notes| ==> notes[k].id != id
      ensures IsSubseq(notes, old(notes))
      ensures id !in Ids(old(notes)) ==> notes == old(notes)
      ensures UniqueIds(old(notes)) ==> UniqueIds(notes)
      ensures UniqueIds(old(notes)) && id in Ids(old(notes)) ==> |notes| == |old(notes)| - 1
    {
      var before := notes;
      notes := Deleted(notes, id);
      DeleteKeepsOrder(before, id);
      assert id !in Ids(before) ==> notes == before by {
        if id !in Ids(before) {
          DeleteAbsentIsNoOp(before, id);
        }
      }
      assert UniqueIds(before) ==> UniqueIds(notes) by {
        if UniqueIds(before) {
          DeleteKeepsIdsUnique(before, id);
        }
      }
      assert UniqueIds(before) && id in Ids(before) ==> |notes| == |before| - 1 by {
        if UniqueIds(before) && id in Ids(before) {
          DeleteRemovesOne(before, id);
        }
      }
    }

    /** `filteredNotes` for the search box's `query`, lower-casing with
        `ToLower`: the notes that match, in order, and an empty query shows
        them all. */
    function Filtered(query: string): (r: seq<Note>)
      reads this
      ensures forall k :: 0 <= k < |r| ==> r[k] in notes && Matches(r[k], query, ToLower)
      ensures forall k :: 0 <= k < |notes| && Matches(notes[k], query, ToLower) ==> notes[k] in r
      ensures IsSubseq(r, notes)
      ensures query == [] ==> r == notes
    {
      SearchKeepsOrder(notes, query, ToLower);
      SearchEmptyQueryIsAll(notes, ToLower);
      Search(notes, query, ToLower)
    }
  }
}
