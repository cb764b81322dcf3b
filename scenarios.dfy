/** Concrete examples of the note operations: the behaviour the page shows a
    user who creates, edits, deletes and searches a few notes. */
module Scenarios {
  import opened Text
  import opened Seqs
  import opened Notes

  /** Creating "Groceries" in an empty collection yields that one note,
      stamped with the clock's readings. */
  lemma GroceriesScenario(id: string, t: nat)
    ensures Created([], "Groceries", "milk,eggs", id, t, t) == [Note(id, "Groceries", "milk,eggs", t, t)]
  {
    assert !IsSpace("Groceries"[0]);
    CreatePrepends([], "Groceries", "milk,eggs", id, t, t);
  }

  /** Creating "A" and then "B" lists B first: newest first. */
  lemma CreateTwoScenario(idA: string, idB: string)
    ensures Created(Created([], "A", "", idA, 1, 1), "B", "", idB, 2, 2) ==
      [Note(idB, "B", "", 2, 2), Note(idA, "A", "", 1, 1)]
  {
    assert !IsSpace("A"[0]) && !IsSpace("B"[0]);
    CreatePrepends([], "A", "", idA, 1, 1);
    CreatePrepends([Note(idA, "A", "", 1, 1)], "B", "", idB, 2, 2);
  }

  /** Editing A's content later changes only A, and advances its `updatedAt`. */
  lemma EditScenario(idA: string, idB: string)
    requires idA != idB
    ensures Updated([Note(idB, "B", "", 2, 2), Note(idA, "A", "", 1, 1)], idA,
                    Patch(None, None, Some("hello"), None, None), [3, 3]) ==
      [Note(idB, "B", "", 2, 2), Note(idA, "A", "hello", 1, 3)]
  {
  }

  /** Deleting B leaves only A. */
  lemma DeleteScenario(idA: string, idB: string)
    requires idA != idB
    ensures Deleted([Note(idB, "B", "", 2, 2), Note(idA, "A", "hello", 1, 3)], idB) ==
      [Note(idA, "A", "hello", 1, 3)]
  {
    var a, b := Note(idA, "A", "hello", 1, 3), Note(idB, "B", "", 2, 2);
    assert [b, a][1..] == [a];
    assert [a][1..] == [];
    assert !Survives(idB)(b) && Survives(idB)(a);
    assert Filter([a], Survives(idB)) == [a];
    assert Filter([b, a], Survives(idB)) == Filter([a], Survives(idB));
  }

  /** Searching "HELLO" finds A by its content, whatever the case;
      searching "zzz" finds nothing. */
  lemma SearchScenario(idA: string)
    ensures Search([Note(idA, "A", "hello", 1, 3)], "HELLO", ToLower) == [Note(idA, "A", "hello", 1, 3)]
    ensures Search([Note(idA, "A", "hello", 1, 3)], "zzz", ToLower) == []
  {
    var a := Note(idA, "A", "hello", 1, 3);
    assert LowerAll("HELLO", ToLower) == "hello";
    assert LowerAll("hello", ToLower) == "hello";
    assert Contains("hello", "hello") by {
      assert OccursAt("hello", "hello", 0);
    }
    assert Matches(a, "HELLO", ToLower);
    assert [a][1..] == [];
    assert LowerAll("zzz", ToLower) == "zzz";
    assert LowerAll("A", ToLower) == "a";
    assert !Contains("a", "zzz");
    assert !Contains("hello", "zzz") by {
      assert "hello"[..3][0] == 'h' && "hello"[1..] == "ello";
      assert "ello"[..3][0] == 'e' && "ello"[1..] == "llo";
      assert "llo"[..3][0] == 'l' && "llo"[1..] == "lo";
      assert !Contains("lo", "zzz");
      assert !Contains("llo", "zzz");
      assert !Contains("ello", "zzz");
    }
    assert !Matches(a, "zzz", ToLower);
  }
}
