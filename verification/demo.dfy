/**
  The demonstration sequence of `main` in inventory.py, run on the model:
  three additions (one of them negative), one removal that finds its item
  and one that does not, then a low-stock query at the default threshold.
 */
module InventoryDemo {
  import opened OrderedMaps
  import opened Inventory

  /** What `main` observes before it saves: the stock after each step, the
      outcome of the removal of a missing item, apple's quantity and the
      low-stock names. */
  datatype Report = Report(
    beforeMissing: Stock,
    afterMissing: Stock,
    missing: Outcome,
    appleQty: int,
    low: seq<string>)

  function RunDemo(): Report
  {
    var s1 := AddItem(Empty, "apple", 10);
    var s2 := AddItem(s1, "banana", -2);
    var s3 := AddItem(s2, "orange", 5);
    var s4 := RemoveItem(s3, "apple", 3).stock;
    var grapes := RemoveItem(s4, "grapes", 1);
    Report(s4, grapes.stock, grapes.outcome, GetQty(grapes.stock, "apple"), CheckLowItems(grapes.stock, DefaultThreshold))
  }

  /** The three additions append apple, banana and orange in that order,
      with banana stored at -2. */
  lemma DemoAdditions()
    ensures AddItem(AddItem(AddItem(Empty, "apple", 10), "banana", -2), "orange", 5)
      == [("apple", 10), ("banana", -2), ("orange", 5)]
  {
  }

  /** Removing 3 apples leaves 7 of them in first place. */
  lemma DemoRemoval(s3: Stock)
    requires s3 == [("apple", 10), ("banana", -2), ("orange", 5)]
    ensures RemoveItem(s3, "apple", 3) == Removal([("apple", 7), ("banana", -2), ("orange", 5)], Found)
  {
  }

  /** In the final state grapes are absent and only banana is below 5. */
  lemma DemoFinalState(s4: Stock)
    requires s4 == [("apple", 7), ("banana", -2), ("orange", 5)]
    ensures "grapes" !in Keys(s4)
    ensures CheckLowItems(s4, DefaultThreshold) == ["banana"]
  {
    var t1, t2 := s4[1..], s4[1..][1..];
    assert t1 == [("banana", -2), ("orange", 5)];
    assert t2 == [("orange", 5)];
    assert t2[1..] == [];
    assert Keys(t2) == ["orange"];
    assert Keys(t1) == ["banana", "orange"];
    assert Keys(s4) == ["apple", "banana", "orange"];
    assert Valid(t2);
    var low2 := CheckLowItems(t2, DefaultThreshold);
    assert GetQty(t2, "orange") == 5;
    assert CheckLowItems(t2[1..], DefaultThreshold) == [];
    assert low2 == [];
    assert CheckLowItems(t1, DefaultThreshold) == ["banana"];
  }

  /** Apple ends at 7; removing the absent "grapes" reports NotFound and
      changes nothing; of apple 7, banana -2 and orange 5 only banana is
      strictly below 5. */
  lemma DemoOutcome()
    ensures RunDemo().appleQty == 7
    ensures RunDemo().missing == NotFound
    ensures RunDemo().afterMissing == RunDemo().beforeMissing
    ensures RunDemo().afterMissing == [("apple", 7), ("banana", -2), ("orange", 5)]
    ensures RunDemo().low == ["banana"]
  {
    DemoAdditions();
    var s3 := AddItem(AddItem(AddItem(Empty, "apple", 10), "banana", -2), "orange", 5);
    DemoRemoval(s3);
    DemoFinalState(RemoveItem(s3, "apple", 3).stock);
  }
}
