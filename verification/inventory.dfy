/**
  The inventory store of inventory.py: a mapping from item name to an
  integer quantity, iterated in the order items were first added.

  inventory.py keeps the mapping in a module-global dict; here it is an
  explicit `Stock` value that every operation takes and, when it changes the
  mapping, returns. The warning that `remove_item` prints for a missing item
  becomes the `NotFound` outcome of a `Removal`.
 */
module Inventory {
  import opened OrderedMaps

  /** The store's state: item names bound to quantities, each name once. */
  type Stock = m: OrderedMap<string, int> | Valid(m) witness []

  /** The mapping every process starts with. */
  const Empty: Stock := []

  /** The threshold `check_low_items` uses when none is given. */
  const DefaultThreshold: int := 5

  /** Whether `remove_item` found the item it was asked to remove. */
  datatype Outcome = Found | NotFound

  /** The state after `remove_item`, and whether the item was there. */
  datatype Removal = Removal(stock: Stock, outcome: Outcome)

  /** `get_qty`: the stored quantity of `item`, or 0 when it is absent. */
  function GetQty(s: Stock, item: string): (q: int)
    ensures item in ToMap(s) ==> q == ToMap(s)[item]
    ensures item !in ToMap(s) ==> q == 0
    ensures item !in Keys(s) ==> q == 0
  {
    ToMapDomain(s);
    GetOr(s, item, 0)
  }

  /** `add_item`: adds `qty` (which may be negative) to the stock of a
      non-empty `item`, creating it at the end of the order when it is new.
      An empty name is ignored. Nothing is ever deleted here, so a quantity
      of zero or below stays stored. */
  function AddItem(s: Stock, item: string, qty: int): (r: Stock)
    ensures item == "" ==> r == s
    ensures item != "" ==> item in Keys(r) && GetQty(r, item) == GetQty(s, item) + qty
    ensures item != "" ==> forall k :: k != item ==>
      (k in Keys(r) <==> k in Keys(s)) && GetQty(r, k) == GetQty(s, k)
    ensures item != "" ==> Keys(r) == if item in Keys(s) then Keys(s) else Keys(s) + [item]
  {
    if item == "" then s
    else
      var total := GetQty(s, item) + qty;
      PutSpec(s, item, total);
      ToMapDomain(s);
      ToMapDomain(Put(s, item, total));
      Put(s, item, total)
  }

  /** Adding an item that is not stored appends one entry holding exactly
      the added quantity, whatever its sign. */
  lemma AddNewItemAppends(s: Stock, item: string, qty: int)
    requires item != "" && item !in Keys(s)
    ensures AddItem(s, item, qty) == s + [(item, qty)]
  {
    ToMapDomain(s);
    PutAppends(s, item, qty);
  }

  /** `remove_item`: subtracts `qty` from a present `item` and deletes the
      entry when what is left is zero or below. A missing item is reported as
      `NotFound` and the mapping is left exactly as it was. */
  function RemoveItem(s: Stock, item: string, qty: int): (r: Removal)
    ensures r.outcome == NotFound <==> item !in Keys(s)
    ensures item !in Keys(s) ==> r.stock == s
    ensures item in Keys(s) && GetQty(s, item) - qty <= 0 ==>
      item !in Keys(r.stock) && r.stock == s[..IndexOf(s, item)] + s[IndexOf(s, item) + 1..]
    ensures item in Keys(s) && GetQty(s, item) - qty > 0 ==>
      GetQty(r.stock, item) == GetQty(s, item) - qty && Keys(r.stock) == Keys(s)
    ensures item !in Keys(r.stock) || GetQty(r.stock, item) > 0
  {
    ToMapDomain(s);
    if item !in Keys(s) then Removal(s, NotFound)
    else
      var left := GetQty(s, item) - qty;
      var decremented := Put(s, item, left);
      PutSpec(s, item, left);
      ToMapDomain(decremented);
      if GetQty(decremented, item) <= 0 then
        var i := IndexOf(s, item);
        PutInPlace(s, item, left);
        SameIndexAfterOverwrite(s, item, left);
        DeleteRemovesEntry(decremented, item);
        DeleteSpec(decremented, item);
        DeleteValid(decremented, item);
        ToMapDomain(Delete(decremented, item));
        assert decremented[..i] == s[..i];
        assert decremented[i + 1..] == s[i + 1..];
        Removal(Delete(decremented, item), Found)
      else Removal(decremented, Found)
  }

  /** `remove_item` never touches an item other than its argument: every
      other item keeps its presence and its quantity. */
  lemma RemoveItemLeavesOthers(s: Stock, item: string, qty: int, k: string)
    requires k != item
    ensures k in Keys(RemoveItem(s, item, qty).stock) <==> k in Keys(s)
    ensures GetQty(RemoveItem(s, item, qty).stock, k) == GetQty(s, k)
  {
    var r := RemoveItem(s, item, qty).stock;
    if item in Keys(s) {
      var left := GetQty(s, item) - qty;
      PutSpec(s, item, left);
      var decremented := Put(s, item, left);
      ToMapDomain(s);
      ToMapDomain(decremented);
      if GetQty(decremented, item) <= 0 {
        DeleteSpec(decremented, item);
        ToMapDomain(r);
      }
    }
  }

  /** `check_low_items`: the names whose quantity is strictly below
      `threshold`, each once, in iteration order. */
  function CheckLowItems(s: Stock, threshold: int): (low: seq<string>)
    ensures forall k :: k in low <==> k in Keys(s) && GetQty(s, k) < threshold
    ensures forall i, j :: 0 <= i < j < |low| ==> IndexOf(s, low[i]) < IndexOf(s, low[j])
  {
    if |s| == 0 then []
    else
      var rest := CheckLowItems(s[1..], threshold);
      ToMapDomain(s);
      ToMapDomain(s[1..]);
      assert s[0].0 !in Keys(s[1..]);
      assert forall x :: x in rest ==> x in Keys(s[1..]) && IndexOf(s, x) == 1 + IndexOf(s[1..], x);
      if s[0].1 < threshold then [s[0].0] + rest else rest
  }

  /** The low-stock list is empty exactly when no stored quantity is below
      the threshold; in particular it is empty for an empty mapping, and a
      threshold of 0 finds nothing while every quantity is non-negative. */
  lemma NoLowItems(s: Stock, threshold: int)
    ensures CheckLowItems(s, threshold) == [] <==> forall k :: k in Keys(s) ==> GetQty(s, k) >= threshold
  {
    var low := CheckLowItems(s, threshold);
    if low != [] {
      assert low[0] in low;
    }
  }

  /** A removal that deletes an item takes it out of the order, so adding it
      again later puts it at the end rather than back where it was. */
  lemma ReAddAppends(s: Stock, item: string, qty: int, more: int)
    requires item in Keys(s) && GetQty(s, item) - qty <= 0
    requires item != ""
    ensures var i := IndexOf(s, item);
      AddItem(RemoveItem(s, item, qty).stock, item, more) == s[..i] + s[i + 1..] + [(item, more)]
  {
    var i := IndexOf(s, item);
    var removed := RemoveItem(s, item, qty).stock;
    assert removed == s[..i] + s[i + 1..];
    assert item !in Keys(removed);
    AddNewItemAppends(removed, item, more);
  }

  /** One call of the store's mutating API. */
  datatype Op = Add(name: string, qty: int) | Remove(name: string, qty: int)

  /** The state after running `ops` in order from `s`. */
  function Run(s: Stock, ops: seq<Op>): Stock
    decreases |ops|
  {
    if |ops| == 0 then s
    else
      var next := match ops[0]
        case Add(name, qty) => AddItem(s, name, qty)
        case Remove(name, qty) => RemoveItem(s, name, qty).stock;
      Run(next, ops[1..])
  }

  /** Only non-empty names ever enter the mapping: `add_item` ignores an
      empty name and `remove_item` never creates a key. */
  lemma {:induction false} EmptyNameNeverStored(s: Stock, ops: seq<Op>)
    requires "" !in Keys(s)
    ensures "" !in Keys(Run(s, ops))
    decreases |ops|
  {
    if |ops| > 0 {
      match ops[0]
      case Add(name, qty) =>
        EmptyNameNeverStored(AddItem(s, name, qty), ops[1..]);
      case Remove(name, qty) =>
        if name != "" {
          RemoveItemLeavesOthers(s, name, qty, "");
        }
        EmptyNameNeverStored(RemoveItem(s, name, qty).stock, ops[1..]);
    }
  }

  /** The net quantity that the `add_item` calls in `adds` give to `item`;
      calls with an empty name give nothing. */
  function TotalAdded(adds: seq<(string, int)>, item: string): int
    decreases |adds|
  {
    if |adds| == 0 then 0
    else (if adds[0].0 == item && item != "" then adds[0].1 else 0) + TotalAdded(adds[1..], item)
  }

  /** Runs the `add_item` calls in `adds` in order. */
  function AddAll(s: Stock, adds: seq<(string, int)>): Stock
    decreases |adds|
  {
    if |adds| == 0 then s
    else AddAll(AddItem(s, adds[0].0, adds[0].1), adds[1..])
  }

  /** Additions accumulate: after any run of `add_item` calls, an item's
      quantity is what it had plus everything added to it, negative amounts
      included, since `add_item` never clamps or deletes. */
  lemma {:induction false} AddsAccumulate(s: Stock, adds: seq<(string, int)>, item: string)
    ensures GetQty(AddAll(s, adds), item) == GetQty(s, item) + TotalAdded(adds, item)
    decreases |adds|
  {
    if |adds| > 0 {
      AddsAccumulate(AddItem(s, adds[0].0, adds[0].1), adds[1..], item);
    }
  }
}
