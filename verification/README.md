# Inventory store

A Dafny model of the in-memory inventory store of `inventory.py`. The store
maps item names to integer quantities. It offers four operations:

- `add_item` adds stock, which may be negative, to a named item. It ignores an empty name.
- `remove_item` subtracts stock. It deletes the item when nothing positive is left. It reports a missing item instead of failing.
- `get_qty` reads a quantity. An absent item reads as 0.
- `check_low_items` lists the items strictly below a threshold. The default threshold is 5.

`inventory.py` keeps the mapping in a module-global Python dict. Here it is an
explicit immutable value, and every operation is a pure function from the old
state to the new one. Python's `int` is unbounded, so Dafny's `int` models
quantities exactly.

A Python dict iterates in insertion order, and `check_low_items` exposes that
order. So the state is an insertion-ordered association list:

- `OrderedMaps.OrderedMap` is a sequence of (key, value) pairs.
- `Keys` gives the iteration order.
- `ToMap` gives the plain map that the order sits on.
- `Valid` says that no key occurs twice.
- `Put` is `d[k] = v`: a present key stays where it is, and a new key is appended at the end.
- `Delete` is `del d[k]`: the entry leaves the order, so re-adding the key later appends it at the end.
- `Put` and `Delete` are plain definitions. Lemmas (`PutSpec`, `DeleteSpec` and others) state what they mean for the map view and for the order.
- `GetOr` is `d.get(k, default)`.

Module `Inventory` builds the store on top of this:

- `Stock` is the subset type of valid ordered maps from `string` to `int`.
- `AddItem`, `RemoveItem`, `GetQty` and `CheckLowItems` are the four operations.
- The warning that `remove_item` prints becomes the `NotFound` outcome of a `Removal`. A successful removal returns `Found`.

Module `InventoryDemo` replays the demonstration in `main` and proves what it
observes.

Files:

- `ordered_maps.dfy` holds module `OrderedMaps`.
- `inventory.dfy` holds module `Inventory`.
- `demo.dfy` holds module `InventoryDemo`.

## Model

| member | source | states |
|---|---|---|
| OrderedMaps.Keys | inventory.py:86-94 | The iteration order of the dict, one key per entry; `KeysAt` gives the key at each position |
| OrderedMaps.Put | inventory.py:26-36 | `d[k] = v`. Its meaning is given by `PutSpec` (map view, key order, uniqueness), `PutInPlace` (a present key is overwritten in its slot) and `PutAppends` (a new key goes at the end) |
| OrderedMaps.Delete | inventory.py:38 | `del d[k]`, total here: `RemoveItem` calls it only on a present key. Its meaning is given by `DeleteSpec` (map view), `DeleteValid` (uniqueness, no new key) and `DeleteRemovesEntry` (exactly that entry leaves the order) |
| OrderedMaps.KeysAt | inventory.py:86 | The key at each position of the iteration order is the key of the entry stored there |
| InventoryDemo.RunDemo | inventory.py:104-110 | The demonstration in `main`, replayed call by call; `DemoOutcome` states what it observes |
| OrderedMaps.IndexOf | inventory.py:94 | The position of a key in iteration order: the key is at that position and at no earlier one, and the position is past the end exactly when the key is absent |
| OrderedMaps.ToMapDomain | inventory.py:13 | The map view of the store has exactly the keys of the iteration order |
| OrderedMaps.ToMapAt | inventory.py:13 | The map view binds each present key to the value stored at that key's position |
| OrderedMaps.ValidIffDistinctKeys | inventory.py:13 | The uniqueness invariant holds exactly when no two entries share a key |
| OrderedMaps.GetOr | inventory.py:47 | `dict.get(k, default)` returns the value the map view binds to `k`, or the default when `k` is absent |
| OrderedMaps.PutSpec | inventory.py:26 | Assignment binds `k` to `v` in the map view and changes no other binding. The key order is unchanged when `k` was present, and `k` is appended when it is new. Key uniqueness is kept |
| OrderedMaps.PutInPlace | inventory.py:36 | Assigning to a present key overwrites its entry at the position it already has |
| OrderedMaps.SameIndexAfterOverwrite | inventory.py:36 | After that overwrite, the key is still found at the same position |
| OrderedMaps.PutAppends | inventory.py:26 | Assigning to a new key appends exactly one entry, at the end |
| OrderedMaps.DeleteSpec | inventory.py:38 | In a store with unique keys, `del` removes `k` from the map view and leaves every other binding |
| OrderedMaps.DeleteValid | inventory.py:38 | `del` keeps keys unique and introduces no key |
| OrderedMaps.DeleteRemovesEntry | inventory.py:38 | `del` on a present key removes exactly that key's entry, and the other entries keep their relative order |
| Inventory.GetQty | inventory.py:45-47 | The stored quantity of a present item, and 0 for an absent one |
| Inventory.AddItem | inventory.py:20-27 | An empty name leaves the store unchanged. Otherwise the item is present afterwards, even when its new quantity is 0 or below, and its quantity grows by `qty`. Every other item keeps its presence and quantity. A new item is appended to the order, and an existing one keeps its place |
| Inventory.AddNewItemAppends | inventory.py:24-26 | Adding an item that is not stored appends one entry that holds exactly the added quantity, negative or not |
| Inventory.RemoveItem | inventory.py:33-40 | The outcome is NotFound exactly when the item is absent, and then the store is unchanged. A present item left with 0 or less loses its entry, and all other entries stay in order. A present item left with more than 0 gets the decremented quantity and keeps its place. Afterwards the item is absent or positive |
| Inventory.RemoveItemLeavesOthers | inventory.py:35-40 | `remove_item` leaves the presence and quantity of every other item unchanged |
| Inventory.CheckLowItems | inventory.py:92-95 | The result holds exactly the present items whose quantity is strictly below the threshold. Positions in the result strictly increase in iteration order, so each item appears once, in dict order |
| Inventory.NoLowItems | inventory.py:94 | The low-stock list is empty exactly when no stored quantity is below the threshold. This covers an empty store |
| Inventory.ReAddAppends | inventory.py:26-38 | After a removal deletes an item, adding it again appends it at the end with just the added amount, and leaves the other entries in their order |
| Inventory.EmptyNameNeverStored | inventory.py:24-26 | Starting from a store without the empty name, no sequence of add and remove calls ever stores it |
| Inventory.AddsAccumulate | inventory.py:26 | After any sequence of `add_item` calls, an item's quantity is its old quantity plus the sum of everything added to it, negative amounts included |
| InventoryDemo.DemoAdditions | inventory.py:104-106 | The three additions give the order apple 10, banana -2, orange 5 |
| InventoryDemo.DemoRemoval | inventory.py:107 | Removing 3 apples finds the item and leaves apple at 7, still in first place |
| InventoryDemo.DemoFinalState | inventory.py:108-110 | In the final state "grapes" is absent, and at the default threshold only banana is low |
| InventoryDemo.DemoOutcome | inventory.py:104-110 | In the whole demonstration, apple ends at 7. Removing "grapes" reports NotFound and leaves the store unchanged. `check_low_items()` returns `["banana"]` |

## Left out

- `load_data` and `save_data` (inventory.py:55-77) are not modelled. They are file I/O, and their contents go through `json.loads` and `json.dumps`, a serializer that is not part of this model. So the save-then-load round trip is not stated.
- `print_data` (inventory.py:83-87) and the warning `print` in `remove_item` are not modelled, because they are console output only. The warning appears as the `NotFound` outcome.
- The `logs` argument of `add_item` and the `datetime.now()` timestamps appended to it (inventory.py:20-27) are not modelled. `AddItem` takes no `logs` argument, so a list a caller passes in and reads afterwards is dropped, together with the line `add_item` appends to it. The timestamps are nondeterministic.
- Python's dynamic typing is not modelled. Names are `string` and quantities are `int`; names of any other type (an `int` key, or a falsy `0` or `None` that `add_item` ignores) and quantities of any other type (a `float`, say) are outside the model. So are the default arguments `item="default"` and `qty=0`.
- The rest of `main` (inventory.py:111-113) is not modelled. It saves, loads and prints, which is the I/O above.
