# Transfer component list bookkeeping

This project models the list bookkeeping of ng-zorro-antd's `NzTransferComponent`. The component is a two-bucket "transfer" widget:

- a data source of items is split into a left and a right bucket by each item's `direction`;
- each bucket reports its checked items;
- two flags, `leftActive` and `rightActive`, enable the two move buttons;
- `moveTo` moves every checked, non-disabled item of one bucket to the end of the other.

It does the move by splicing the source array while scanning it with an index that steps back after each removal.

The model has three modules:

- `MoveScan` (`move_scan.dfy`) states what the splice-while-scanning loop computes, on plain sequences.
  - `Moved(s, movable)` is the list of items moved, in the order they are appended to the target.
  - `Kept(s, movable)` is what stays in the source.
  - Items are shared references. When one item occurs twice in a bucket, only its first occurrence moves: moving it clears its `checked` flag, so the later occurrence is no longer movable when the loop reaches it.
  - The module also defines an order-preserving embedding (`IsSubsequence`) and plain filters (`Within`, `Outside`) as independent reference definitions.
- `Items` (`items.dfy`) defines the item, the partition by direction and the checked/movable filters.
  - `TransferItem` is a class with mutable `direction`, `checked` and `disabled` fields, so the sharing of items between buckets and events is explicit.
- `Transfer` (`transfer.dfy`) defines the component as a class with these fields:
  - the data source;
  - the two buckets, as sequence fields;
  - the two flags;
  - the three event emitters `nzChange`, `nzSearchChange` and `nzSelectChange`, as logs that `emit` appends to.

  Each operation is a method whose `ensures` states the new state in terms of the specification functions above. The move loop is `SpliceMovable`. It keeps the source's index loop, its `checked` write, its splice and its `--i` step. Its loop invariants tie the loop to `Moved` and `Kept`.

Direction arguments stay strings, as in the source:

- `moveTo` and `getCheckedData` treat every value other than `"left"` as `"right"`.
- `updateOperationStatus` treats every value other than `"right"` as `"left"`.
- `handleSelect` is typed `'left' | 'right'` in the source, and its precondition says so.

## Model

| member | source | states |
|---|---|---|
| Transfer.TransferComponent.constructor | src/components/transfer/nz-transfer.component.ts:67-143 | a new component has an empty data source, two empty buckets, both move buttons disabled and no event emitted |
| Transfer.TransferComponent.SplitDataSource | src/components/transfer/nz-transfer.component.ts:106-116 | the left bucket becomes `LeftOf(dataSource)` and the right bucket `RightOf(dataSource)`, proved against the push loop's invariants |
| Items.PartitionMembers | src/components/transfer/nz-transfer.component.ts:109-113 | an item is in the right bucket iff it is an input item with direction "right", and in the left bucket iff it is an input item with any other direction |
| Items.PartitionCovers | src/components/transfer/nz-transfer.component.ts:106-116 | the two buckets together hold every input item exactly once (multiset equality) |
| Items.PartitionKeepsOrder | src/components/transfer/nz-transfer.component.ts:108-115 | each bucket keeps the input order (it is a subsequence of the input) |
| Items.RightOfConcat | src/components/transfer/nz-transfer.component.ts:108-115 | the right bucket of a concatenation is the concatenation of the right buckets |
| Items.LeftOfConcat | src/components/transfer/nz-transfer.component.ts:108-115 | the left bucket of a concatenation is the concatenation of the left buckets |
| Items.PartitionUniform | src/components/transfer/nz-transfer.component.ts:109-113 | input all of direction "right" goes entirely right and nothing goes left; input with no "right" item goes entirely left |
| Items.PartitionIdempotent | src/components/transfer/nz-transfer.component.ts:106-116 | splitting the buckets' concatenation again gives the same buckets |
| Transfer.TransferComponent.GetCheckedData | src/components/transfer/nz-transfer.component.ts:118-120 | the result holds exactly the checked items of the left bucket for "left" and of the right bucket for any other direction, and equals the plain filter of that bucket by its checked items, so an item occurring twice is reported twice |
| Items.CheckedItemsMembers | src/components/transfer/nz-transfer.component.ts:119 | an item is reported iff it is in the bucket and checked |
| Items.CheckedItemsCount | src/components/transfer/nz-transfer.component.ts:119 | a checked item is reported as many times as it occurs in the bucket; an unchecked item is never reported |
| Items.CheckedItemsIsFilter | src/components/transfer/nz-transfer.component.ts:119 | the report equals the plain filter of the bucket by any set that picks out exactly its checked items |
| Items.CheckedItemsKeepOrder | src/components/transfer/nz-transfer.component.ts:119 | the reported items keep bucket order |
| Items.CheckedItemsSpec | src/components/transfer/nz-transfer.component.ts:119 | membership in both directions and bucket order of the checked-item report |
| Items.AnyChecked | src/components/transfer/nz-transfer.component.ts:129-130 | the report is non-empty iff some item of the bucket is checked, disabled or not |
| Transfer.TransferComponent.UpdateOperationStatus | src/components/transfer/nz-transfer.component.ts:145-147 | "right" writes `leftActive := count > 0`, any other direction writes `rightActive`; the other flag is unchanged and nothing else may change |
| Transfer.TransferComponent.HandleSelect | src/components/transfer/nz-transfer.component.ts:128-132 | the flag opposite `direction` is true iff bucket `direction` has a checked item; the other flag is unchanged; exactly one select event carrying `GetCheckedData(direction)` is logged; the buckets cannot change |
| Transfer.TransferComponent.HandleLeftSelectAll | src/components/transfer/nz-transfer.component.ts:122 | select-all on the left: `rightActive` follows the left bucket's checked items; the event has no item |
| Transfer.TransferComponent.HandleRightSelectAll | src/components/transfer/nz-transfer.component.ts:123 | select-all on the right: `leftActive` follows the right bucket's checked items; the event has no item |
| Transfer.TransferComponent.HandleLeftSelect | src/components/transfer/nz-transfer.component.ts:125 | a left checkbox changed: the event carries the item and its own `checked` value |
| Transfer.TransferComponent.HandleRightSelect | src/components/transfer/nz-transfer.component.ts:126 | a right checkbox changed: the event carries the item and its own `checked` value |
| Transfer.TransferComponent.HandleFilterChange | src/components/transfer/nz-transfer.component.ts:134-136 | the search event is relayed unchanged and is the only thing logged |
| Transfer.Opposite | src/components/transfer/nz-transfer.component.ts:153 | the opposite of "left" is "right"; of anything else, "left" |
| Transfer.SpliceMovable | src/components/transfer/nz-transfer.component.ts:157-166 | the loop leaves `Kept(source, E)` in the array and collects `Moved(source, E)`, where E is the set of items movable at entry; it clears `checked` exactly on the items of E; no item left behind is movable; direction and disabled cannot change |
| MoveScan.ScanMembers | src/components/transfer/nz-transfer.component.ts:157-166 | an item is moved iff it is in the bucket and movable at entry; every scanned item that is not movable stays; nothing foreign appears |
| MoveScan.ScanKeepsOrder | src/components/transfer/nz-transfer.component.ts:157-166 | the moved items and the kept items each keep the bucket's relative order |
| MoveScan.MovedKeptCover | src/components/transfer/nz-transfer.component.ts:157-166 | moved plus kept is exactly the scanned bucket: no item skipped, none duplicated |
| MoveScan.MoveConservesItems | src/components/transfer/nz-transfer.component.ts:157-166 | the two buckets together hold the same items, with multiplicity, before and after a move |
| MoveScan.MovedDistinct | src/components/transfer/nz-transfer.component.ts:159-162 | the moved list never holds an item twice, even when the bucket holds duplicates |
| MoveScan.NothingMovableIsNoOp | src/components/transfer/nz-transfer.component.ts:157-166 | when no item is movable, nothing moves and the bucket is left as it was |
| MoveScan.DistinctScanIsFilter | src/components/transfer/nz-transfer.component.ts:157-166 | on a bucket without duplicates, the moved list is the plain filter of the movable items and the rest is the filter of the others |
| Transfer.TransferComponent.MoveTo | src/components/transfer/nz-transfer.component.ts:152-174 | the source bucket (right for "left", left otherwise) becomes `Kept`; the target gets `Moved` appended with its old contents an unchanged prefix; moved items have `checked` cleared; no other flag or field of an item changes; the flag for moving into `direction` becomes false and the other is unchanged; one change event `{from: opposite, to: direction, list: Moved}` is logged |
| Transfer.TransferComponent.MoveToLeft | src/components/transfer/nz-transfer.component.ts:149 | `MoveTo("left")`, from the right bucket into the left one: the buckets, the event, the flags and the cleared `checked` flags as for `MoveTo`; nothing left in the right bucket is movable; the two buckets together hold the same items, with multiplicity, as before |
| Transfer.TransferComponent.MoveToRight | src/components/transfer/nz-transfer.component.ts:150 | `MoveTo("right")`, from the left bucket into the right one, with the same guarantees mirrored |
| Transfer.TransferComponent.OnDataSourceChange | src/components/transfer/nz-transfer.component.ts:180-186 | after a new data source the buckets are its partition, `rightActive` is true iff the left bucket holds a checked, non-disabled item, and `leftActive` likewise for the right bucket |
| Transfer.TransferComponent.RefreshOperationStatus | src/components/transfer/nz-transfer.component.ts:183-184 | each flag is true iff the bucket it moves from has a movable item |
| Items.MovableItemsMembers | src/components/transfer/nz-transfer.component.ts:183-184 | an item is counted iff it is in the bucket, checked and not disabled |
| Items.AnyMovable | src/components/transfer/nz-transfer.component.ts:183-184 | the movable count is positive iff the bucket has a movable item |

Proof helpers, general facts about sequences that the lemmas above rely on and that model nothing of the component by themselves: `MoveScan.SubsequenceCons`, `MoveScan.SubsequenceSnoc`, `MoveScan.DistinctFilterIgnores`, `MoveScan.WithinSnoc`, `MoveScan.ScanStep` and `MoveScan.SpliceAt`.

## Left out

- The Angular template, styles, host binding and view encapsulation are left out: they are rendering only.
- The locale service lookups for titles and labels are left out: the service is a foreign dependency whose behaviour is not visible.
- `toBoolean` in the `nzShowSearch` setter is left out: it is an external utility.
- The content-child templates and `nzListStyle` are left out: they are UI only.
- Filtering itself is left out: it is done by the child list component, which is not part of this model. `handleFilterChange` is modelled as the relay it is.
- Angular change detection (`SimpleChanges` and the `nzTargetKeys` key test) is left out. The data-change branch is the explicit method `OnDataSourceChange`, which takes the new data source as its argument.
- `checked` is modelled as a `bool`. The source tests `item.checked === true` in the move loop and truthiness in the filters; these agree only on boolean values.
- The event emitters are logs. Subscribers and their timing are not modelled.
- Transfer.SpliceMovable: it collects the moved items in a local list. `Transfer.TransferComponent.MoveTo` appends that list to the target after the loop, where the source pushes each item to the target inside the loop. The two agree unless both buckets are the same array, which cannot happen since the two buckets are separate arrays.
- Transfer.TransferComponent.MoveTo: the source and target arrays are modelled as sequence values written back to the fields. The source changes them in place, so other holders of the same array objects would see the change too. That aliasing is not modelled.
- Transfer.TransferComponent.MoveTo: conservation of the two buckets' combined contents is stated on `MoveToLeft` and `MoveToRight`, the two entry points the buttons call, and for any direction by `MoveScan.MoveConservesItems`, rather than on `MoveTo` itself.
- `OnDataSourceChange` factors the two status updates into `RefreshOperationStatus`, which makes the same two calls in the same order.

Notes on behaviour that the code fixes and a prose description might not:

- `moveTo` never updates an item's `direction`. After a move, the buckets no longer agree with the items' directions until the host supplies a new data source.
- After a move, the flag for moving into the target is forced to false, even when checked but disabled items remain in the source.
- `handleSelect` counts disabled checked items when it sets a flag. The data-change branch does not count them.
