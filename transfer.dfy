/**
  The list bookkeeping of the transfer component: two buckets of shared items,
  two flags that enable the move buttons, and three event streams to the host.
 */
module Transfer {
  import opened MoveScan
  import opened Items

  datatype Option<T> = None | Some(value: T)

  /** Payload of the change event: the items moved, from which bucket to which. */
  datatype ChangeEvent = ChangeEvent(from: string, to: string, list: seq<TransferItem>)

  /** Payload of the search event, relayed from a list panel's filter box. */
  datatype SearchEvent = SearchEvent(direction: string, value: string)

  /** Payload of the select event: the bucket, the new state, its checked items, and the item (absent for select-all). */
  datatype SelectEvent = SelectEvent(direction: string, checked: bool, list: seq<TransferItem>, item: Option<TransferItem>)

  /** The direction a move to `direction` takes items from. */
  function Opposite(direction: string): (r: string)
    ensures r == "left" || r == "right"
    ensures r == "right" <==> direction == "left"
  {
    if direction == "left" then "right" else "left"
  }

  /**
    The scan of `moveTo` over its source bucket: each item that is movable when
    visited has its `checked` flag cleared, is appended to `moveList`, and is
    spliced out of the bucket, the index stepping back so that the item that
    slides into its place is visited next.
   */
  method SpliceMovable(source: seq<TransferItem>) returns (kept: seq<TransferItem>, moveList: seq<TransferItem>)
    modifies source`checked
    ensures kept == Kept(source, old(Eligible(source)))
    ensures moveList == Moved(source, old(Eligible(source)))
    ensures forall x | x in source :: x.checked == (old(x.checked) && x !in old(Eligible(source)))
    ensures forall x | x in source :: x.direction == old(x.direction) && x.disabled == old(x.disabled)
    ensures forall x | x in kept :: !Movable(x)
  {
    ghost var eligible := Eligible(source);
    var datasource := source;
    moveList := [];
    ghost var keptSoFar := [];
    // the items still movable: eligible at the start and not moved yet
    ghost var movable := eligible;
    ghost var p := 0;
    var i := 0;
    while i < |datasource|
      invariant 0 <= p <= |source|
      invariant datasource == keptSoFar + source[p..] && i == |keptSoFar|
      invariant Moved(source, eligible) == moveList + Moved(source[p..], movable)
      invariant Kept(source, eligible) == keptSoFar + Kept(source[p..], movable)
      invariant forall x | x in source :: x.checked == (old(x.checked) && x !in moveList)
      invariant forall x | x in source :: x in movable <==> Movable(x)
      decreases |datasource| - i
    {
      SpliceAt(keptSoFar, source, p);
      ScanStep(source, eligible, p, movable, moveList, keptSoFar);
      var item := datasource[i];
      if item.checked == true && !item.disabled {
        item.checked := false;
        moveList := moveList + [item];
        datasource := datasource[..i] + datasource[i + 1..];
        movable := movable - {item};
        i := i - 1;
      } else {
        keptSoFar := keptSoFar + [item];
      }
      i := i + 1;
      p := p + 1;
    }
    assert source[p..] == [];
    kept := datasource;
    forall x | x in source
      ensures x in moveList <==> x in eligible
    {
      ScanMembers(source, eligible, x);
    }
    forall x | x in kept
      ensures !Movable(x)
    {
      ScanMembers(source, eligible, x);
    }
  }

  class TransferComponent {
    var dataSource: seq<TransferItem>
    var leftDataSource: seq<TransferItem>
    var rightDataSource: seq<TransferItem>
    /** Enables the "move to left" button. */
    var leftActive: bool
    /** Enables the "move to right" button. */
    var rightActive: bool
    /** What the three event emitters have emitted, oldest first. */
    var changeLog: seq<ChangeEvent>
    var searchLog: seq<SearchEvent>
    var selectLog: seq<SelectEvent>

    /** The bucket a move to `direction` takes items from. */
    function Source(direction: string): seq<TransferItem>
      reads this
    {
      if direction == "left" then rightDataSource else leftDataSource
    }

    /** The bucket a move to `direction` appends items to. */
    function Target(direction: string): seq<TransferItem>
      reads this
    {
      if direction == "left" then leftDataSource else rightDataSource
    }

    constructor ()
      ensures dataSource == [] && leftDataSource == [] && rightDataSource == []
      ensures !leftActive && !rightActive
      ensures changeLog == [] && searchLog == [] && selectLog == []
    {
      dataSource := [];
      leftDataSource := [];
      rightDataSource := [];
      leftActive := false;
      rightActive := false;
      changeLog := [];
      searchLog := [];
      selectLog := [];
    }

    /** Rebuilds both buckets from the data source, filing each item by its direction. */
    method SplitDataSource()
      modifies this`leftDataSource, this`rightDataSource
      ensures leftDataSource == LeftOf(dataSource)
      ensures rightDataSource == RightOf(dataSource)
    {
      var left, right := [], [];
      for k := 0 to |dataSource|
        invariant left == LeftOf(dataSource[..k])
        invariant right == RightOf(dataSource[..k])
      {
        var record := dataSource[k];
        assert dataSource[..k + 1] == dataSource[..k] + [record];
        if InRight(record) {
          right := right + [record];
        } else {
          left := left + [record];
        }
      }
      assert dataSource[..|dataSource|] == dataSource;
      leftDataSource, rightDataSource := left, right;
    }

    /** The checked items of the left bucket when `direction` is "left", of the right bucket otherwise. */
    function GetCheckedData(direction: string): (r: seq<TransferItem>)
      reads this, leftDataSource, rightDataSource
      ensures forall x | x in r :: x.checked && x in (if direction == "left" then leftDataSource else rightDataSource)
      ensures forall x | x in (if direction == "left" then leftDataSource else rightDataSource) && x.checked :: x in r
      ensures r == Within(if direction == "left" then leftDataSource else rightDataSource,
                          CheckedSet(if direction == "left" then leftDataSource else rightDataSource))
    {
      var bucket := if direction == "left" then leftDataSource else rightDataSource;
      CheckedItemsSpec(bucket);
      CheckedItemsIsFilter(bucket, CheckedSet(bucket));
      CheckedItems(bucket)
    }

    /** Enables the button that moves into the bucket opposite `direction` when `count` is positive. */
    method UpdateOperationStatus(direction: string, count: int)
      modifies this`leftActive, this`rightActive
      ensures direction == "right" ==> leftActive == (count > 0) && rightActive == old(rightActive)
      ensures direction != "right" ==> rightActive == (count > 0) && leftActive == old(leftActive)
    {
      if direction == "right" {
        leftActive := count > 0;
      } else {
        rightActive := count > 0;
      }
    }

    /** A checkbox of bucket `direction` changed (`item`) or its select-all box did (no item). */
    method HandleSelect(direction: string, checked: bool, item: Option<TransferItem>)
      requires direction == "left" || direction == "right"
      modifies this`leftActive, this`rightActive, this`selectLog
      ensures direction == "left" ==>
        rightActive == (exists x :: x in leftDataSource && x.checked) && leftActive == old(leftActive)
      ensures direction == "right" ==>
        leftActive == (exists x :: x in rightDataSource && x.checked) && rightActive == old(rightActive)
      ensures selectLog == old(selectLog) + [SelectEvent(direction, checked, GetCheckedData(direction), item)]
    {
      var list := GetCheckedData(direction);
      AnyChecked(if direction == "left" then leftDataSource else rightDataSource);
      UpdateOperationStatus(direction, |list|);
      selectLog := selectLog + [SelectEvent(direction, checked, list, item)];
    }

    method HandleLeftSelectAll(checked: bool)
      modifies this`leftActive, this`rightActive, this`selectLog
      ensures rightActive == (exists x :: x in leftDataSource && x.checked) && leftActive == old(leftActive)
      ensures selectLog == old(selectLog) + [SelectEvent("left", checked, CheckedItems(leftDataSource), None)]
    {
      HandleSelect("left", checked, None);
    }

    method HandleRightSelectAll(checked: bool)
      modifies this`leftActive, this`rightActive, this`selectLog
      ensures leftActive == (exists x :: x in rightDataSource && x.checked) && rightActive == old(rightActive)
      ensures selectLog == old(selectLog) + [SelectEvent("right", checked, CheckedItems(rightDataSource), None)]
    {
      HandleSelect("right", checked, None);
    }

    method HandleLeftSelect(item: TransferItem)
      modifies this`leftActive, this`rightActive, this`selectLog
      ensures rightActive == (exists x :: x in leftDataSource && x.checked) && leftActive == old(leftActive)
      ensures selectLog == old(selectLog) + [SelectEvent("left", item.checked, CheckedItems(leftDataSource), Some(item))]
    {
      HandleSelect("left", item.checked, Some(item));
    }

    method HandleRightSelect(item: TransferItem)
      modifies this`leftActive, this`rightActive, this`selectLog
      ensures leftActive == (exists x :: x in rightDataSource && x.checked) && rightActive == old(rightActive)
      ensures selectLog == old(selectLog) + [SelectEvent("right", item.checked, CheckedItems(rightDataSource), Some(item))]
    {
      HandleSelect("right", item.checked, Some(item));
    }

    /** Relays a list panel's filter change to the host unchanged. */
    method HandleFilterChange(ret: SearchEvent)
      modifies this`searchLog
      ensures searchLog == old(searchLog) + [ret]
    {
      searchLog := searchLog + [ret];
    }

    /**
      Moves every movable item of the bucket opposite `direction` to the end of
      bucket `direction`, clearing its `checked` flag, and reports the moved items.
     */
    method MoveTo(direction: string)
      modifies this`leftDataSource, this`rightDataSource, this`leftActive, this`rightActive, this`changeLog
      modifies Source(direction)`checked
      ensures Source(direction) == Kept(old(Source(direction)), old(Eligible(Source(direction))))
      ensures Target(direction) == old(Target(direction)) + Moved(old(Source(direction)), old(Eligible(Source(direction))))
      ensures changeLog == old(changeLog) +
        [ChangeEvent(Opposite(direction), direction, Moved(old(Source(direction)), old(Eligible(Source(direction)))))]
      ensures direction == "left" ==> !leftActive && rightActive == old(rightActive)
      ensures direction != "left" ==> !rightActive && leftActive == old(leftActive)
      ensures forall x | x in old(Source(direction)) ::
        x.checked == (old(x.checked) && x !in old(Eligible(Source(direction))))
      ensures forall x | x in old(Source(direction)) ::
        x.direction == old(x.direction) && x.disabled == old(x.disabled)
      ensures forall x | x in Source(direction) :: !Movable(x)
    {
      var oppositeDirection := Opposite(direction);
      var datasource := if direction == "left" then rightDataSource else leftDataSource;
      var targetDatasource := if direction == "left" then leftDataSource else rightDataSource;
      var kept, moveList := SpliceMovable(datasource);
      if direction == "left" {
        rightDataSource := kept;
        leftDataSource := targetDatasource + moveList;
      } else {
        leftDataSource := kept;
        rightDataSource := targetDatasource + moveList;
      }
      UpdateOperationStatus(oppositeDirection, 0);
      changeLog := changeLog + [ChangeEvent(oppositeDirection, direction, moveList)];
    }

    method MoveToLeft()
      modifies this`leftDataSource, this`rightDataSource, this`leftActive, this`rightActive, this`changeLog
      modifies rightDataSource`checked
      ensures rightDataSource == Kept(old(rightDataSource), old(Eligible(rightDataSource)))
      ensures leftDataSource == old(leftDataSource) + Moved(old(rightDataSource), old(Eligible(rightDataSource)))
      ensures changeLog == old(changeLog) +
        [ChangeEvent("right", "left", Moved(old(rightDataSource), old(Eligible(rightDataSource))))]
      ensures !leftActive && rightActive == old(rightActive)
      ensures forall x | x in old(rightDataSource) :: x.checked == (old(x.checked) && x !in old(Eligible(rightDataSource)))
      ensures forall x | x in rightDataSource :: !Movable(x)
      ensures multiset(leftDataSource) + multiset(rightDataSource) == old(multiset(leftDataSource) + multiset(rightDataSource))
    {
      ghost var source, target, eligible := rightDataSource, leftDataSource, Eligible(rightDataSource);
      MoveTo("left");
      MoveConservesItems(source, target, eligible);
    }

    method MoveToRight()
      modifies this`leftDataSource, this`rightDataSource, this`leftActive, this`rightActive, this`changeLog
      modifies leftDataSource`checked
      ensures leftDataSource == Kept(old(leftDataSource), old(Eligible(leftDataSource)))
      ensures rightDataSource == old(rightDataSource) + Moved(old(leftDataSource), old(Eligible(leftDataSource)))
      ensures changeLog == old(changeLog) +
        [ChangeEvent("left", "right", Moved(old(leftDataSource), old(Eligible(leftDataSource))))]
      ensures !rightActive && leftActive == old(leftActive)
      ensures forall x | x in old(leftDataSource) :: x.checked == (old(x.checked) && x !in old(Eligible(leftDataSource)))
      ensures forall x | x in leftDataSource :: !Movable(x)
      ensures multiset(leftDataSource) + multiset(rightDataSource) == old(multiset(leftDataSource) + multiset(rightDataSource))
    {
      ghost var source, target, eligible := leftDataSource, rightDataSource, Eligible(leftDataSource);
      MoveTo("right");
      MoveConservesItems(source, target, eligible);
    }

    /**
      The host replaced the data source: re-partition it and enable each move
      button when the bucket it takes from holds a movable item.
     */
    method OnDataSourceChange(data: seq<TransferItem>)
      modifies this`dataSource, this`leftDataSource, this`rightDataSource, this`leftActive, this`rightActive
      ensures dataSource == data
      ensures leftDataSource == LeftOf(data) && rightDataSource == RightOf(data)
      ensures rightActive == (Eligible(leftDataSource) != {})
      ensures leftActive == (Eligible(rightDataSource) != {})
    {
      dataSource := data;
      SplitDataSource();
      RefreshOperationStatus();
    }

    /** Enables each move button exactly when the bucket it takes from holds a movable item. */
    method RefreshOperationStatus()
      modifies this`leftActive, this`rightActive
      ensures rightActive == (Eligible(leftDataSource) != {})
      ensures leftActive == (Eligible(rightDataSource) != {})
    {
      var leftMovable := MovableItems(leftDataSource);
      UpdateOperationStatus("left", |leftMovable|);
      var rightMovable := MovableItems(rightDataSource);
      UpdateOperationStatus("right", |rightMovable|);
      AnyMovable(leftDataSource);
      AnyMovable(rightDataSource);
    }
  }
}
