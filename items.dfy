/**
  Transfer items and the views the transfer component takes of a list of them.

  An item is an object owned by the host application and shared by reference:
  the component files it into a bucket by its `direction`, reports it when it
  is `checked`, and clears `checked` when it moves it, unless it is `disabled`.
 */
module Items {
  import opened MoveScan

  /** One entry of the host's data source. */
  class TransferItem {
    var direction: string
    var checked: bool
    var disabled: bool

    constructor (direction: string, checked: bool, disabled: bool)
      ensures this.direction == direction && this.checked == checked && this.disabled == disabled
    {
      this.direction := direction;
      this.checked := checked;
      this.disabled := disabled;
    }
  }

  /** An item a move picks up: checked and not disabled. */
  predicate Movable(x: TransferItem)
    reads x
  {
    x.checked && !x.disabled
  }

  /** The items of `s` that are movable now, as a set (the snapshot a move works from). */
  ghost function Eligible(s: seq<TransferItem>): set<TransferItem>
    reads s
  {
    set x | x in s && Movable(x)
  }

  /** An item filed in the right bucket; every other direction files it left. */
  predicate InRight(x: TransferItem)
    reads x
  {
    x.direction == "right"
  }

  /** The items of `s` that belong in the right bucket, in input order. */
  ghost function RightOf(s: seq<TransferItem>): seq<TransferItem>
    reads s
  {
    if s == [] then []
    else
      var init, last := s[..|s| - 1], s[|s| - 1];
      assert s == init + [last];
      RightOf(init) + (if InRight(last) then [last] else [])
  }

  /** The items of `s` that belong in the left bucket (every direction but "right"), in input order. */
  ghost function LeftOf(s: seq<TransferItem>): seq<TransferItem>
    reads s
  {
    if s == [] then []
    else
      var init, last := s[..|s| - 1], s[|s| - 1];
      assert s == init + [last];
      LeftOf(init) + (if !InRight(last) then [last] else [])
  }

  /** The checked items of a bucket, in bucket order. */
  function CheckedItems(s: seq<TransferItem>): seq<TransferItem>
    reads s
  {
    if s == [] then []
    else
      var init, last := s[..|s| - 1], s[|s| - 1];
      assert s == init + [last];
      CheckedItems(init) + (if last.checked then [last] else [])
  }

  /** The movable items of a bucket, in bucket order. */
  function MovableItems(s: seq<TransferItem>): seq<TransferItem>
    reads s
  {
    if s == [] then []
    else
      var init, last := s[..|s| - 1], s[|s| - 1];
      assert s == init + [last];
      MovableItems(init) + (if Movable(last) then [last] else [])
  }

  /** An item lands in the right bucket exactly when it is an input item filed right, and in the left bucket otherwise. */
  lemma {:induction false} PartitionMembers(s: seq<TransferItem>, x: TransferItem)
    ensures x in RightOf(s) <==> x in s && InRight(x)
    ensures x in LeftOf(s) <==> x in s && !InRight(x)
  {
    if s != [] {
      var init := s[..|s| - 1];
      assert s == init + [s[|s| - 1]];
      PartitionMembers(init, x);
    }
  }

  /** Each bucket keeps the input order of its items. */
  lemma {:induction false} PartitionKeepsOrder(s: seq<TransferItem>)
    ensures IsSubsequence(LeftOf(s), s)
    ensures IsSubsequence(RightOf(s), s)
  {
    if s == [] {
      assert Embedding(LeftOf(s), s, []);
    } else {
      var init, last := s[..|s| - 1], s[|s| - 1];
      assert s == init + [last];
      PartitionKeepsOrder(init);
      SubsequenceSnoc(LeftOf(init), init, last, !InRight(last));
      SubsequenceSnoc(RightOf(init), init, last, InRight(last));
    }
  }

  /** An item is reported as checked exactly when it is in the bucket and checked. */
  lemma {:induction false} CheckedItemsMembers(s: seq<TransferItem>, x: TransferItem)
    ensures x in CheckedItems(s) <==> x in s && x.checked
  {
    if s != [] {
      var init := s[..|s| - 1];
      assert s == init + [s[|s| - 1]];
      CheckedItemsMembers(init, x);
    }
  }

  /** The checked-item report is empty exactly when no item of the bucket is checked. */
  lemma AnyChecked(s: seq<TransferItem>)
    ensures |CheckedItems(s)| > 0 <==> exists x :: x in s && x.checked
  {
    if |CheckedItems(s)| > 0 {
      CheckedItemsMembers(s, CheckedItems(s)[0]);
    }
    if x :| x in s && x.checked {
      CheckedItemsMembers(s, x);
    }
  }

  /** An item is counted as movable exactly when it is in the bucket, checked and not disabled. */
  lemma {:induction false} MovableItemsMembers(s: seq<TransferItem>, x: TransferItem)
    ensures x in MovableItems(s) <==> x in s && Movable(x)
  {
    if s != [] {
      var init := s[..|s| - 1];
      assert s == init + [s[|s| - 1]];
      MovableItemsMembers(init, x);
    }
  }

  /** The movable count is positive exactly when some item of the bucket is movable. */
  lemma AnyMovable(s: seq<TransferItem>)
    ensures |MovableItems(s)| > 0 <==> Eligible(s) != {}
  {
    if |MovableItems(s)| > 0 {
      MovableItemsMembers(s, MovableItems(s)[0]);
      assert MovableItems(s)[0] in Eligible(s);
    }
    if Eligible(s) != {} {
      var x :| x in Eligible(s);
      MovableItemsMembers(s, x);
    }
  }

  /** The checked items are reported in bucket order. */
  lemma {:induction false} CheckedItemsKeepOrder(s: seq<TransferItem>)
    ensures IsSubsequence(CheckedItems(s), s)
  {
    if s == [] {
      assert Embedding(CheckedItems(s), s, []);
    } else {
      var init, last := s[..|s| - 1], s[|s| - 1];
      assert s == init + [last];
      CheckedItemsKeepOrder(init);
      SubsequenceSnoc(CheckedItems(init), init, last, last.checked);
    }
  }

  /** A checked item is reported as often as it occurs in the bucket; an unchecked one never. */
  lemma {:induction false} CheckedItemsCount(s: seq<TransferItem>, x: TransferItem)
    ensures multiset(CheckedItems(s))[x] == if x.checked then multiset(s)[x] else 0
  {
    if s != [] {
      var init, last := s[..|s| - 1], s[|s| - 1];
      assert s == init + [last];
      CheckedItemsCount(init, x);
    }
  }

  /** The checked items of the bucket, as a set. */
  ghost function CheckedSet(s: seq<TransferItem>): set<TransferItem>
    reads s
  {
    set x | x in s && x.checked
  }

  /**
    The checked-item report is the plain filter of the bucket by `keep`
    whenever `keep` picks out exactly its checked items: every occurrence of a
    checked item is reported, in bucket order.
   */
  lemma {:induction false} CheckedItemsIsFilter(s: seq<TransferItem>, keep: set<TransferItem>)
    requires forall x | x in s :: x in keep <==> x.checked
    ensures CheckedItems(s) == Within(s, keep)
  {
    if s != [] {
      var init, last := s[..|s| - 1], s[|s| - 1];
      assert s == init + [last];
      CheckedItemsIsFilter(init, keep);
      WithinSnoc(init, last, keep);
    }
  }

  /** The checked-item report holds exactly the checked items of the bucket, in bucket order. */
  lemma CheckedItemsSpec(s: seq<TransferItem>)
    ensures forall x | x in CheckedItems(s) :: x in s && x.checked
    ensures forall x | x in s && x.checked :: x in CheckedItems(s)
    ensures IsSubsequence(CheckedItems(s), s)
  {
    forall x | x in CheckedItems(s) || x in s {
      CheckedItemsMembers(s, x);
    }
    CheckedItemsKeepOrder(s);
  }

  /** The two buckets together hold every input item exactly as often as the input does. */
  lemma {:induction false} PartitionCovers(s: seq<TransferItem>)
    ensures multiset(LeftOf(s)) + multiset(RightOf(s)) == multiset(s)
  {
    if s != [] {
      var init := s[..|s| - 1];
      assert s == init + [s[|s| - 1]];
      PartitionCovers(init);
    }
  }

  /** The right bucket of a concatenation is the concatenation of the right buckets. */
  lemma {:induction false} RightOfConcat(a: seq<TransferItem>, b: seq<TransferItem>)
    ensures RightOf(a + b) == RightOf(a) + RightOf(b)
  {
    if b == [] {
      assert a + b == a;
    } else {
      var init, last := b[..|b| - 1], b[|b| - 1];
      var tail := if InRight(last) then [last] else [];
      assert (a + b)[..|a + b| - 1] == a + init;
      assert RightOf(a + b) == RightOf(a + init) + tail;
      RightOfConcat(a, init);
      assert RightOf(b) == RightOf(init) + tail;
    }
  }

  /** The left bucket of a concatenation is the concatenation of the left buckets. */
  lemma {:induction false} LeftOfConcat(a: seq<TransferItem>, b: seq<TransferItem>)
    ensures LeftOf(a + b) == LeftOf(a) + LeftOf(b)
  {
    if b == [] {
      assert a + b == a;
    } else {
      var init, last := b[..|b| - 1], b[|b| - 1];
      var tail := if !InRight(last) then [last] else [];
      assert (a + b)[..|a + b| - 1] == a + init;
      assert LeftOf(a + b) == LeftOf(a + init) + tail;
      LeftOfConcat(a, init);
      assert LeftOf(b) == LeftOf(init) + tail;
    }
  }

  /** Partitioning a list whose items all point one way leaves it whole on that side. */
  lemma {:induction false} PartitionUniform(s: seq<TransferItem>)
    ensures (forall x | x in s :: InRight(x)) ==> RightOf(s) == s && LeftOf(s) == []
    ensures (forall x | x in s :: !InRight(x)) ==> LeftOf(s) == s && RightOf(s) == []
  {
    if s != [] {
      var init := s[..|s| - 1];
      assert s == init + [s[|s| - 1]];
      PartitionUniform(init);
    }
  }

  /**
    Partitioning is idempotent: re-partitioning the concatenated buckets, with
    directions unchanged, yields the same buckets in the same order.
   */
  lemma PartitionIdempotent(s: seq<TransferItem>)
    ensures RightOf(LeftOf(s) + RightOf(s)) == RightOf(s)
    ensures LeftOf(LeftOf(s) + RightOf(s)) == LeftOf(s)
  {
    forall x | x in LeftOf(s) + RightOf(s)
      ensures x in LeftOf(s) ==> !InRight(x)
      ensures x in RightOf(s) ==> InRight(x)
    {
      PartitionMembers(s, x);
    }
    RightOfConcat(LeftOf(s), RightOf(s));
    LeftOfConcat(LeftOf(s), RightOf(s));
    PartitionUniform(LeftOf(s));
    PartitionUniform(RightOf(s));
  }
}
