/**
  What the splice-while-scanning loop of `moveTo` computes, stated on plain
  sequences. The loop visits the source bucket front to back and moves an item
  when, at the moment it is visited, the item is checked and not disabled;
  moving an item clears its `checked` flag, so the item stops being movable.

  `Moved(s, movable)` and `Kept(s, movable)` follow that scan, with `movable`
  the set of items that are movable when the scan reaches the front of `s`.
  Items are shared references: when the same item occurs twice in a bucket,
  only its first occurrence moves, because by the time the later occurrence is
  visited its flag has been cleared.
 */
module MoveScan {

  /** `f` maps each position of `a` to a position of `b` holding the same element, in increasing order. */
  ghost predicate Embedding<T>(a: seq<T>, b: seq<T>, f: seq<nat>) {
    && |f| == |a|
    && (forall i | 0 <= i < |a| :: f[i] < |b| && b[f[i]] == a[i])
    && (forall i, j | 0 <= i < j < |a| :: f[i] < f[j])
  }

  /** `a` is `b` with some elements left out, the rest in their original order. */
  ghost predicate IsSubsequence<T>(a: seq<T>, b: seq<T>) {
    exists f :: Embedding(a, b, f)
  }

  /** Putting one element in front of `b` keeps `a` a subsequence, with or without that element in front of `a`. */
  lemma SubsequenceCons<T>(x: T, a: seq<T>, b: seq<T>, take: bool)
    requires IsSubsequence(a, b)
    ensures IsSubsequence((if take then [x] else []) + a, [x] + b)
  {
    var f: seq<nat> :| Embedding(a, b, f);
    if take {
      ConsEmbedding(x, a, b, f);
    } else {
      SkipEmbedding(x, a, b, f);
      assert [] + a == a;
    }
  }

  /** Every position moved one place to the right. */
  function Shifted(f: seq<nat>): (g: seq<nat>)
    ensures |g| == |f| && forall i | 0 <= i < |f| :: g[i] == f[i] + 1
  {
    seq(|f|, i requires 0 <= i < |f| => f[i] + 1)
  }

  lemma SkipEmbedding<T>(x: T, a: seq<T>, b: seq<T>, f: seq<nat>)
    requires Embedding(a, b, f)
    ensures Embedding(a, [x] + b, Shifted(f))
  {
  }

  lemma ConsEmbedding<T>(x: T, a: seq<T>, b: seq<T>, f: seq<nat>)
    requires Embedding(a, b, f)
    ensures Embedding([x] + a, [x] + b, [0] + Shifted(f))
  {
  }

  /** Appending one element to `b` keeps `a` a subsequence, with or without that element appended to `a`. */
  lemma SubsequenceSnoc<T>(a: seq<T>, b: seq<T>, x: T, take: bool)
    requires IsSubsequence(a, b)
    ensures IsSubsequence(a + (if take then [x] else []), b + [x])
  {
    var f: seq<nat> :| Embedding(a, b, f);
    if take {
      assert Embedding(a + [x], b + [x], f + [|b|]);
    } else {
      assert a + [] == a;
      assert Embedding(a, b + [x], f);
    }
  }

  /** No element occurs twice. */
  ghost predicate Distinct<T>(s: seq<T>) {
    forall i, j :: 0 <= i < j < |s| ==> s[i] != s[j]
  }

  /** The items the scan moves, in the order they are appended to the target. */
  ghost function Moved<T>(s: seq<T>, movable: set<T>): seq<T>
  {
    if s == [] then []
    else if s[0] in movable then [s[0]] + Moved(s[1..], movable - {s[0]})
    else Moved(s[1..], movable)
  }

  /** What the scan leaves in the source bucket. */
  ghost function Kept<T>(s: seq<T>, movable: set<T>): seq<T>
  {
    if s == [] then []
    else if s[0] in movable then Kept(s[1..], movable - {s[0]})
    else [s[0]] + Kept(s[1..], movable)
  }

  /** The elements of `s` that lie in `keep`, in order (a plain filter). */
  ghost function Within<T>(s: seq<T>, keep: set<T>): seq<T>
  {
    if s == [] then []
    else (if s[0] in keep then [s[0]] else []) + Within(s[1..], keep)
  }

  /** The elements of `s` that lie outside `drop`, in order (a plain filter). */
  ghost function Outside<T>(s: seq<T>, drop: set<T>): seq<T>
  {
    if s == [] then []
    else (if s[0] in drop then [] else [s[0]]) + Outside(s[1..], drop)
  }

  /**
    An item is moved exactly when it is scanned and movable at the start; a
    scanned item that is not movable is always kept; nothing else is kept.
   */
  lemma {:induction false} ScanMembers<T>(s: seq<T>, movable: set<T>, x: T)
    ensures x in Moved(s, movable) <==> x in s && x in movable
    ensures x in Kept(s, movable) ==> x in s
    ensures x in s && x !in movable ==> x in Kept(s, movable)
  {
    if s != [] {
      assert s == [s[0]] + s[1..];
      if s[0] in movable {
        ScanMembers(s[1..], movable - {s[0]}, x);
      } else {
        ScanMembers(s[1..], movable, x);
      }
    }
  }

  /** The scan keeps relative order, both among the items it moves and among those it leaves. */
  lemma {:induction false} ScanKeepsOrder<T>(s: seq<T>, movable: set<T>)
    ensures IsSubsequence(Moved(s, movable), s)
    ensures IsSubsequence(Kept(s, movable), s)
  {
    if s == [] {
      assert Embedding(Moved(s, movable), s, []);
    } else {
      assert s == [s[0]] + s[1..];
      var rest := if s[0] in movable then movable - {s[0]} else movable;
      ScanKeepsOrder(s[1..], rest);
      SubsequenceCons(s[0], Moved(s[1..], rest), s[1..], s[0] in movable);
      SubsequenceCons(s[0], Kept(s[1..], rest), s[1..], s[0] !in movable);
      assert Moved(s, movable) == (if s[0] in movable then [s[0]] else []) + Moved(s[1..], rest);
      assert Kept(s, movable) == (if s[0] in movable then [] else [s[0]]) + Kept(s[1..], rest);
    }
  }

  /** Together, the moved and the kept items are the scanned items: none lost, none duplicated. */
  lemma {:induction false} MovedKeptCover<T>(s: seq<T>, movable: set<T>)
    ensures multiset(Moved(s, movable)) + multiset(Kept(s, movable)) == multiset(s)
  {
    if s != [] {
      assert s == [s[0]] + s[1..];
      if s[0] in movable {
        MovedKeptCover(s[1..], movable - {s[0]});
      } else {
        MovedKeptCover(s[1..], movable);
      }
    }
  }

  /** A move neither loses nor duplicates items: the two buckets together hold what they held before. */
  lemma MoveConservesItems<T>(source: seq<T>, target: seq<T>, movable: set<T>)
    ensures multiset(Kept(source, movable)) + multiset(target + Moved(source, movable))
         == multiset(source) + multiset(target)
    ensures multiset(target + Moved(source, movable)) + multiset(Kept(source, movable))
         == multiset(target) + multiset(source)
  {
    MovedKeptCover(source, movable);
  }

  /** No item occurs twice in the moved list, even when the scanned bucket holds duplicates. */
  lemma {:induction false} MovedDistinct<T>(s: seq<T>, movable: set<T>)
    ensures Distinct(Moved(s, movable))
  {
    if s != [] {
      if s[0] in movable {
        var rest := movable - {s[0]};
        MovedDistinct(s[1..], rest);
        ScanMembers(s[1..], rest, s[0]);
      } else {
        MovedDistinct(s[1..], movable);
      }
    }
  }

  /** When nothing scanned is movable, the scan moves nothing and leaves the bucket as it was. */
  lemma {:induction false} NothingMovableIsNoOp<T>(s: seq<T>, movable: set<T>)
    requires forall x | x in s :: x !in movable
    ensures Moved(s, movable) == []
    ensures Kept(s, movable) == s
  {
    if s != [] {
      assert s == [s[0]] + s[1..];
      NothingMovableIsNoOp(s[1..], movable);
    }
  }

  /**
    On a bucket without duplicates the scan is a plain partition: the movable
    items move, in order, and the others stay, in order.
   */
  lemma {:induction false} DistinctScanIsFilter<T>(s: seq<T>, movable: set<T>)
    requires Distinct(s)
    ensures Moved(s, movable) == Within(s, movable)
    ensures Kept(s, movable) == Outside(s, movable)
  {
    if s != [] {
      var rest := s[1..];
      assert forall k | 0 <= k < |rest| :: rest[k] == s[k + 1] && s[k + 1] != s[0];
      assert s[0] !in rest;
      DistinctFilterIgnores(rest, movable, s[0]);
      DistinctScanIsFilter(rest, movable - {s[0]});
      DistinctScanIsFilter(rest, movable);
    }
  }

  /** Filtering an extended sequence extends the filtered one. */
  lemma {:induction false} WithinSnoc<T>(s: seq<T>, y: T, keep: set<T>)
    ensures Within(s + [y], keep) == Within(s, keep) + (if y in keep then [y] else [])
  {
    if s == [] {
      assert [] + [y] == [y];
    } else {
      assert (s + [y])[1..] == s[1..] + [y];
      WithinSnoc(s[1..], y, keep);
    }
  }

  /** Filtering by a set is blind to an element that does not occur. */
  lemma {:induction false} DistinctFilterIgnores<T>(s: seq<T>, keep: set<T>, y: T)
    requires y !in s
    ensures Within(s, keep - {y}) == Within(s, keep)
    ensures Outside(s, keep - {y}) == Outside(s, keep)
  {
    if s != [] {
      assert s[0] != y;
      DistinctFilterIgnores(s[1..], keep, y);
    }
  }

  /** One step of the scan over `s`: the item at `p` joins the moved items if it is still movable, the kept ones otherwise. */
  lemma ScanStep<T>(s: seq<T>, all: set<T>, p: nat, movable: set<T>, moved: seq<T>, kept: seq<T>)
    requires p < |s|
    requires Moved(s, all) == moved + Moved(s[p..], movable)
    requires Kept(s, all) == kept + Kept(s[p..], movable)
    ensures s[p] in movable ==>
      && Moved(s, all) == (moved + [s[p]]) + Moved(s[p + 1..], movable - {s[p]})
      && Kept(s, all) == kept + Kept(s[p + 1..], movable - {s[p]})
    ensures s[p] !in movable ==>
      && Moved(s, all) == moved + Moved(s[p + 1..], movable)
      && Kept(s, all) == (kept + [s[p]]) + Kept(s[p + 1..], movable)
  {
    assert s[p..][0] == s[p] && s[p..][1..] == s[p + 1..];
  }

  /** Removing the element at `|kept|` from `kept + s[p..]`. */
  lemma SpliceAt<T>(kept: seq<T>, s: seq<T>, p: nat)
    requires p < |s|
    ensures (kept + s[p..])[|kept|] == s[p]
    ensures (kept + s[p..])[..|kept|] + (kept + s[p..])[|kept| + 1..] == kept + s[p + 1..]
    ensures kept + s[p..] == (kept + [s[p]]) + s[p + 1..]
  {
    var d := kept + s[p..];
    assert d[..|kept|] == kept;
    assert d[|kept| + 1..] == s[p + 1..];
  }
}
