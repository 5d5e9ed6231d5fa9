/**
 * Bucket selection: `getPRBucket` in index.js.
 *
 * The source walks the bucket list keeping a running assigned bucket, which a
 * later fitting bucket replaces only when the assigned one's `size` property
 * is greater than the later one's `maxSize`. Buckets have no `size`
 * property, and JavaScript compares undefined as false, so the code as
 * written keeps the FIRST bucket that fits (FirstFit), while the evidently
 * intended rule is the TIGHTEST fit (TightestFit). Both are modelled, and
 * they agree on lists sorted by ascending `maxSize`.
 */
module Buckets {
  import opened Wrappers

  /** One entry of the bucket configuration: `maxSize`, `label` (here `labelName`, as `label` is a Dafny keyword) and `comment`, where `None` is a null comment. */
  datatype Bucket = Bucket(maxSize: int, labelName: string, comment: Option<string>)

  /** The JavaScript values a property read can give here. */
  datatype JsValue = Undefined | Number(n: int)

  /** Reading `bucket.size`: configuration entries have no `size` key. */
  function SizeProperty(b: Bucket): JsValue
  {
    Undefined
  }

  /** JavaScript `x > y` for a number `y`: `undefined` converts to NaN, and NaN compares false. */
  predicate JsGreater(x: JsValue, y: int)
  {
    match x
    case Undefined => false
    case Number(n) => n > y
  }

  /** The replacement test on an assigned bucket's `size` never succeeds, whatever the bounds. */
  lemma SizeNeverGreater(current: Bucket, maxSize: int)
    ensures !JsGreater(SizeProperty(current), maxSize)
  {
  }

  /** A bucket admits a diff size strictly below its `maxSize`. */
  predicate Fits(diffSize: nat, b: Bucket)
  {
    diffSize < b.maxSize
  }

  /** No bucket of the list admits the diff size. */
  predicate NoneFits(diffSize: nat, buckets: seq<Bucket>)
  {
    forall j :: 0 <= j < |buckets| ==> !Fits(diffSize, buckets[j])
  }

  /** Index k holds the first bucket, in list order, that admits the diff size. */
  predicate IsFirstFit(diffSize: nat, buckets: seq<Bucket>, k: int)
  {
    && 0 <= k < |buckets|
    && Fits(diffSize, buckets[k])
    && forall j :: 0 <= j < k ==> !Fits(diffSize, buckets[j])
  }

  /**
   * Index k holds a bucket with the smallest `maxSize` among those that admit
   * the diff size, and no earlier bucket ties with it.
   */
  predicate IsTightestFit(diffSize: nat, buckets: seq<Bucket>, k: int)
  {
    && 0 <= k < |buckets|
    && Fits(diffSize, buckets[k])
    && (forall j :: 0 <= j < |buckets| && Fits(diffSize, buckets[j]) ==> buckets[k].maxSize <= buckets[j].maxSize)
    && (forall j :: 0 <= j < k && Fits(diffSize, buckets[j]) ==> buckets[k].maxSize < buckets[j].maxSize)
  }

  /** The list is sorted by non-decreasing `maxSize`: each bucket's is at most the next one's. */
  predicate Ascending(buckets: seq<Bucket>)
    decreases |buckets|
  {
    |buckets| <= 1 || (buckets[0].maxSize <= buckets[1].maxSize && Ascending(buckets[1..]))
  }

  /** In an ascending list, the first bucket's `maxSize` is at most every bucket's. */
  lemma {:induction false} AscendingHead(buckets: seq<Bucket>, b: Bucket)
    requires Ascending(buckets) && b in buckets
    ensures buckets[0].maxSize <= b.maxSize
    decreases |buckets|
  {
    if b != buckets[0] {
      var tail := buckets[1..];
      assert b in tail;
      AscendingHead(tail, b);
    }
  }

  /** No two positions of the list share a `maxSize`. */
  predicate DistinctMaxSizes(buckets: seq<Bucket>)
  {
    forall i, j :: 0 <= i < |buckets| && 0 <= j < |buckets| && buckets[i].maxSize == buckets[j].maxSize ==> i == j
  }

  /** The first bucket in list order that admits the diff size: what the code selects. */
  function FirstFit(diffSize: nat, buckets: seq<Bucket>): (r: Option<Bucket>)
    ensures r.Some? ==> r.value in buckets && Fits(diffSize, r.value)
    decreases |buckets|
  {
    if buckets == [] then None
    else if Fits(diffSize, buckets[0]) then Some(buckets[0])
    else FirstFit(diffSize, buckets[1..])
  }

  /** The bucket with the smallest `maxSize` that admits the diff size (earliest among ties). */
  function TightestFit(diffSize: nat, buckets: seq<Bucket>): (r: Option<Bucket>)
    ensures r.None? <==> forall b :: b in buckets ==> !Fits(diffSize, b)
    ensures r.Some? ==> r.value in buckets && Fits(diffSize, r.value)
    ensures r.Some? ==> forall b :: b in buckets && Fits(diffSize, b) ==> r.value.maxSize <= b.maxSize
    decreases |buckets|
  {
    if buckets == [] then None
    else
      var rest := TightestFit(diffSize, buckets[1..]);
      assert forall b :: b in buckets ==> b == buckets[0] || b in buckets[1..];
      if Fits(diffSize, buckets[0]) && (rest.None? || buckets[0].maxSize <= rest.value.maxSize)
      then Some(buckets[0])
      else rest
  }

  /** FirstFit finds nothing exactly when no bucket admits the diff size. */
  lemma {:induction false} FirstFitNone(diffSize: nat, buckets: seq<Bucket>)
    ensures FirstFit(diffSize, buckets).None? <==> NoneFits(diffSize, buckets)
    decreases |buckets|
  {
    if buckets != [] {
      FirstFitNone(diffSize, buckets[1..]);
      if !Fits(diffSize, buckets[0]) {
        assert NoneFits(diffSize, buckets) <==> NoneFits(diffSize, buckets[1..]) by {
          forall j | 0 < j < |buckets| ensures buckets[j] == buckets[1..][j - 1] { }
        }
      }
    }
  }

  /** FirstFit returns the bucket at the first index that admits the diff size. */
  lemma {:induction false} FirstFitAt(diffSize: nat, buckets: seq<Bucket>, k: int)
    requires IsFirstFit(diffSize, buckets, k)
    ensures FirstFit(diffSize, buckets) == Some(buckets[k])
    decreases k
  {
    if k > 0 {
      assert IsFirstFit(diffSize, buckets[1..], k - 1) by {
        forall j | 0 <= j < k - 1 ensures !Fits(diffSize, buckets[1..][j]) {
          assert buckets[1..][j] == buckets[j + 1];
        }
      }
      FirstFitAt(diffSize, buckets[1..], k - 1);
    }
  }

  /** TightestFit returns the bucket at the index that IsTightestFit singles out. */
  lemma {:induction false} TightestFitAt(diffSize: nat, buckets: seq<Bucket>, k: int)
    requires IsTightestFit(diffSize, buckets, k)
    ensures TightestFit(diffSize, buckets) == Some(buckets[k])
    decreases k
  {
    if k > 0 {
      var tail := buckets[1..];
      assert IsTightestFit(diffSize, tail, k - 1) by {
        forall j | 0 <= j < |tail| && Fits(diffSize, tail[j])
          ensures tail[k - 1].maxSize <= tail[j].maxSize
        {
          assert tail[j] == buckets[j + 1];
        }
        forall j | 0 <= j < k - 1 && Fits(diffSize, tail[j])
          ensures tail[k - 1].maxSize < tail[j].maxSize
        {
          assert tail[j] == buckets[j + 1];
        }
      }
      TightestFitAt(diffSize, tail, k - 1);
    }
  }

  /**
   * getPRBucket as written. The replacement test compares the undefined
   * `size` property of the assigned bucket, so only the first fitting bucket
   * is ever assigned. `None` is the `null` left when no bucket fits.
   */
  method GetPRBucket(diffSize: nat, buckets: seq<Bucket>) returns (assignedBucket: Option<Bucket>)
    ensures assignedBucket == FirstFit(diffSize, buckets)
    ensures assignedBucket.None? <==> NoneFits(diffSize, buckets)
  {
    assignedBucket := None;
    ghost var k := 0;
    for i := 0 to |buckets|
      invariant assignedBucket.None? ==> forall j :: 0 <= j < i ==> !Fits(diffSize, buckets[j])
      invariant assignedBucket.Some? ==> k < i && IsFirstFit(diffSize, buckets, k) && assignedBucket.value == buckets[k]
    {
      var bucket := buckets[i];
      if diffSize < bucket.maxSize && (assignedBucket.None? || JsGreater(SizeProperty(assignedBucket.value), bucket.maxSize)) {
        assignedBucket := Some(bucket);
        k := i;
      }
    }
    FirstFitNone(diffSize, buckets);
    if assignedBucket.Some? {
      FirstFitAt(diffSize, buckets, k);
    }
  }

  /**
   * getPRBucket as evidently intended: the replacement test compares the
   * assigned bucket's `maxSize`, so the scan keeps the tightest fit.
   */
  method GetPRBucketTightest(diffSize: nat, buckets: seq<Bucket>) returns (assignedBucket: Option<Bucket>)
    ensures assignedBucket == TightestFit(diffSize, buckets)
    ensures assignedBucket.None? <==> NoneFits(diffSize, buckets)
  {
    assignedBucket := None;
    ghost var k := 0;
    for i := 0 to |buckets|
      invariant assignedBucket.None? ==> forall j :: 0 <= j < i ==> !Fits(diffSize, buckets[j])
      invariant assignedBucket.Some? ==> k < i && assignedBucket.value == buckets[k]
      invariant assignedBucket.Some? ==> Fits(diffSize, buckets[k])
      invariant assignedBucket.Some? ==> forall j :: 0 <= j < i && Fits(diffSize, buckets[j]) ==> buckets[k].maxSize <= buckets[j].maxSize
      invariant assignedBucket.Some? ==> forall j :: 0 <= j < k && Fits(diffSize, buckets[j]) ==> buckets[k].maxSize < buckets[j].maxSize
    {
      var bucket := buckets[i];
      if diffSize < bucket.maxSize && (assignedBucket.None? || assignedBucket.value.maxSize > bucket.maxSize) {
        assignedBucket := Some(bucket);
        k := i;
      }
    }
    if assignedBucket.Some? {
      TightestFitAt(diffSize, buckets, k);
    } else {
      assert forall b :: b in buckets ==> !Fits(diffSize, b);
    }
  }

  /** On a list sorted by ascending `maxSize`, the first fit is the tightest fit. */
  lemma {:induction false} FirstFitIsTightestWhenAscending(diffSize: nat, buckets: seq<Bucket>)
    requires Ascending(buckets)
    ensures FirstFit(diffSize, buckets) == TightestFit(diffSize, buckets)
    decreases |buckets|
  {
    if buckets != [] {
      var tail := buckets[1..];
      FirstFitIsTightestWhenAscending(diffSize, tail);
      var rest := TightestFit(diffSize, tail);
      if rest.Some? {
        AscendingHead(buckets, rest.value);
      }
    }
  }

  /**
   * With pairwise distinct `maxSize` values, the tightest fit does not depend
   * on the order of the list.
   */
  lemma TightestFitPermutation(diffSize: nat, buckets: seq<Bucket>, reordered: seq<Bucket>)
    requires multiset(buckets) == multiset(reordered)
    requires DistinctMaxSizes(buckets)
    ensures TightestFit(diffSize, buckets) == TightestFit(diffSize, reordered)
  {
    assert forall b :: b in buckets <==> b in reordered by {
      forall b ensures b in buckets <==> b in reordered {
        assert b in buckets <==> b in multiset(buckets);
        assert b in reordered <==> b in multiset(reordered);
      }
    }
    var r1, r2 := TightestFit(diffSize, buckets), TightestFit(diffSize, reordered);
    if r1.Some? && r2.Some? {
      var i :| 0 <= i < |buckets| && buckets[i] == r1.value;
      var j :| 0 <= j < |buckets| && buckets[j] == r2.value;
      assert buckets[i].maxSize == buckets[j].maxSize;
    }
  }

  /**
   * The input that separates the code as written from the intended rule:
   * with a wide bucket listed before a narrow one, a diff size of 5 gets the
   * wide bucket although the narrow one fits more tightly.
   */
  lemma FirstFitIsNotTightest()
    ensures var wide, narrow := Bucket(100, "S", None), Bucket(10, "XS", None);
      && FirstFit(5, [wide, narrow]) == Some(wide)
      && TightestFit(5, [wide, narrow]) == Some(narrow)
  {
    var wide, narrow := Bucket(100, "S", None), Bucket(10, "XS", None);
    assert [wide, narrow][1..] == [narrow];
    assert [narrow][1..] == [];
  }
}
