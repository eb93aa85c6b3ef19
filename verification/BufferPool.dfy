/** The pooled allocator of direct buffers. Borrowing may hand out the first
    buffer of a larger bucket without looking at its capacity; what makes that
    right is the invariant that every buffer is in the bucket of its capacity,
    which holds for foreign and unaligned buffers too. */
module BufferPool {

  import opened Results
  import opened BufferLadder

  /** A byte buffer, as far as the pool looks at it. */
  class DirectBuffer {
    const capacity: Capacity
    const direct: bool
    var position: Capacity
    var limit: Capacity

    constructor (capacity: Capacity, direct: bool)
      ensures this.capacity == capacity && this.direct == direct && Cleared()
    {
      this.capacity := capacity;
      this.direct := direct;
      position := 0;
      limit := capacity;
    }

    predicate Cleared()
      reads this
    {
      position == 0 && limit == capacity
    }

    method Clear()
      modifies this
      ensures Cleared()
    {
      position := 0;
      limit := capacity;
    }
  }

  /** Where a buffer is in the pool. */
  datatype Place = Place(bucket: nat, index: nat)

  type Buckets = seq<seq<DirectBuffer>>

  ghost predicate Has(bs: Buckets, at: Place) {
    at.bucket < |bs| && at.index < |bs[at.bucket]|
  }

  ghost predicate Before(p: Place, q: Place) {
    p.bucket < q.bucket || (p.bucket == q.bucket && p.index < q.index)
  }

  /** The first buffer of the pool, searching every bucket in order, that is
      large enough. */
  ghost predicate FirstFit(bs: Buckets, capacity: nat, at: Place) {
    && Has(bs, at) && bs[at.bucket][at.index].capacity >= capacity
    && forall p :: Has(bs, p) && Before(p, at) ==> bs[p.bucket][p.index].capacity < capacity
  }

  ghost predicate NoFit(bs: Buckets, capacity: nat) {
    forall p :: Has(bs, p) ==> bs[p.bucket][p.index].capacity < capacity
  }

  function Without<T>(s: seq<T>, j: nat): seq<T>
    requires j < |s|
  {
    s[..j] + s[j + 1..]
  }

  /** The first fitting buffer has left its bucket; nothing else moved. */
  ghost predicate Took(before: Buckets, capacity: nat, after: Buckets, b: DirectBuffer) {
    exists at :: FirstFit(before, capacity, at) && b == before[at.bucket][at.index]
                 && after == before[at.bucket := Without(before[at.bucket], at.index)]
  }

  ghost function Pooled(bs: Buckets): set<DirectBuffer> {
    set i, j | 0 <= i < |bs| && 0 <= j < |bs[i]| :: bs[i][j]
  }

  ghost function Contents(bs: Buckets): multiset<DirectBuffer> {
    if bs == [] then multiset{} else multiset(bs[0]) + Contents(bs[1..])
  }

  class PoolState {
    const alignment: nat
    const minimumCapacity: Capacity
    var buckets: seq<seq<DirectBuffer>>

    /** The size of the first bucket. */
    ghost function First(): nat
      requires alignment >= 1
    {
      RoundUp(minimumCapacity, alignment)
    }

    ghost predicate RightPlace(b: DirectBuffer, i: nat)
      requires alignment >= 1
      reads this
    {
      b.direct && IsBucket(First(), |buckets|, RoundUp(b.capacity, alignment), i)
    }

    ghost predicate Valid()
      reads this
    {
      && 1 <= alignment && 1 <= minimumCapacity
      && First() <= MAX_INT && Ladder(First(), |buckets|)
      && forall i, j :: 0 <= i < |buckets| && 0 <= j < |buckets[i]| ==> RightPlace(buckets[i][j], i)
    }

    constructor (minimumCapacity: Capacity, alignment: nat, buckets: seq<seq<DirectBuffer>>)
      ensures this.minimumCapacity == minimumCapacity && this.alignment == alignment && this.buckets == buckets
    {
      this.minimumCapacity := minimumCapacity;
      this.alignment := alignment;
      this.buckets := buckets;
    }

    /** The pool of a manager, which fails when the minimum cannot be rounded. */
    static method Create(minimumCapacity: Int32, alignment: Int32) returns (r: Result<PoolState>)
      ensures r.Err? <==>
                RoundUp(if minimumCapacity < 1 then 1 else minimumCapacity, if alignment < 1 then 1 else alignment) > 0x7FFF_FFFF
      ensures r.Ok? ==>
                && fresh(r.value) && r.value.Valid() && NoFit(r.value.buckets, 0)
                && r.value.minimumCapacity == (if minimumCapacity < 1 then 1 else minimumCapacity)
                && r.value.alignment == (if alignment < 1 then 1 else alignment)
    {
      var minimum: Capacity, align: Capacity := Max(1, minimumCapacity), Max(1, alignment);
      RoundUpCovers(minimum, align);
      var first: Capacity :- RoundedCapacity(minimum, align);
      var buckets: seq<seq<DirectBuffer>> := [];
      var bucketCapacity: Int32 := first;
      hide RoundUp, Min, ShiftLeft, IsBucket, NoFit;
      assert Base(first, 0) == first;
      var i := 0;
      while i < BUCKETS && bucketCapacity > 0
        invariant i == |buckets| <= BUCKETS && forall k :: 0 <= k < i ==> buckets[k] == []
        invariant 0 < bucketCapacity == Base(first, i)
        invariant forall k :: 0 <= k < i ==> Base(first, k) < MAX_INT / 2
      {
        buckets := buckets + [[]];
        if bucketCapacity >= MAX_INT / 2 {
          break;
        }
        DoublingFits(bucketCapacity);
        bucketCapacity := Min(MAX_INT, ShiftLeft(bucketCapacity));
        i := i + 1;
      }
      hide Base;
      assert Ladder(first, |buckets|);
      hide Ladder;
      var state := new PoolState(minimum, align, buckets);
      return Ok(state);
    }

    /** The bucket for a capacity; fails where the capacity cannot be rounded. */
    method BucketIndex(capacity: Capacity) returns (r: Result<nat>)
      requires Valid()
      ensures r.Err? <==> RoundUp(capacity, alignment) > MAX_INT
      ensures r.Ok? ==> IsBucket(First(), |buckets|, RoundUp(capacity, alignment), r.value)
    {
      var rounded :- RoundedCapacity(capacity, alignment);
      var base: Int32 := RoundUp(minimumCapacity, alignment);
      var index := 0;
      assert base == Base(First(), 0);
      hide RoundUp, Ladder, Min, ShiftLeft, Base;
      while base < rounded && index + 1 < |buckets|
        invariant index < |buckets| && base == Base(First(), index)
        invariant forall j :: 0 <= j < index ==> Base(First(), j) < rounded
        decreases |buckets| - index
      {
        LadderFits(First(), |buckets|, index);
        LadderFits(First(), |buckets|, index + 1);
        base := Min(MAX_INT, ShiftLeft(base));
        index := index + 1;
      }
      return Ok(index);
    }

    /** Lower buckets need not be searched. */
    lemma LowerTooSmall(capacity: nat, k: nat)
      requires Valid() && IsBucket(First(), |buckets|, capacity, k)
      ensures forall p :: Has(buckets, p) && p.bucket < k ==> buckets[p.bucket][p.index].capacity < capacity
    {
      forall p | Has(buckets, p) && p.bucket < k ensures buckets[p.bucket][p.index].capacity < capacity {
        var b := buckets[p.bucket][p.index];
        assert RightPlace(b, p.bucket);
        LowerFails(First(), |buckets|, alignment, b.capacity, p.bucket, capacity, k);
      }
    }

    /** In higher buckets any buffer will do. */
    lemma HigherLargeEnough(capacity: nat, k: nat, p: Place)
      requires Valid() && IsBucket(First(), |buckets|, capacity, k)
      requires Has(buckets, p) && p.bucket > k
      ensures buckets[p.bucket][p.index].capacity >= capacity
    {
      var b := buckets[p.bucket][p.index];
      assert RightPlace(b, p.bucket);
      RoundUpCovers(minimumCapacity, alignment);
      HigherSuffices(First(), |buckets|, alignment, b.capacity, p.bucket, capacity, k);
    }

    /** The search of one bucket by capacity, then of the larger ones without
        looking at capacities, finds what searching every bucket would. */
    method PollFromBucket(bucketIndex: nat, capacity: Capacity) returns (b: Option<DirectBuffer>)
      requires Valid() && bucketIndex < |buckets| && IsBucket(First(), |buckets|, capacity, bucketIndex)
      modifies this
      ensures Valid()
      ensures b.None? ==> buckets == old(buckets) && NoFit(buckets, capacity)
      ensures b.Some? ==> Took(old(buckets), capacity, buckets, b.value) && b.value.direct
    {
      hide Ladder, RoundUp, IsBucket, Base;
      LowerTooSmall(capacity, bucketIndex);
      var bucket := buckets[bucketIndex];
      for j := 0 to |bucket|
        invariant buckets == old(buckets)
        invariant forall k :: 0 <= k < j ==> bucket[k].capacity < capacity
      {
        var candidate := bucket[j];
        if candidate.capacity >= capacity {
          assert FirstFit(buckets, capacity, Place(bucketIndex, j));
          assert RightPlace(candidate, bucketIndex);
          buckets := buckets[bucketIndex := Without(bucket, j)];
          return Some(candidate);
        }
      }
      for i := bucketIndex + 1 to |buckets|
        invariant buckets == old(buckets)
        invariant forall k :: bucketIndex < k < i ==> buckets[k] == []
      {
        var largerBucket := buckets[i];
        if largerBucket != [] {
          HigherLargeEnough(capacity, bucketIndex, Place(i, 0));
          assert FirstFit(buckets, capacity, Place(i, 0));
          assert RightPlace(largerBucket[0], i);
          assert Without(largerBucket, 0) == largerBucket[1..];
          buckets := buckets[i := largerBucket[1..]];
          return Some(largerBucket[0]);
        }
      }
      return None;
    }

    /** Borrowing takes the first buffer of the pool that is large enough for
        the rounded request, and allocates exactly when there is none. */
    method Borrow(minCapacity: Int32) returns (r: Result<DirectBuffer>)
      requires Valid()
      modifies this, Pooled(buckets)
      ensures Valid()
      ensures var capacity := RoundUp(if minCapacity < minimumCapacity then minimumCapacity else minCapacity, alignment);
              if capacity > 0x7FFF_FFFF then r == Err(TooLarge) && buckets == old(buckets)
              else
                && r.Ok? && r.value.capacity >= capacity && r.value.direct && r.value.Cleared()
                && (if NoFit(old(buckets), capacity)
                    then fresh(r.value) && r.value.capacity == capacity && buckets == old(buckets)
                    else Took(old(buckets), capacity, buckets, r.value))
      ensures r.Ok? ==> r.value.capacity >= minCapacity && r.value.capacity >= minimumCapacity
      ensures forall b :: b in Pooled(old(buckets)) && (r.Err? || b != r.value) ==> unchanged(b)
    {
      var required: Capacity := Max(minCapacity, minimumCapacity);
      var capacity: Capacity :- RoundedCapacity(required, alignment);
      RoundUpAgain(required, alignment);
      RoundUpCovers(required, alignment);
      var bucketIndex := BucketIndex(capacity);
      var polled := PollFromBucket(bucketIndex.value, capacity);
      var buffer;
      if polled.None? {
        buffer := new DirectBuffer(capacity, true);
      } else {
        buffer := polled.value;
      }
      buffer.Clear();
      return Ok(buffer);
    }

    /** Any direct buffer is pooled, in the bucket of its capacity; one whose
        capacity cannot be rounded is cleared and refused. */
    method Release(buffer: DirectBuffer) returns (r: Result<nat>)
      requires Valid()
      modifies this, buffer
      ensures Valid()
      ensures !buffer.direct ==> r == Ok(|buckets|) && buckets == old(buckets) && unchanged(buffer)
      ensures buffer.direct ==>
                && buffer.Cleared()
                && (r.Err? <==> RoundUp(buffer.capacity, alignment) > MAX_INT)
                && (if r.Err? then buckets == old(buckets)
                    else r.value < |old(buckets)| && buckets == old(buckets[r.value := buckets[r.value] + [buffer]]))
      ensures buffer.direct && r.Ok? ==>
                && (forall j :: 0 <= j < r.value ==> Base(First(), j) < RoundUp(buffer.capacity, alignment))
                && (r.value + 1 < |buckets| ==> RoundUp(buffer.capacity, alignment) <= Base(First(), r.value))
    {
      if !buffer.direct {
        return Ok(|buckets|);
      }
      buffer.Clear();
      var bucketIndex :- BucketIndex(buffer.capacity);
      if bucketIndex < |buckets| {
        assert RightPlace(buffer, bucketIndex);
        buckets := buckets[bucketIndex := buckets[bucketIndex] + [buffer]];
      }
      return Ok(bucketIndex);
    }

    method Clear()
      requires Valid()
      modifies this
      ensures Valid() && |buckets| == |old(buckets)| && NoFit(buckets, 0)
    {
      for i := 0 to |buckets|
        invariant Valid() && |buckets| == |old(buckets)|
        invariant forall k :: 0 <= k < i ==> buckets[k] == []
      {
        buckets := buckets[i := []];
      }
    }
  }

  // ----- exclusive use -----

  lemma AddInFront<T>(front: multiset<T>, a: multiset<T>, b: multiset<T>, x: multiset<T>, y: multiset<T>)
    requires a + x == b + y
    ensures front + a + x == front + b + y
  {
    assert front + a + x == front + (a + x);
    assert front + b + y == front + (b + y);
  }

  lemma {:induction false} ContentsUpdate(bs: Buckets, i: nat, bucket: seq<DirectBuffer>)
    requires i < |bs|
    ensures Contents(bs[i := bucket]) + multiset(bs[i]) == Contents(bs) + multiset(bucket)
  {
    if i > 0 {
      ContentsUpdate(bs[1..], i - 1, bucket);
      assert bs[i := bucket][1..] == bs[1..][i - 1 := bucket];
      AddInFront(multiset(bs[0]), Contents(bs[i := bucket][1..]), Contents(bs[1..]), multiset(bs[i]), multiset(bucket));
    } else {
      assert bs[i := bucket][1..] == bs[1..];
    }
  }

  lemma WithoutContents<T>(s: seq<T>, j: nat)
    requires j < |s|
    ensures multiset(Without(s, j)) + multiset{s[j]} == multiset(s)
  {
    assert s == s[..j] + [s[j]] + s[j + 1..];
  }

  lemma Cancel<T>(after: multiset<T>, taken: multiset<T>, left: multiset<T>, before: multiset<T>, b: T)
    requires after + taken == before + left && left + multiset{b} == taken
    ensures after + multiset{b} == before
  {
    forall x: T | true ensures (after + multiset{b})[x] == before[x] {
      assert (after + taken)[x] == (before + left)[x] && (left + multiset{b})[x] == taken[x];
    }
  }

  /** A borrowed buffer leaves the pool, everything else stays: if no buffer
      was pooled twice, the borrower holds the only claim to it. */
  lemma TakenOnce(before: Buckets, capacity: nat, after: Buckets, b: DirectBuffer)
    requires Took(before, capacity, after, b)
    ensures Contents(after) + multiset{b} == Contents(before)
    ensures Contents(before)[b] == 1 ==> b !in Contents(after)
  {
    var at :| FirstFit(before, capacity, at) && b == before[at.bucket][at.index]
              && after == before[at.bucket := Without(before[at.bucket], at.index)];
    ContentsUpdate(before, at.bucket, Without(before[at.bucket], at.index));
    WithoutContents(before[at.bucket], at.index);
    Cancel(Contents(after), multiset(before[at.bucket]), multiset(Without(before[at.bucket], at.index)),
           Contents(before), b);
  }
}
