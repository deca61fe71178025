/**
 * The message cache of the server: an insertion-ordered set of message ids
 * that refuses ids it already holds and, after each insertion, drops its
 * oldest ids while its size is at least its capacity. It therefore never
 * holds more than `capacity - 1` ids once an insertion has returned.
 */
module ServerMessage {

  /** No element occurs twice. */
  predicate Distinct<T(==)>(s: seq<T>)
  {
    forall i, j :: 0 <= i < j < |s| ==> s[i] != s[j]
  }

  /**
   * The ids that remain after the eviction loop: the oldest are dropped one at a
   * time while at least `capacity` remain, so what is left is the newest
   * `capacity - 1` of them (all of them when there are fewer).
   */
  function Evict<T>(s: seq<T>, capacity: int): (r: seq<T>)
    requires capacity >= 1
    ensures |r| == if |s| < capacity then |s| else capacity - 1
    ensures r == s[|s| - |r|..]
  {
    if |s| < capacity then s else s[|s| - (capacity - 1)..]
  }

  /** One turn of the eviction loop leaves what the whole loop leaves. */
  lemma EvictStep<T>(s: seq<T>, capacity: int)
    requires capacity >= 1 && |s| >= capacity
    ensures Evict(s[1..], capacity) == Evict(s, capacity)
  {
    assert s[1..][|s| - capacity..] == s[|s| - (capacity - 1)..];
  }

  /** With capacity one, the eviction loop empties the cache. */
  lemma EvictCapacityOne<T>(s: seq<T>)
    ensures Evict(s, 1) == []
  {
  }

  /**
   * Adding one id to a cache below its capacity evicts at most one id, the
   * oldest; the survivors keep their order.
   */
  lemma EvictAfterAdd<T>(s: seq<T>, x: T, capacity: int)
    requires capacity >= 1 && |s| < capacity
    ensures Evict(s + [x], capacity) == if |s| + 1 < capacity then s + [x] else (s + [x])[1..]
  {
  }

  /** With room for at least one id, the id just added is the newest survivor. */
  lemma NewestSurvives<T>(s: seq<T>, x: T, capacity: int)
    requires capacity >= 2
    ensures var r := Evict(s + [x], capacity); |r| >= 1 && r[|r| - 1] == x
  {
  }

  /** Eviction keeps only ids that were there, without repeating any, in their order. */
  lemma EvictKeeps<T>(s: seq<T>, x: T, capacity: int)
    requires capacity >= 1 && Distinct(s) && x !in s
    ensures Distinct(Evict(s + [x], capacity))
    ensures forall y :: y in Evict(s + [x], capacity) ==> y in s || y == x
  {
    var t := s + [x];
    assert Distinct(t) by {
      forall i, j | 0 <= i < j < |t|
        ensures t[i] != t[j]
      {
        if j == |s| {
          assert t[i] in s;
        }
      }
    }
    var r := Evict(t, capacity);
    forall y | y in r
      ensures y in s || y == x
    {
      var k :| 0 <= k < |r| && r[k] == y;
      assert y == t[|t| - |r| + k];
    }
  }

  class MessageCache<T(==)> {
    const capacity: int
    /** The ids held, oldest first. */
    var elements: seq<T>

    /** No id is held twice, and a usable cache holds fewer ids than its capacity. */
    ghost predicate Valid()
      reads this
    {
      Distinct(elements) && (capacity >= 1 ==> |elements| < capacity)
    }

    constructor (capacity: int)
      ensures Valid()
      ensures this.capacity == capacity && elements == []
    {
      this.capacity := capacity;
      elements := [];
    }

    /**
     * `add`: an id already held is refused and nothing changes; a new id is
     * appended, the call reports success, and then the oldest ids are removed
     * while the size is at least the capacity, possibly the new id itself.
     */
    method Add(x: T) returns (success: bool)
      requires Valid() && capacity >= 1
      modifies this
      ensures Valid()
      ensures success <==> x !in old(elements)
      ensures !success ==> elements == old(elements)
      ensures success ==> elements == Evict(old(elements) + [x], capacity)
    {
      if x in elements {
        return false;
      }
      EvictKeeps(elements, x, capacity);
      elements := elements + [x];
      success := true;
      while |elements| >= capacity
        invariant Evict(elements, capacity) == Evict(old(elements) + [x], capacity)
        decreases |elements|
      {
        EvictStep(elements, capacity);
        elements := elements[1..];
      }
    }
  }
}
