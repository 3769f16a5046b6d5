/**
 * The partitioned id allocator (Repository.GetNextId) and the id given to a
 * same-sex sibling of an envelope-randomised participant, which comes from
 * above the envelope ceiling.
 */
module IdAllocation {
  import opened Wrappers
  import opened Domain

  /** The ids of `ids` inside the closed range [lo, hi]. */
  function InRange(ids: set<int>, lo: int, hi: int): (r: set<int>)
    ensures forall x :: x in r <==> x in ids && lo <= x <= hi
  {
    set x | x in ids && lo <= x <= hi
  }

  /** A set with no element is the empty set. */
  lemma NoElementMeansEmpty(s: set<int>)
    ensures (forall x :: x !in s) ==> s == {}
  {
    var e: set<int> := {};
    assert (forall x :: x !in s) ==> (forall x :: x in s <==> x in e);
  }

  lemma HasElement(s: set<int>)
    requires s != {}
    ensures exists x :: x in s
  {
    NoElementMeansEmpty(s);
  }

  lemma {:induction false} MaxExists(s: set<int>)
    requires s != {}
    ensures exists m :: m in s && forall y :: y in s ==> y <= m
    decreases |s|
  {
    HasElement(s);
    var x :| x in s;
    var rest := s - {x};
    NoElementMeansEmpty(rest);
    assert forall y :: y in s ==> y == x || y in rest;
    if forall y :: y !in rest {
      assert forall y :: y in s ==> y <= x;
    } else {
      MaxExists(rest);
      var m :| m in rest && forall y :: y in rest ==> y <= m;
      var big := if m < x then x else m;
      assert forall y :: y in s ==> y == x || y in rest;
      assert forall y :: y in s ==> y <= big;
    }
  }

  /** The largest element of a non-empty set. */
  function Max(s: set<int>): (m: int)
    requires s != {}
    ensures m in s && forall y :: y in s ==> y <= m
  {
    MaxExists(s);
    var m :| m in s && forall y :: y in s ==> y <= m;
    m
  }

  /** LINQ's `DefaultIfEmpty().Max()` over ints: 0 for the empty set. */
  function MaxOrZero(s: set<int>): int
  {
    if s == {} then 0 else Max(s)
  }

  /**
   * GetNextId: one more than the largest existing id in [centreId, maxIdForSite],
   * counting from centreId when there is none (the source tests the query's
   * result against 0), and RangeExhausted when that passes maxIdForSite.
   * For the positive site ids the trial uses, the result is exactly 1 + (largest
   * in-range id, or centreId), it is fresh and greater than every in-range id,
   * and it never leaves the site's range.
   */
  function NextId(ids: set<int>, centreId: int, maxIdForSite: int): (r: Result<int, Error>)
    ensures r.Success? ==> centreId < r.value <= maxIdForSite
    ensures r.Failure? ==> r.error == RangeExhausted(centreId)
    ensures 0 <= centreId && r.Success? ==>
              r.value !in ids && forall x :: x in ids && centreId <= x <= maxIdForSite ==> x < r.value
    ensures 0 < centreId ==>
              var used := InRange(ids, centreId, maxIdForSite);
              var top := if used == {} then centreId else Max(used);
              r == if top + 1 <= maxIdForSite then Success(top + 1) else Failure(RangeExhausted(centreId))
  {
    var m := MaxOrZero(InRange(ids, centreId, maxIdForSite));
    var next := (if m == 0 then centreId else m) + 1;
    if next > maxIdForSite then Failure(RangeExhausted(centreId)) else Success(next)
  }

  /** GetNextId as the repository calls it: the site is looked up first
      (`First` throws for an unknown site). */
  function NextIdFor(ids: set<int>, sites: map<int, Centre>, centreId: int): (r: Result<int, Error>)
    ensures centreId !in sites ==> r == Failure(SiteNotFound(centreId))
    ensures centreId in sites ==> r == NextId(ids, centreId, sites[centreId].maxIdForSite)
  {
    if centreId !in sites then Failure(SiteNotFound(centreId))
    else NextId(ids, centreId, sites[centreId].maxIdForSite)
  }

  /**
   * The id of a same-sex sibling of an envelope-randomised participant
   * (AddParticipant, lines 209-217): one more than the largest id above the
   * envelope ceiling, or than the ceiling itself when there is none. For a
   * non-negative ceiling it is above the ceiling and above every existing id.
   */
  function IdAboveEnvelopes(ids: set<int>, maxEnvelopeNumber: int): (r: int)
    ensures 0 <= maxEnvelopeNumber ==>
              var above := set x | x in ids && x > maxEnvelopeNumber;
              r == 1 + (if above == {} then maxEnvelopeNumber else Max(above))
    ensures 0 <= maxEnvelopeNumber ==> r > maxEnvelopeNumber && r !in ids
    ensures 0 <= maxEnvelopeNumber ==> forall x :: x in ids ==> x < r
  {
    var above := set x | x in ids && x > maxEnvelopeNumber;
    var m := MaxOrZero(above);
    NoElementMeansEmpty(above);
    assert 0 <= maxEnvelopeNumber && above != {} ==> m == Max(above) && m > maxEnvelopeNumber;
    assert forall x :: x in ids ==> x in above || x <= maxEnvelopeNumber;
    (if m == 0 then maxEnvelopeNumber else m) + 1
  }

  /** The ids lo + 1, ..., lo + n. */
  function Span(lo: int, n: nat): (r: set<int>)
    ensures forall x :: x in r <==> lo < x <= lo + n
  {
    if n == 0 then {} else Span(lo, n - 1) + {lo + n}
  }

  /**
   * Repeated allocation: each allocated id is added to the table before the
   * next allocation.
   */
  function AllocateMany(ids: set<int>, centreId: int, maxIdForSite: int, n: nat): (r: Result<set<int>, Error>)
    decreases n
  {
    if n == 0 then Success(ids)
    else match AllocateMany(ids, centreId, maxIdForSite, n - 1)
      case Failure(e) => Failure(e)
      case Success(s) =>
        match NextId(s, centreId, maxIdForSite)
        case Failure(e) => Failure(e)
        case Success(id) => Success(s + {id})
  }

  /** In a site with no record yet, the n-th allocation returns centreId + n,
      so n allocations hand out exactly centreId + 1, ..., centreId + n. */
  lemma {:induction false} AllocateManyFromEmptySite(ids: set<int>, centreId: int, maxIdForSite: int, n: nat)
    requires 0 < centreId
    requires InRange(ids, centreId, maxIdForSite) == {}
    requires centreId + n <= maxIdForSite
    ensures AllocateMany(ids, centreId, maxIdForSite, n) == Success(ids + Span(centreId, n))
  {
    if n == 0 {
      assert forall x :: x in ids + Span(centreId, 0) <==> x in ids;
      assert ids + Span(centreId, 0) == ids;
    } else {
      AllocateManyFromEmptySite(ids, centreId, maxIdForSite, n - 1);
      var s := ids + Span(centreId, n - 1);
      var used := InRange(s, centreId, maxIdForSite);
      NoElementMeansEmpty(InRange(ids, centreId, maxIdForSite));
      assert forall x :: x in used <==> x in Span(centreId, n - 1);
      if n == 1 {
        NoElementMeansEmpty(used);
        assert used == {};
      } else {
        assert centreId + n - 1 in used;
        assert Max(used) == centreId + n - 1;
      }
      assert NextId(s, centreId, maxIdForSite) == Success(centreId + n);
      assert forall x :: x in s + {centreId + n} <==> x in ids + Span(centreId, n);
      assert s + {centreId + n} == ids + Span(centreId, n);
    }
  }

  /** Allocation past the end of the range fails and never yields an id outside it. */
  lemma NextIdNeverWraps(ids: set<int>, centreId: int, maxIdForSite: int)
    requires 0 < centreId
    requires maxIdForSite in ids
    ensures NextId(ids, centreId, maxIdForSite) == Failure(RangeExhausted(centreId))
  {
    if centreId <= maxIdForSite {
      var used := InRange(ids, centreId, maxIdForSite);
      assert maxIdForSite in used;
    }
  }
}
