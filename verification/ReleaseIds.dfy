/** Identifiers of released sockets (makeId and checkId in src/api/amiga_generic.c). An id is a
    signed 32-bit LONG; the code compares it with FIRSTUNIQUEID as an unsigned one. */
module ReleaseIds {

  const FIRST: int := 65536          // FIRSTUNIQUEID
  const LIMIT: int := 0x8000_0000
  const STEP: int := 4               // sizeof (void *)
  const COUNT: nat := 536854528      // how many multiples of 4 lie in FIRST..LIMIT
  const UNIQUE_ID: int := -1

  type LONG = x: int | -LIMIT <= x < LIMIT

  /** The test (ULONG)id >= FIRSTUNIQUEID: such ids must be the only one of their kind. */
  predicate MustBeUnique(id: LONG): (u: bool)
    ensures u <==> 65536 <= id % 0x1_0000_0000
  {
    id < 0 || FIRST <= id
  }

  /** Released sockets never share an id that must be unique. */
  ghost predicate Distinct(ids: seq<LONG>) {
    forall i, j | 0 <= i < j < |ids| :: MustBeUnique(ids[i]) ==> ids[i] != ids[j]
  }

  function Candidate(k: nat): int {
    FIRST + STEP * k
  }

  /** The counter's range: every value it can take is Candidate(k) for one k < COUNT. */
  ghost predicate IsCounter(u: int) {
    FIRST <= u < LIMIT && u % STEP == 0
  }

  ghost predicate AllTaken(ids: seq<LONG>) {
    forall u: int | IsCounter(u) :: u in ids
  }

  ghost function Taken(n: nat): set<int> {
    if n == 0 then {} else Taken(n - 1) + {Candidate(n - 1)}
  }

  lemma {:induction false} TakenSize(n: nat)
    ensures |Taken(n)| == n && forall u <- Taken(n) :: u < Candidate(n)
  {
    if n > 0 {
      TakenSize(n - 1);
      assert Candidate(n - 1) !in Taken(n - 1);
    }
  }

  lemma {:induction false} TakenWithin(ids: seq<LONG>, n: nat)
    requires n <= COUNT && AllTaken(ids)
    ensures Taken(n) <= AsSet(ids)
  {
    if n > 0 {
      TakenWithin(ids, n - 1);
      assert IsCounter(Candidate(n - 1));
    }
  }

  ghost function AsSet(ids: seq<LONG>): set<int> {
    set u: int | u in ids
  }

  lemma {:induction false} SetOfSeqSize(ids: seq<LONG>)
    ensures |AsSet(ids)| <= |ids|
  {
    if ids != [] {
      var k := |ids| - 1;
      SetOfSeqSize(ids[..k]);
      assert ids == ids[..k] + [ids[k]];
      assert AsSet(ids) == AsSet(ids[..k]) + {ids[k]};
    }
  }

  /** With fewer released sockets than candidates, some candidate is free. */
  lemma SomeFree(ids: seq<LONG>)
    requires |ids| < COUNT
    ensures !AllTaken(ids)
  {
    if AllTaken(ids) {
      TakenSize(COUNT);
      TakenWithin(ids, COUNT);
      SetOfSeqSize(ids);
      SubsetSize(Taken(COUNT), AsSet(ids));
    }
  }

  lemma SubsetSize(a: set<int>, b: set<int>)
    requires a <= b
    ensures |a| <= |b|
  {
    assert a * b == a && a + b == b;
    assert |a + b| == |a| + |b| - |a * b| && |b - a| == |b| - |a * b|;
  }

  method CheckId(ids: seq<LONG>, id: LONG) returns (free: bool)
    ensures free <==> id !in ids
  {
    var n := 0;
    while n < |ids|
      invariant 0 <= n <= |ids| && id !in ids[..n]
    {
      if ids[n] == id {
        return false;
      }
      n := n + 1;
    }
    return true;
  }

  /** v lies on the counter's way from u0, excluded, to u, excluded. */
  ghost predicate OnTheWay(u0: int, u: int, v: int) {
    IsCounter(v) && if u0 < u then u0 < v < u else v < u || u0 < v
  }

  class IdCounter {
    var uniqueId: LONG

    constructor ()
      ensures uniqueId == FIRST
    {
      uniqueId := FIRST;
    }

    ghost predicate Valid()
      reads this
    {
      IsCounter(uniqueId)
    }

    /** makeId. Asked for UNIQUE_ID it gives the next free candidate after the last one given,
        wrapping to FIRST, and it gets there as long as one is free; asked for another id it
        gives that id back if it is free, and otherwise -1. */
    method MakeId(ids: seq<LONG>, id: LONG) returns (r: LONG)
      requires Valid() && (id == UNIQUE_ID ==> !AllTaken(ids))
      modifies this
      ensures Valid()
      ensures id == UNIQUE_ID ==> r == uniqueId && r !in ids
      ensures id == UNIQUE_ID ==> forall v: int | OnTheWay(old(uniqueId), r, v) :: v in ids
      ensures id != UNIQUE_ID ==> uniqueId == old(uniqueId) && r == if id in ids then -1 else id
    {
      if id != UNIQUE_ID {
        var free := CheckId(ids, id);
        return if free then id else -1;
      }
      ghost var u0 := uniqueId;
      ghost var wrapped := false;
      while true
        invariant IsCounter(u0) && IsCounter(uniqueId)
        invariant if wrapped then uniqueId < u0 else u0 <= uniqueId
        invariant forall v: int | IsCounter(v) ::
                    (if wrapped then v <= uniqueId || u0 < v else u0 < v <= uniqueId) ==> v in ids
        decreases if wrapped then u0 - uniqueId else LIMIT - uniqueId + u0
      {
        if uniqueId + STEP >= LIMIT {
          uniqueId := FIRST;   // the sum is negative as a LONG
          wrapped := true;
        } else {
          uniqueId := uniqueId + STEP;
        }
        var free := CheckId(ids, uniqueId);
        if free {
          return uniqueId;
        }
      }
    }
  }

  /** A node added with a fresh id, or with one that need not be unique, keeps the ids distinct. */
  lemma AddKeepsDistinct(ids: seq<LONG>, id: LONG)
    requires Distinct(ids) && (MustBeUnique(id) ==> id !in ids)
    ensures Distinct(ids + [id])
  {
  }

  lemma RemoveKeepsDistinct(ids: seq<LONG>, k: nat)
    requires Distinct(ids) && k < |ids|
    ensures Distinct(ids[..k] + ids[k + 1..])
  {
  }
}
