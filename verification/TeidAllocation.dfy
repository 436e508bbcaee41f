/**
 Drawing tunnel endpoint identifiers: a 32-bit counter that wraps, retried until the GTP-U
 stack accepts the identifier. The stack is known here only as the set of live endpoints:
 creating an endpoint succeeds iff it is not live, destroying one iff it is.
 */
module TeidAllocation {
  import opened Common
  import opened Counting

  type Teid = uint32

  /** The identifier produced by the k-th draw from counter value `c`. */
  function Nth(c: Teid, k: nat): Teid {
    (c + k) % TWO_32
  }

  /** The counter can still reach an identifier the stack will accept. */
  ghost predicate HasFree(live: set<Teid>) {
    exists t: Teid :: t !in live
  }

  /** Draw k is the first one the stack accepts. */
  ghost predicate IsFirstFree(c: Teid, live: set<Teid>, k: nat) {
    k >= 1 && Nth(c, k) !in live && forall j :: 1 <= j < k ==> Nth(c, j) in live
  }

  /** The identifiers of draws 1..k. */
  function Draws(c: Teid, k: nat): set<Teid> {
    if k == 0 then {} else Draws(c, k - 1) + {Nth(c, k)}
  }

  lemma DrawsDiffer(c: Teid, i: nat, j: nat)
    requires i < j < i + TWO_32
    ensures Nth(c, i) != Nth(c, j)
  {
  }

  lemma NthNext(c: Teid, k: nat)
    ensures Nth(Nth(c, k), 1) == Nth(c, k + 1)
  {}

  lemma {:induction false} DrawsAreDistinct(c: Teid, k: nat)
    requires k <= TWO_32
    ensures |Draws(c, k)| == k
  {
    if k > 0 {
      DrawsAreDistinct(c, k - 1);
      NotDrawn(c, k - 1, k);
      AddNew(Draws(c, k - 1), Nth(c, k));
    }
  }

  lemma AddNew<T>(a: set<T>, x: T)
    requires x !in a
    ensures |a + {x}| == |a| + 1
  {}

  lemma {:induction false} NotDrawn(c: Teid, k: nat, n: nat)
    requires k < n <= TWO_32
    ensures Nth(c, n) !in Draws(c, k)
  {
    if k > 0 {
      NotDrawn(c, k - 1, n);
      DrawsDiffer(c, k, n);
    }
  }

  lemma {:induction false} DrawnInside(c: Teid, k: nat, live: set<Teid>)
    requires forall j :: 1 <= j <= k ==> Nth(c, j) in live
    ensures Draws(c, k) <= live
  {
    if k > 0 { DrawnInside(c, k - 1, live); }
  }

  lemma FreeMeansFewer(live: set<Teid>)
    requires HasFree(live)
    ensures |live| < TWO_32
  {
    var t: Teid :| t !in live;
    MissingMeansFewer(live, t, TWO_32);
  }

  lemma MissingMeansFewer(live: set<Teid>, t: Teid, n: nat)
    requires t !in live && n <= TWO_32 && forall x :: x in live + {t} ==> x < n
    ensures |live| < n
  {
    SubsetSize(live + {t}, Below(n));
  }

  /** Room for `n` more endpoints: `n` retry loops in a row will stop. */
  ghost predicate Room(live: set<Teid>, n: nat) {
    |live| + n <= TWO_32
  }

  lemma RoomMeansFree(live: set<Teid>, n: nat)
    requires Room(live, n) && n > 0
    ensures HasFree(live)
  {
    var all := Below(TWO_32);
    if forall t: Teid :: t in live {
      assert all <= live;
      SubsetSize(all, live);
    }
  }

  /** Draws that were all refused are distinct live identifiers, so there are at most |live| of them. */
  lemma RefusedDrawsAreFew(c: Teid, live: set<Teid>, k: nat)
    requires HasFree(live) && forall j :: 1 <= j <= k ==> Nth(c, j) in live
    ensures k <= |live|
  {
    FreeMeansFewer(live);
    if k > |live| {
      DrawsAreDistinct(c, |live| + 1);
      DrawnInside(c, |live| + 1, live);
      SubsetSize(Draws(c, |live| + 1), live);
    }
  }

  /** From any counter value the retry loop stops, after at most |live| + 1 draws, exactly when
      the live endpoints do not cover all 2^32 identifiers. */
  lemma RetryStopsIff(c: Teid, live: set<Teid>)
    ensures HasFree(live) <==> exists k: nat :: IsFirstFree(c, live, k)
    ensures forall k: nat :: HasFree(live) && IsFirstFree(c, live, k) ==> k <= |live| + 1
  {
    if HasFree(live) {
      var k := SearchFree(c, live, 0);
      forall k: nat | IsFirstFree(c, live, k) ensures k <= |live| + 1 {
        RefusedDrawsAreFew(c, live, k - 1);
      }
    }
  }

  lemma SearchFree(c: Teid, live: set<Teid>, done: nat) returns (k: nat)
    requires HasFree(live) && forall j :: 1 <= j <= done ==> Nth(c, j) in live
    ensures IsFirstFree(c, live, k)
    decreases |live| + 1 - done
  {
    RefusedDrawsAreFew(c, live, done);
    if Nth(c, done + 1) in live {
      k := SearchFree(c, live, done + 1);
    } else {
      k := done + 1;
    }
  }

  /** The number of draws the retry loop makes. */
  ghost function FirstFree(c: Teid, live: set<Teid>): (k: nat)
    requires HasFree(live)
    ensures IsFirstFree(c, live, k) && k <= |live| + 1
  {
    RetryStopsIff(c, live);
    var k: nat :| IsFirstFree(c, live, k);
    k
  }

  lemma FirstFreeUnique(c: Teid, live: set<Teid>, i: nat, k: nat)
    requires IsFirstFree(c, live, i) && IsFirstFree(c, live, k)
    ensures i == k
  {}

  /** A counter that has not wrapped, with nothing live above it, delivers its successor at once. */
  lemma SuccessorIsFree(c: Teid, live: set<Teid>)
    requires c + 1 < TWO_32 && c + 1 !in live
    ensures HasFree(live) && Nth(c, FirstFree(c, live)) == c + 1
  {
    assert Nth(c, 1) == c + 1;
    assert IsFirstFree(c, live, 1);
    FirstFreeUnique(c, live, 1, FirstFree(c, live));
  }

  /** The stack instance and the counter behind gtpv1u_new_teid. */
  class TeidSource {
    var counter: Teid
    var live: set<Teid>

    constructor ()
      ensures counter == 0 && live == {}
    {
      counter, live := 0, {};
    }

    method NewTeid() returns (teid: Teid)
      modifies this`counter
      ensures teid == counter == Nth(old(counter), 1)
    {
      counter := (counter + 1) % TWO_32;
      teid := counter;
    }

    method CreateEndpoint(teid: Teid) returns (ok: bool)
      modifies this`live
      ensures ok == (teid !in old(live)) && live == old(live) + {teid}
    {
      ok := teid !in live;
      live := live + {teid};
    }

    method DestroyEndpoint(teid: Teid) returns (ok: bool)
      modifies this`live
      ensures ok == (teid in old(live)) && live == old(live) - {teid}
    {
      ok := teid in live;
      live := live - {teid};
    }

    /** The do-while loop of both create handlers. It draws the first identifier, in counter
        order, that is not live, and the bound on its draws is its termination measure. */
    method Draw() returns (teid: Teid)
      requires HasFree(live)
      modifies this
      ensures teid == counter == Nth(old(counter), FirstFree(old(counter), old(live)))
      ensures teid !in old(live) && live == old(live) + {teid}
    {
      teid := NewTeid();
      var ok := CreateEndpoint(teid);
      ghost var c, was, k := old(counter), old(live), 1;
      while !ok
        invariant 1 <= k && teid == counter == Nth(c, k)
        invariant forall j :: 1 <= j < k ==> Nth(c, j) in was
        invariant ok == (teid !in was)
        invariant live == was + {teid}
        decreases |was| + 1 - k
      {
        RefusedDrawsAreFew(c, was, k);
        NthNext(c, k);
        teid := NewTeid();
        ok := CreateEndpoint(teid);
        k := k + 1;
      }
      FirstFreeUnique(c, was, k, FirstFree(c, was));
    }
  }
}
