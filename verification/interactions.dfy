/** The running "latest interaction" of one party on one pull request: the
    body and the publication instant of the most recent review or comment
    seen so far. Instants are totally ordered integers; 0 stands for the
    zero instant an empty interaction starts from. */
module Interactions {

  datatype Interaction = Interaction(body: string, at: int) {

    /** This interaction happened strictly before instant t. */
    predicate Before(t: int) {
      at < t
    }

    /** This interaction happened strictly after instant t; declared
        beside Before but never consulted by the classification. */
    predicate After(t: int) {
      t < at
    }
  }

  /** The starting value of every accumulator: empty body, zero instant. */
  const Zero: Interaction := Interaction("", 0)

  function Max(a: int, b: int): int {
    if a < b then b else a
  }

  /** One step of the accumulator: the candidate replaces the running value
      only when it is strictly later, so on a tie the running value stays. */
  function Offer(acc: Interaction, item: Interaction): (r: Interaction)
    ensures r.at == Max(acc.at, item.at)
    ensures r == acc || r == item
    ensures acc.Before(item.at) ==> r == item
    ensures item.at <= acc.at ==> r == acc
  {
    if acc.Before(item.at) then item else acc
  }

  /** The accumulator after offering every item, in order, to seed. */
  function Scan(seed: Interaction, items: seq<Interaction>): (r: Interaction)
    ensures seed.at <= r.at
    ensures forall k :: 0 <= k < |items| ==> items[k].at <= r.at
    ensures r == seed || (r in items && seed.at < r.at)
    decreases |items|
  {
    if items == [] then seed
    else
      var init := items[..|items| - 1];
      assert forall k :: 0 <= k < |init| ==> init[k] == items[k];
      Offer(Scan(seed, init), items[|items| - 1])
  }

  /** The latest of the items, starting from the zero interaction. */
  function Latest(items: seq<Interaction>): Interaction {
    Scan(Zero, items)
  }

  /** Reference definition of the latest instant: the largest instant among
      the items and the zero instant, taken from the front. */
  function MaxAt(items: seq<Interaction>): int {
    if items == [] then 0 else Max(items[0].at, MaxAt(items[1..]))
  }

  lemma {:induction false} MaxAtBounds(items: seq<Interaction>)
    ensures 0 <= MaxAt(items)
    ensures forall k :: 0 <= k < |items| ==> items[k].at <= MaxAt(items)
    ensures MaxAt(items) == 0 || exists k :: 0 <= k < |items| && items[k].at == MaxAt(items)
  {
    if items != [] {
      var tail := items[1..];
      MaxAtBounds(tail);
      assert forall k :: 1 <= k < |items| ==> items[k] == tail[k - 1];
      if MaxAt(items) != 0 && MaxAt(items) != items[0].at {
        var j :| 0 <= j < |tail| && tail[j].at == MaxAt(tail);
        assert items[j + 1].at == MaxAt(items);
      }
    }
  }

  /** Offering one more item to a scan is one more accumulator step. */
  lemma ScanStep(seed: Interaction, items: seq<Interaction>, x: Interaction)
    ensures Scan(seed, items + [x]) == Offer(Scan(seed, items), x)
  {
    assert (items + [x])[..|items|] == items;
  }

  /** Scanning a concatenation is scanning the second part from where the
      first part left the accumulator. */
  lemma {:induction false} ScanAppend(seed: Interaction, a: seq<Interaction>, b: seq<Interaction>)
    ensures Scan(seed, a + b) == Scan(Scan(seed, a), b)
    decreases |b|
  {
    if b == [] {
      assert a + b == a;
    } else {
      var init := b[..|b| - 1];
      ScanAppend(seed, a, init);
      assert (a + b)[..|a + b| - 1] == a + init;
      assert (a + b)[|a + b| - 1] == b[|b| - 1];
    }
  }

  /** The accumulator ends at the maximum instant over the items and zero. */
  lemma LatestAtIsMaximum(items: seq<Interaction>)
    ensures Latest(items).at == MaxAt(items)
  {
    MaxAtBounds(items);
    var r := Latest(items);
    if MaxAt(items) != 0 {
      var k :| 0 <= k < |items| && items[k].at == MaxAt(items);
      assert MaxAt(items) <= r.at;
    }
  }

  /** The accumulator never holds an item at or before zero, and among items
      sharing the latest instant it holds the first one scanned. */
  lemma {:induction false} LatestKeepsFirstOfTies(items: seq<Interaction>)
    ensures Latest(items).at == 0 ==> Latest(items) == Zero
    ensures 0 < Latest(items).at ==>
      exists k :: 0 <= k < |items| && items[k] == Latest(items) &&
        forall j :: 0 <= j < k ==> items[j].at < items[k].at
    decreases |items|
  {
    if items != [] {
      var n := |items|;
      var init := items[..n - 1];
      assert forall k :: 0 <= k < |init| ==> init[k] == items[k];
      LatestKeepsFirstOfTies(init);
      var prev := Latest(init);
      if prev.at < items[n - 1].at {
        assert Latest(items) == items[n - 1];
        assert forall j :: 0 <= j < n - 1 ==> items[j].at <= prev.at;
      } else {
        assert Latest(items) == prev;
        if 0 < prev.at {
          var k :| 0 <= k < |init| && init[k] == prev && forall j :: 0 <= j < k ==> init[j].at < init[k].at;
          assert items[k] == Latest(items);
        }
      }
    }
  }

  /** Latest wins whatever the scan order: an item strictly later than all
      others and than zero is the result. */
  lemma LatestUniqueMaximum(items: seq<Interaction>, k: nat)
    requires k < |items| && 0 < items[k].at
    requires forall j :: 0 <= j < |items| && j != k ==> items[j].at < items[k].at
    ensures Latest(items) == items[k]
  {
    var r := Latest(items);
    assert items[k].at <= r.at;
    var j :| 0 <= j < |items| && items[j] == r;
    assert j == k;
  }

  /** The latest instant does not depend on the order of the items. */
  lemma LatestAtOrderIndependent(a: seq<Interaction>, b: seq<Interaction>)
    requires multiset(a) == multiset(b)
    ensures Latest(a).at == Latest(b).at
  {
    LatestBelow(a, b);
    LatestBelow(b, a);
  }

  lemma LatestBelow(a: seq<Interaction>, b: seq<Interaction>)
    requires multiset(a) <= multiset(b)
    ensures Latest(a).at <= Latest(b).at
  {
    var r := Latest(a);
    if r != Zero {
      assert r in multiset(a);
      assert r in b;
      var k :| 0 <= k < |b| && b[k] == r;
    }
  }

  /** One party's latest interaction is strictly before the other's exactly
      when some item of the other's is later than zero and than every item
      of the first party's. */
  lemma LatestBeforeIff(mine: seq<Interaction>, theirs: seq<Interaction>)
    ensures Latest(mine).Before(Latest(theirs).at) <==>
      exists k :: 0 <= k < |theirs| && 0 < theirs[k].at &&
        forall j :: 0 <= j < |mine| ==> mine[j].at < theirs[k].at
  {
    var m, t := Latest(mine), Latest(theirs);
    if m.Before(t.at) {
      assert t != Zero;
      var k :| 0 <= k < |theirs| && theirs[k] == t;
      assert forall j :: 0 <= j < |mine| ==> mine[j].at < theirs[k].at;
    }
    if exists k :: 0 <= k < |theirs| && 0 < theirs[k].at &&
        forall j :: 0 <= j < |mine| ==> mine[j].at < theirs[k].at
    {
      var k :| 0 <= k < |theirs| && 0 < theirs[k].at &&
        forall j :: 0 <= j < |mine| ==> mine[j].at < theirs[k].at;
      assert theirs[k].at <= t.at;
      if m != Zero {
        var j :| 0 <= j < |mine| && mine[j] == m;
      }
    }
  }
}
