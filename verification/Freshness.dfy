/** The crawler's filter: a poll is published when it is newer than all before it. */
module Freshness {

  /** The kept `updated` value after the polls `us`. */
  function Floor(us: seq<int>, start: int): int {
    if us == [] then start
    else
      var f := Floor(us[..|us| - 1], start);
      if us[|us| - 1] > f then us[|us| - 1] else f
  }

  /** What the filter publishes of `us`. */
  function Fresh(us: seq<int>, start: int): seq<int> {
    if us == [] then []
    else
      var before := us[..|us| - 1];
      Fresh(before, start) + if us[|us| - 1] > Floor(before, start) then [us[|us| - 1]] else []
  }

  /** Poll `k` is above `start` and above every earlier poll. */
  predicate IsRecord(us: seq<int>, start: int, k: nat)
    requires k < |us|
  {
    us[k] > start && forall j :: 0 <= j < k ==> us[j] < us[k]
  }

  /** The positions of the records, in order. */
  function RecordIndices(us: seq<int>, start: int): seq<nat> {
    if us == [] then []
    else
      RecordIndices(us[..|us| - 1], start) + if IsRecord(us, start, |us| - 1) then [|us| - 1] else []
  }

  predicate Increasing(s: seq<int>) {
    forall i, j :: 0 <= i < j < |s| ==> s[i] < s[j]
  }

  /** The kept value is the maximum of the start and all polls. */
  lemma {:induction false} FloorIsMaximum(us: seq<int>, start: int)
    ensures Floor(us, start) >= start && forall k :: 0 <= k < |us| ==> us[k] <= Floor(us, start)
    ensures Floor(us, start) == start || Floor(us, start) in us
  {
    if us != [] {
      var before := us[..|us| - 1];
      FloorIsMaximum(before, start);
      assert forall k :: 0 <= k < |us| - 1 ==> us[k] == before[k];
      assert Floor(before, start) in before ==> Floor(before, start) in us;
    }
  }

  /** The last poll is published exactly when it is a record. */
  lemma LastIsRecord(us: seq<int>, start: int)
    requires us != []
    ensures us[|us| - 1] > Floor(us[..|us| - 1], start) <==> IsRecord(us, start, |us| - 1)
  {
    var before := us[..|us| - 1];
    FloorIsMaximum(before, start);
    assert forall k :: 0 <= k < |us| - 1 ==> us[k] == before[k];
    if IsRecord(us, start, |us| - 1) && Floor(before, start) in before {
      var k :| 0 <= k < |before| && before[k] == Floor(before, start);
      assert us[k] < us[|us| - 1];
    }
  }

  /** The positions are increasing and are exactly those of the records. */
  lemma {:induction false} RecordIndicesExactly(us: seq<int>, start: int)
    ensures Increasing(RecordIndices(us, start))
    ensures forall k: nat :: k in RecordIndices(us, start) <==> k < |us| && IsRecord(us, start, k)
  {
    if us != [] {
      var before := us[..|us| - 1];
      RecordIndicesExactly(before, start);
      forall k: nat | k < |before|
        ensures IsRecord(us, start, k) <==> IsRecord(before, start, k)
      {
        assert forall j :: 0 <= j <= k ==> us[j] == before[j];
      }
      var r := RecordIndices(before, start);
      assert forall i :: 0 <= i < |r| ==> r[i] in r;
    }
  }

  /** What is published is the polls at the records, in order, and nothing else. */
  lemma {:induction false} FreshIsRecords(us: seq<int>, start: int)
    ensures var r := RecordIndices(us, start);
            && |Fresh(us, start)| == |r|
            && forall i :: 0 <= i < |r| ==> r[i] < |us| && Fresh(us, start)[i] == us[r[i]]
  {
    if us != [] {
      FreshIsRecords(us[..|us| - 1], start);
      LastIsRecord(us, start);
    }
  }

  /** Stopping anywhere and going on with the kept value publishes the same. */
  lemma {:induction false} FreshSplits(a: seq<int>, b: seq<int>, start: int)
    ensures Floor(a + b, start) == Floor(b, Floor(a, start))
    ensures Fresh(a + b, start) == Fresh(a, start) + Fresh(b, Floor(a, start))
  {
    if b == [] {
      assert a + b == a;
    } else {
      var c := b[..|b| - 1];
      FreshSplits(a, c, start);
      assert (a + b)[..|a + b| - 1] == a + c;
      assert (a + b)[|a + b| - 1] == b[|b| - 1];
    }
  }

  /** The published values increase and lie above the start. */
  lemma FreshIncreases(us: seq<int>, start: int)
    ensures Increasing(Fresh(us, start))
    ensures forall i :: 0 <= i < |Fresh(us, start)| ==> Fresh(us, start)[i] > start
  {
    var r := RecordIndices(us, start);
    RecordIndicesExactly(us, start);
    FreshIsRecords(us, start);
    assert forall i :: 0 <= i < |r| ==> r[i] in r;
    forall i, j | 0 <= i < j < |r|
      ensures Fresh(us, start)[i] < Fresh(us, start)[j]
    {
      assert IsRecord(us, start, r[j]) && r[i] < r[j];
    }
  }

  /** An increasing list above the start is published whole. */
  lemma {:induction false} IncreasingIsFresh(us: seq<int>, start: int)
    requires Increasing(us) && forall i :: 0 <= i < |us| ==> us[i] > start
    ensures Fresh(us, start) == us
  {
    if us != [] {
      IncreasingIsFresh(us[..|us| - 1], start);
      LastIsRecord(us, start);
    }
  }

  /** Filtering what was published changes nothing. */
  lemma FreshIsIdempotent(us: seq<int>, start: int)
    ensures Fresh(Fresh(us, start), start) == Fresh(us, start)
  {
    FreshIncreases(us, start);
    IncreasingIsFresh(Fresh(us, start), start);
  }
}
