/** The positions asked for in a getblocktxn message (BlockTransactionsRequest in
    src/blockencodings.h): 16-bit indexes written as differences. */
module CompactIndexes {
  import opened Streams

  const MAX16: nat := 65535

  /** A negative difference is sent as a 64-bit number. */
  function Sent(d: int): (r: nat)
    requires d >= -0x1_0000_0000_0000_0000
    ensures d >= 0 ==> r == d
  {
    if d >= 0 then d else d + 0x1_0000_0000_0000_0000
  }

  ghost predicate Indexes16(indexes: seq<nat>) { forall i | 0 <= i < |indexes| :: indexes[i] <= MAX16 }

  /** The differences written for a list of 16-bit indexes. */
  function Differences(indexes: seq<nat>): (r: seq<nat>)
    requires Indexes16(indexes)
    ensures |r| == |indexes|
  {
    seq(|indexes|, i requires 0 <= i < |indexes| => Sent(indexes[i] as int - if i == 0 then 0 else indexes[i - 1] + 1))
  }

  ghost predicate Increasing(indexes: seq<nat>) {
    Indexes16(indexes) && forall i, j | 0 <= i < j < |indexes| :: indexes[i] < indexes[j]
  }

  /** The indexes read, offset being where the next may start; a 16-bit offset wraps after the
      last index of all. */
  function FromDifferences(diffs: seq<nat>, offset: nat): Option<seq<nat>> {
    if diffs == [] then Some([])
    else if diffs[0] > MAX16 || diffs[0] + offset > MAX16 then None
    else match FromDifferences(diffs[1..], (diffs[0] + offset + 1) % (MAX16 + 1))
         case None => None
         case Some(rest) => Some([diffs[0] + offset] + rest)
  }

  /** The offset after the first k indexes were read. */
  function OffsetAt(indexes: seq<nat>, k: nat): nat
    requires k <= |indexes|
  {
    if k == 0 then 0 else (indexes[k - 1] + 1) % (MAX16 + 1)
  }

  lemma {:induction false} DifferencesFrom(indexes: seq<nat>, k: nat)
    requires Increasing(indexes) && k <= |indexes|
    ensures FromDifferences(Differences(indexes)[k..], OffsetAt(indexes, k)) == Some(indexes[k..])
    decreases |indexes| - k
  {
    hide Differences, OffsetAt;
    if k < |indexes| {
      DifferencesFrom(indexes, k + 1);
      NextIndex(indexes, k);
      assert Differences(indexes)[k..][1..] == Differences(indexes)[k + 1..] && indexes[k..] == [indexes[k]] + indexes[k + 1..];
    } else {
      assert Differences(indexes)[k..] == [] && indexes[k..] == [];
    }
  }

  lemma NextIndex(indexes: seq<nat>, k: nat)
    requires Increasing(indexes) && k < |indexes|
    ensures Differences(indexes)[k] <= MAX16 && Differences(indexes)[k] + OffsetAt(indexes, k) == indexes[k]
    ensures OffsetAt(indexes, k + 1) == (indexes[k] + 1) % (MAX16 + 1)
  {
    hide Differences;
    DifferenceAt(indexes, k);
    if k > 0 { assert indexes[k - 1] < indexes[k]; }
  }

  lemma DifferenceAt(indexes: seq<nat>, k: nat)
    requires Indexes16(indexes) && k < |indexes|
    ensures k == 0 ==> Differences(indexes)[k] == indexes[k]
    ensures k > 0 && indexes[k - 1] < indexes[k] ==> Differences(indexes)[k] == indexes[k] - indexes[k - 1] - 1
    ensures k > 0 && indexes[k - 1] >= indexes[k] ==> Differences(indexes)[k] > MAX16
  {
  }

  lemma {:induction false} StepsIncrease(indexes: seq<nat>, i: nat, j: nat)
    requires i < j < |indexes| && forall k | 0 < k < |indexes| :: indexes[k - 1] < indexes[k]
    ensures indexes[i] < indexes[j]
    decreases j
  {
    if i < j - 1 { StepsIncrease(indexes, i, j - 1); }
  }

  /** A list of 16-bit indexes is read back if it is strictly increasing, and refused otherwise. */
  lemma IndexesRoundTrip(indexes: seq<nat>)
    requires Indexes16(indexes)
    ensures FromDifferences(Differences(indexes), 0) == if Increasing(indexes) then Some(indexes) else None
  {
    hide Differences;
    if Increasing(indexes) {
      DifferencesFrom(indexes, 0);
      assert Differences(indexes)[0..] == Differences(indexes) && indexes[0..] == indexes;
    } else if k: nat :| 0 < k < |indexes| && indexes[k - 1] >= indexes[k] {
      DifferenceAt(indexes, k);
      TooLarge(Differences(indexes), 0, k);
    } else {
      forall i, j | 0 <= i < j < |indexes| ensures indexes[i] < indexes[j] { StepsIncrease(indexes, i, j); }
    }
  }

  /** One past the last index that the differences lead to. */
  function End(diffs: seq<nat>, offset: nat): nat {
    if diffs == [] then offset else End(diffs[1..], offset + diffs[0] + 1)
  }

  lemma {:induction false} EndGrows(diffs: seq<nat>, offset: nat)
    ensures End(diffs, offset) >= offset + |diffs|
  {
    if diffs != [] { EndGrows(diffs[1..], offset + diffs[0] + 1); }
  }

  lemma Prepended(x: nat, rest: seq<nat>)
    requires Increasing(rest) && x <= MAX16 && forall i | 0 <= i < |rest| :: rest[i] > x
    ensures Increasing([x] + rest)
  {
  }

  lemma ReadFirst(diffs: seq<nat>, offset: nat)
    requires diffs != [] && diffs[0] + offset <= MAX16 && (diffs[0] + offset < MAX16 || |diffs| == 1)
    requires FromDifferences(diffs[1..], offset + diffs[0] + 1).Some?
    ensures FromDifferences(diffs, offset) == Some([diffs[0] + offset] + FromDifferences(diffs[1..], offset + diffs[0] + 1).value)
  {
    if |diffs| == 1 { assert diffs[1..] == []; }
  }

  /** A list within 16 bits is accepted, and comes out strictly increasing. */
  lemma {:induction false} AcceptedIncreasing(diffs: seq<nat>, offset: nat)
    requires End(diffs, offset) <= MAX16 + 1
    ensures var r := FromDifferences(diffs, offset);
            r.Some? && |r.value| == |diffs| && Increasing(r.value) && forall i | 0 <= i < |r.value| :: r.value[i] >= offset
    decreases |diffs|
  {
    if diffs != [] {
      var next := offset + diffs[0] + 1;
      EndGrows(diffs[1..], next);
      AcceptedIncreasing(diffs[1..], next);
      ReadFirst(diffs, offset);
      hide Increasing, FromDifferences, End;
      Prepended(diffs[0] + offset, FromDifferences(diffs[1..], next).value);
    }
  }

  /** An accepted list that goes beyond 16 bits has wrapped and is not increasing. */
  lemma {:induction false} WrappedNotIncreasing(diffs: seq<nat>, offset: nat)
    requires offset <= MAX16 && End(diffs, offset) > MAX16 + 1 && FromDifferences(diffs, offset).Some?
    ensures !Increasing(FromDifferences(diffs, offset).value)
    decreases |diffs|
  {
    var r := FromDifferences(diffs, offset).value;
    var next := offset + diffs[0] + 1;
    assert r[0] == offset + diffs[0];
    if next <= MAX16 {
      WrappedNotIncreasing(diffs[1..], next);
      var rest := r[1..];
      assert FromDifferences(diffs[1..], next) == Some(rest);
    } else {
      assert r[0] == MAX16 && diffs[1..] != [];
      assert |r| > 1 && r[1] <= MAX16;
    }
  }

  /** Two differences for which that happens. */
  lemma WrapsAround()
    ensures FromDifferences([MAX16, 0], 0) == Some([MAX16, 0]) && End([MAX16, 0], 0) == MAX16 + 2
    ensures !Increasing([MAX16, 0])
  {
    assert [MAX16, 0][1..] == [0] && [0][1..] == [];
    assert FromDifferences([0], 0) == Some([0] + []) && [0] + [] == [0];
    assert [MAX16] + [0] == [MAX16, 0];
    assert End([0], MAX16 + 1) == End([], MAX16 + 2);
    var r := [MAX16, 0];
    assert r[0] > r[1];
  }

  /** Reading: each difference must fit 16 bits, and so must the indexes they lead to. */
  method ReadIndexes(diffs: seq<nat>) returns (r: Option<seq<nat>>)
    ensures r == FromDifferences(diffs, 0)
  {
    for i := 0 to |diffs|
      invariant forall k | 0 <= k < i :: diffs[k] <= MAX16
    {
      if diffs[i] > MAX16 {
        TooLarge(diffs, 0, i);
        return None;
      }
    }
    var indexes: seq<nat>, offset: nat := [], 0;
    assert diffs[0..] == diffs;
    JoinNone(FromDifferences(diffs, 0));
    for j := 0 to |diffs|
      invariant FromDifferences(diffs, 0) == Joined(indexes, FromDifferences(diffs[j..], offset))
    {
      assert diffs[j..][1..] == diffs[j + 1..];
      if diffs[j] + offset > MAX16 { return None; }
      JoinNext(indexes, diffs[j] + offset, FromDifferences(diffs[j + 1..], (diffs[j] + offset + 1) % (MAX16 + 1)));
      indexes := indexes + [diffs[j] + offset];
      offset := (diffs[j] + offset + 1) % (MAX16 + 1);
    }
    assert indexes + [] == indexes;
    return Some(indexes);
  }

  function Joined(done: seq<nat>, rest: Option<seq<nat>>): Option<seq<nat>> {
    match rest
    case None => None
    case Some(more) => Some(done + more)
  }

  lemma JoinNone(r: Option<seq<nat>>)
    ensures Joined([], r) == r
  {
    if r.Some? { assert [] + r.value == r.value; }
  }

  lemma JoinNext(done: seq<nat>, x: nat, r: Option<seq<nat>>)
    ensures r.Some? ==> done + ([x] + r.value) == done + [x] + r.value
  {
  }

  lemma {:induction false} TooLarge(diffs: seq<nat>, offset: nat, i: nat)
    requires i < |diffs| && diffs[i] > MAX16
    ensures FromDifferences(diffs, offset) == None
    decreases |diffs|
  {
    if i > 0 { TooLarge(diffs[1..], (diffs[0] + offset + 1) % (MAX16 + 1), i - 1); }
  }
}
