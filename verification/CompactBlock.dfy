/** Compact block relay (src/blockencodings.cpp, src/blockencodings.h; BIP 152). */
module CompactBlock {
  import opened Streams
  import opened CompactIndexes
  import opened CompactSpec

  // ------------------------------------------------------------------- the class

  /** Endless stands for a call that does not return. */
  datatype Status = Ok | Invalid | Failed | CheckBlockFailed | Endless

  /** A block of a million bytes holds at most this many transactions of ten bytes. */
  const MAX_TRANSACTIONS: nat := 1_000_000 / 10

  class PartiallyDownloadedBlock {
    var headerNull: bool
    var available: Slots
    var mempoolCount: int

    constructor ()
      ensures headerNull && available == [] && mempoolCount == 0
    {
      headerNull, available, mempoolCount := true, [], 0;
    }

    method PlacePrefilled(m: Message) returns (ok: bool)
      requires |available| == |m.shortIds| + |m.prefilled| && forall p | 0 <= p < |available| :: available[p].None?
      modifies this`available
      ensures ok <==> Acceptable(m, |m.prefilled|)
      ensures ok ==> Placed(m, |m.prefilled|, available)
    {
      var last := -1;
      FreeAll(available, |available|);
      hide Placed, Free;
      assert Placed(m, 0, available) by { NonePlaced(m, available); }
      for i := 0 to |m.prefilled|
        invariant last == Last(m.prefilled, i) && Acceptable(m, i) && Placed(m, i, available)
      {
        assert Position(m.prefilled, i) == last + m.prefilled[i].index + 1;
        if m.prefilled[i].tx.isNull { return false; }
        last := last + m.prefilled[i].index + 1;
        if last > MAX16 { return false; }
        if last > |m.shortIds| + i { return false; }
        PlaceNext(m, i, available);
        assert |available| == |m.shortIds| + |m.prefilled| by { PlacedSize(m, i, available); }
        available := available[last := Some(m.prefilled[i].tx)];
      }
      ok := true;
    }

    /** The empty positions get the short ids in order. */
    method AssignShortIds(m: Message, crowded: nat -> bool) returns (st: Status, ids: map<nat, nat>)
      requires Acceptable(m, |m.prefilled|) && Placed(m, |m.prefilled|, available)
      ensures st == if |m.prefilled| == MAX16 + 1 && m.shortIds != [] then Endless
                    else if Distinct(m.shortIds) && forall i: nat | i < |m.shortIds| :: !crowded(i) then Ok
                    else Failed
      ensures st == Ok ==> Assigned(m, available, ids)
    {
      hide Free, AssignedTo, Distinct, Placed, Acceptable, Assigned, Low16;
      ids := map[];
      var offset: nat := 0;
      ghost var n, places := |available|, Targets(available);
      NoneFree(available);
      NoneAssigned(m.shortIds, places);
      PlacedCount(m, available);
      AtMost16(m);
      for i := 0 to |m.shortIds|
        invariant |m.prefilled| <= MAX16 || i + offset == 0
        invariant offset <= MAX16 && i + offset <= n && |Free(available, i + offset)| == i
        invariant AssignedTo(m.shortIds, places, i, ids) && forall j: nat | j < i :: !crowded(j)
      {
        var ended;
        ended, offset := NextFree(m, i, offset);
        if !ended { return Endless, ids; }
        FreeStep(available, i + offset);
        FreePrefix(available, i + offset + 1, n);
        assert places[i] == Low16(i + offset);
        AssignNext(m.shortIds, places, i, ids);
        ids := ids[m.shortIds[i] := Low16(i + offset)];
        if crowded(i) { return Failed, ids; }
      }
      TableSize(m.shortIds, places, ids);
      if |ids| != |m.shortIds| { return Failed, ids; }
      AllAssigned(m, available, ids);
      st := Ok;
    }

    /** The offset after k more steps. */
    static function Later(start: nat, k: nat): nat { Low16(start + k) }

    /** Skips the positions that are taken.  The offset has 16 bits: after 2^16 steps it is what it
        was, and the search goes on for ever. */
    method NextFree(ghost m: Message, i: nat, start: nat) returns (ended: bool, offset: nat)
      requires Acceptable(m, |m.prefilled|) && Placed(m, |m.prefilled|, available)
      requires start <= MAX16 && i + start <= |available| && |Free(available, i + start)| == i < |Free(available, |available|)|
      requires |m.prefilled| <= MAX16 || i + start == 0
      ensures ended <==> |m.prefilled| <= MAX16
      ensures ended ==> start <= offset <= MAX16 && i + offset < |available| && available[i + offset].None? && |Free(available, i + offset)| == i
      ensures !ended ==> forall k: nat :: i + Later(start, k) < |available| && available[i + Later(start, k)].Some?
    {
      hide Free, Placed, Acceptable, Later;
      offset := start;
      var steps: nat := 0;
      ghost var full := |m.prefilled| > MAX16;
      if full { Circle(m, start); }
      PlacedCount(m, available);
      PlacedSize(m, |m.prefilled|, available);
      while available[i + offset].Some?
        invariant steps <= MAX16 + 1 && offset <= MAX16 && i + offset < |available|
        invariant !full ==> offset == start + steps && |Free(available, i + offset)| == i
        decreases MAX16 + 1 - steps
      {
        if steps == MAX16 + 1 { return false, offset; }
        if !full { Onward(m, i, offset); }
        offset := (offset + 1) % (MAX16 + 1);
        steps := steps + 1;
      }
      ended := true;
    }

    /** With 2^16 prefilled transactions every offset leads to one. */
    lemma Circle(m: Message, start: nat)
      requires Acceptable(m, |m.prefilled|) && Placed(m, |m.prefilled|, available) && |m.prefilled| > MAX16
      ensures |available| > MAX16 && forall p | 0 <= p <= MAX16 :: available[p].Some?
      ensures forall k: nat :: Later(start, k) < |available| && available[Later(start, k)].Some?
    {
      hide Placed, Acceptable, Low16;
      AtMost16(m);
      AllTaken(m, available);
      forall k: nat ensures Later(start, k) <= MAX16 { Low16Is(start + k); }
    }

    /** With fewer the offset has not reached the end of its range. */
    lemma Onward(m: Message, i: nat, offset: nat)
      requires Placed(m, |m.prefilled|, available) && |m.prefilled| <= MAX16
      requires i + offset < |available| && available[i + offset].Some? && |Free(available, i + offset)| == i < |Free(available, |available|)|
      ensures offset < MAX16 && i + offset + 1 < |available| && |Free(available, i + offset + 1)| == i
    {
      FreeTaken(available, i + offset);
      TakenGrows(available, i + offset + 1, |available|);
    }

    /** What holds once the candidates c were looked at. */
    ghost predicate Scanning(t: Table, c: seq<Offer>, a: Slots, have: seq<bool>, base: int)
      reads this
    {
      Progress(t, c, a, available, have) && mempoolCount == base + |Found(available, have)|
    }

    /** One candidate: taken if it is the first for its position, given up if it is not. */
    method Consider(short: nat -> nat, ids: map<nat, nat>, ghost c: seq<Offer>, ghost a: Slots, hash: nat, tx: Tx, have: seq<bool>, extra: bool, ghost base: int)
      returns (have': seq<bool>)
      requires Scanning(Table(short, ids), c, a, have, base) && forall x | x in ids :: ids[x] < |a|
      modifies this`available, this`mempoolCount
      ensures Scanning(Table(short, ids), c + [Offer(hash, tx, extra)], a, have', base)
    {
      hide Found, Settled, Offered;
      have' := have;
      var id := short(hash);
      ghost var x := Offer(hash, tx, extra);
      if id in ids {
        var p := ids[id];
        Advance(Table(short, ids), c, x, a, available, have, p);
        if !have[p] {
          FoundFirst(available, have, p, tx);
          available := available[p := Some(tx)];
          have' := have[p := true];
          mempoolCount := mempoolCount + 1;
        } else if available[p].Some? && (!extra || available[p].value.witnessHash != tx.witnessHash) {
          FoundGivenUp(available, have, p);
          available := available[p := None];
          mempoolCount := mempoolCount - 1;
        }
        assert have' == have[p := true];
        assert available == old(available)[p := After(old(available)[p], have[p], x)];
      } else {
        Ignored(Table(short, ids), c, x, a, available, have);
      }
    }

    /** Looks through a list of candidates, and stops when every position has one. */
    method Scan(short: nat -> nat, ids: map<nat, nat>, ghost c: seq<Offer>, ghost a: Slots, list: Candidates, have: seq<bool>, extra: bool, ghost base: int)
      returns (have': seq<bool>, ghost n: nat)
      requires Scanning(Table(short, ids), c, a, have, base) && forall x | x in ids :: ids[x] < |a|
      modifies this`available, this`mempoolCount
      ensures n <= |list| && Scanning(Table(short, ids), c + Offers(list[..n], extra), a, have', base)
      ensures n < |list| ==> mempoolCount == |ids|
    {
      hide Scanning;
      have' := have;
      assert c + Offers(list[..0], extra) == c;
      for k := 0 to |list|
        invariant Scanning(Table(short, ids), c + Offers(list[..k], extra), a, have', base)
      {
        have' := Consider(short, ids, c + Offers(list[..k], extra), a, list[k].0, list[k].1, have', extra, base);
        assert c + Offers(list[..k], extra) + [Offer(list[k].0, list[k].1, extra)] == c + Offers(list[..k + 1], extra);
        if mempoolCount == |ids| { return have', k + 1; }
      }
      n := |list|;
    }

    /** InitData.  crowded(i) says that the hash table became too uneven at short id i. */
    method InitData(m: Message, headerIsNull: bool, pool: Candidates, extra: Candidates, crowded: nat -> bool)
      returns (st: Status, ghost placed: Slots, ghost ids: map<nat, nat>, ghost j: nat, ghost k: nat)
      modifies this
      ensures st == if headerIsNull || |m.shortIds| + |m.prefilled| == 0 || |m.shortIds| + |m.prefilled| > MAX_TRANSACTIONS then Invalid
                    else if !old(headerNull) || old(available) != [] then Failed
                    else if !Acceptable(m, |m.prefilled|) then Invalid
                    else if |m.prefilled| == MAX16 + 1 && m.shortIds != [] then Endless
                    else if !Distinct(m.shortIds) || exists i: nat :: i < |m.shortIds| && crowded(i) then Failed
                    else Ok
      ensures st == Ok ==> !headerNull && Placed(m, |m.prefilled|, placed) && Assigned(m, placed, ids)
      ensures st == Ok ==> j <= |pool| && k <= |extra| && Exact(Table(m.short, ids), Looked(pool, j, extra, k), placed, available)
      ensures st == Ok ==> mempoolCount == old(mempoolCount) + |Taken(Table(m.short, ids), Looked(pool, j, extra, k), available)|
      ensures st == Ok && old(mempoolCount) == 0 && j < |pool| ==> AllOffered(Table(m.short, ids), Offers(pool[..j], false))
      ensures st == Ok && old(mempoolCount) == 0 && k < |extra| ==> forall x | x in ids :: ids[x] < |available| && available[ids[x]].Some?
    {
      hide Free, Placed, Distinct, Acceptable, Assigned, Taken;
      placed, ids, j, k := [], map[], 0, 0;
      if headerIsNull || (m.shortIds == [] && m.prefilled == []) { return Invalid, placed, ids, j, k; }
      if |m.shortIds| + |m.prefilled| > MAX_TRANSACTIONS { return Invalid, placed, ids, j, k; }
      if !headerNull || available != [] { return Failed, placed, ids, j, k; }
      headerNull := headerIsNull;
      available := seq(|m.shortIds| + |m.prefilled|, i => None);
      var ok := PlacePrefilled(m);
      if !ok { return Invalid, placed, ids, j, k; }
      placed := available;
      var outcome, positions := AssignShortIds(m, crowded);
      if outcome != Ok { return outcome, placed, ids, j, k; }
      ids := positions;
      j, k := Match(m, placed, positions, pool, extra);
      st := Ok;
    }

    /** The candidates are looked at. */
    method Match(m: Message, ghost placed: Slots, ids: map<nat, nat>, pool: Candidates, extra: Candidates)
      returns (ghost j: nat, ghost k: nat)
      requires Assigned(m, placed, ids) && available == placed
      modifies this`available, this`mempoolCount
      ensures j <= |pool| && k <= |extra| && Exact(Table(m.short, ids), Looked(pool, j, extra, k), placed, available)
      ensures mempoolCount == old(mempoolCount) + |Taken(Table(m.short, ids), Looked(pool, j, extra, k), available)|
      ensures old(mempoolCount) == 0 && j < |pool| ==> AllOffered(Table(m.short, ids), Offers(pool[..j], false))
      ensures old(mempoolCount) == 0 && k < |extra| ==> forall x | x in ids :: ids[x] < |available| && available[ids[x]].Some?
    {
      var have := seq(|available|, i => false);
      ghost var t, base := Table(m.short, ids), mempoolCount;
      ProgressStart(t, placed, have);
      forall x | x in ids ensures ids[x] < |placed| { InRange(m, placed, ids, x); }
      hide Scanning, Exact, Offered, Assigned, Taken;
      assert Scanning(t, [], placed, have, base) by { StartScan(t, placed, have, base); }
      have, j := Scan(m.short, ids, [], placed, pool, have, false, base);
      ghost var c := Offers(pool[..j], false);
      assert [] + c == c;
      if base == 0 && j < |pool| { ScannedAll(t, c, placed, have); }
      have, k := Scan(m.short, ids, c, placed, extra, have, true, base);
      Scanned(t, Looked(pool, j, extra, k), placed, have, base);
      if base == 0 && k < |extra| { ScannedAll(t, Looked(pool, j, extra, k), placed, have); }
    }

    lemma StartScan(t: Table, a: Slots, have: seq<bool>, base: int)
      requires available == a && Progress(t, [], a, a, have) && Found(a, have) == {} && mempoolCount == base
      ensures Scanning(t, [], a, have, base)
    {
    }

    lemma Scanned(t: Table, c: seq<Offer>, a: Slots, have: seq<bool>, base: int)
      requires Scanning(t, c, a, have, base)
      ensures Exact(t, c, a, available) && mempoolCount == base + |Taken(t, c, available)|
    {
      hide Settled, Offered;
      assert Found(available, have) == Taken(t, c, available);
    }

    lemma ScannedAll(t: Table, c: seq<Offer>, a: Slots, have: seq<bool>)
      requires Scanning(t, c, a, have, 0) && mempoolCount == |t.ids| && forall x | x in t.ids :: t.ids[x] < |a|
      ensures AllOffered(t, c) && forall x | x in t.ids :: t.ids[x] < |available| && available[t.ids[x]].Some?
    {
      AllFound(t, c, a, available, have);
    }

    predicate IsTxAvailable(index: nat)
      requires index < |available|
      reads this
    {
      !headerNull && available[index].Some?
    }

    /** FillBlock.  With too few transactions it stops, having moved those before the gap away;
        otherwise the object is used up.  check stands for CheckBlock. */
    method FillBlock(missing: seq<Tx>, check: seq<Tx> -> Outcome) returns (st: Status, block: seq<Tx>)
      modifies this
      ensures old(headerNull) ==> st == Invalid && available == old(available) && headerNull
      ensures !old(headerNull) ==> var k := |Free(old(available), |old(available)|)|;
                && (headerNull <==> k <= |missing|) && (k <= |missing| ==> available == [])
                && (k != |missing| ==> st == Invalid)
                && (k == |missing| ==> block == Merged(old(available), missing, |old(available)|) && st == Judged(check(block)))
    {
      block := [];
      if headerNull { return Invalid, block; }
      var offset: nat := 0;
      ghost var a := available;
      NoneFree(a);
      for i := 0 to |available|
        invariant |available| == |a| && !headerNull && (forall p | i <= p < |a| :: available[p] == a[p])
        invariant offset == |Free(a, i)| <= |missing| && block == Merged(a, missing, i)
      {
        FreePrefix(a, i + 1, |a|);
        if available[i].None? {
          if |missing| <= offset { return Invalid, block; }
          block := block + [missing[offset]];
          offset := offset + 1;
        } else {
          block := block + [available[i].value];
          available := available[i := None];
        }
      }
      headerNull, available := true, [];
      if |missing| != offset { return Invalid, block; }
      st := Judged(check(block));
    }

    /** The positions to ask for, as they are kept in 16 bits. */
    method MissingIndexes() returns (r: seq<nat>)
      requires !headerNull
      ensures r == Targets(available)
    {
      hide Low16;
      r := [];
      for i := 0 to |available|
        invariant |r| == |Free(available, i)| && forall k | 0 <= k < |r| :: r[k] == Low16(Free(available, i)[k])
      {
        if !IsTxAvailable(i) { r := r + [Low16(i)]; }
      }
    }
  }

  datatype Outcome = Fine | Corrupt | Bad

  function Judged(o: Outcome): Status {
    match o
    case Fine => Ok
    case Corrupt => Failed
    case Bad => CheckBlockFailed
  }

  /** The transactions at hand, and the missing ones in the empty positions, up to position n. */
  function Merged(a: Slots, missing: seq<Tx>, n: nat): (r: seq<Tx>)
    requires n <= |a| && |Free(a, n)| <= |missing|
    ensures |r| == n
  {
    if n == 0 then []
    else
      Merged(a, missing, n - 1) + [if a[n - 1].Some? then a[n - 1].value else missing[|Free(a, n - 1)|]]
  }

  // ------------------------------------------------------------- reconstruction

  /** Nothing but transactions of the block, each in its place. */
  ghost predicate Partial(vtx: seq<Tx>, a: Slots) { |a| == |vtx| && forall p | 0 <= p < |a| && a[p].Some? :: a[p].value == vtx[p] }

  /** The transactions of the block that are not at hand, in order. */
  ghost predicate Supplies(vtx: seq<Tx>, a: Slots, missing: seq<Tx>)
    requires |a| == |vtx|
  {
    |missing| == |Free(a, |a|)| && forall i | 0 <= i < |missing| :: Free(a, |a|)[i] < |vtx| && missing[i] == vtx[Free(a, |a|)[i]]
  }

  /** Exactly the missing transactions complete the block. */
  lemma {:induction false} Completed(vtx: seq<Tx>, a: Slots, missing: seq<Tx>, n: nat)
    requires Partial(vtx, a) && Supplies(vtx, a, missing) && n <= |a|
    ensures |Free(a, n)| <= |missing| && Merged(a, missing, n) == vtx[..n]
    decreases n
  {
    FreePrefix(a, n, |a|);
    if n > 0 {
      Completed(vtx, a, missing, n - 1);
      if a[n - 1].None? { assert Free(a, n)[|Free(a, n - 1)|] == n - 1; }
    }
  }

  function IdOf(tx: Tx, useWitness: bool): nat { if useWitness then tx.witnessHash else tx.hash }

  /** The message stands for the block: the prefilled transactions are its own, and the short ids
      are those of the others in order. */
  ghost predicate Describes(m: Message, vtx: seq<Tx>, useWitness: bool, placed: Slots)
    requires |Free(placed, |placed|)| == |m.shortIds|
  {
    && Partial(vtx, placed)
    && forall i | 0 <= i < |m.shortIds| ::
         Free(placed, |placed|)[i] < |vtx| && m.shortIds[i] == m.short(IdOf(vtx[Free(placed, |placed|)[i]], useWitness))
  }

  /** A candidate with the short id of a transaction of the block is that transaction. */
  ghost predicate NoCollision(c: Candidates, short: nat -> nat, vtx: seq<Tx>, useWitness: bool) {
    forall k, p | 0 <= k < |c| && 0 <= p < |vtx| :: short(c[k].0) == short(IdOf(vtx[p], useWitness)) ==> c[k].1 == vtx[p]
  }

  lemma OnlyOwn(m: Message, c: Candidates, vtx: seq<Tx>, useWitness: bool, placed: Slots, a: Slots)
    requires |Free(placed, |placed|)| == |m.shortIds| && Describes(m, vtx, useWitness, placed) && Sound(m, c, placed, a)
    requires NoCollision(c, m.short, vtx, useWitness)
    ensures Partial(vtx, a)
  {
    hide Free;
    FreeIs(placed, |placed|);
    forall p | 0 <= p < |a| && a[p].Some? ensures a[p].value == vtx[p] {
      if placed[p].None? {
        var i: nat := IndexOf(Free(placed, |placed|), p);
        assert Among(c, m.short, m.shortIds[i], a[p].value);
      }
    }
  }

  /** The message for a block: the first transaction in full, and the short ids of the others. */
  method Announce(vtx: seq<Tx>, useWitness: bool, short: nat -> nat) returns (m: Message)
    requires vtx != []
    ensures m.short == short && m.prefilled == [Prefilled(0, vtx[0])] && |m.shortIds| == |vtx| - 1
    ensures forall i | 0 <= i < |m.shortIds| :: m.shortIds[i] == short(IdOf(vtx[i + 1], useWitness))
  {
    var shortIds: seq<nat> := [];
    for i := 1 to |vtx|
      invariant |shortIds| == i - 1 && forall k | 0 <= k < i - 1 :: shortIds[k] == short(IdOf(vtx[k + 1], useWitness))
    {
      shortIds := shortIds + [short(IdOf(vtx[i], useWitness))];
    }
    m := Message(shortIds, [Prefilled(0, vtx[0])], short);
  }

  lemma {:induction false} FreeAfterFirst(a: Slots, n: nat)
    requires 1 <= n <= |a| && a[0].Some? && forall p | 1 <= p < n :: a[p].None?
    ensures Free(a, n) == seq(n - 1, i => i + 1)
  {
    if n > 1 { FreeAfterFirst(a, n - 1); }
  }

  lemma AnnouncedDescribes(m: Message, vtx: seq<Tx>, useWitness: bool, placed: Slots)
    requires vtx != [] && m.prefilled == [Prefilled(0, vtx[0])] && |m.shortIds| == |vtx| - 1
    requires forall i | 0 <= i < |m.shortIds| :: m.shortIds[i] == m.short(IdOf(vtx[i + 1], useWitness))
    requires Placed(m, 1, placed)
    ensures |Free(placed, |placed|)| == |m.shortIds| && Describes(m, vtx, useWitness, placed)
  {
    assert Last(m.prefilled, 0) == -1 && Last(m.prefilled, 1) == 0;
    assert Position(m.prefilled, 0) == 0;
    FreeAfterFirst(placed, |placed|);
  }

  /** The reply to a request: nothing if the request cannot be read, else the transactions at the
      positions read. */
  method Request(vtx: seq<Tx>, p: PartiallyDownloadedBlock) returns (missing: Option<seq<Tx>>)
    requires !p.headerNull && |p.available| == |vtx|
    ensures |vtx| <= MAX16 + 1 ==> missing.Some? && Supplies(vtx, p.available, missing.value)
    ensures missing.Some? ==> |missing.value| == |Free(p.available, |vtx|)|
    ensures missing.Some? ==> forall i | 0 <= i < |missing.value| :: Low16(Free(p.available, |vtx|)[i]) < |vtx| && missing.value[i] == vtx[Low16(Free(p.available, |vtx|)[i])]
  {
    hide Free, Low16, Differences;
    var indexes := p.MissingIndexes();
    Requested(vtx, p.available);
    IndexesRoundTrip(indexes);
    var read := ReadIndexes(Differences(indexes));
    if read.None? { return None; }
    var txs: seq<Tx> := [];
    for i := 0 to |read.value|
      invariant |txs| == i && forall k | 0 <= k < i :: txs[k] == vtx[indexes[k]]
    {
      if read.value[i] >= |vtx| { return None; }
      txs := txs + [vtx[read.value[i]]];
    }
    missing := Some(txs);
  }

  lemma Requested(vtx: seq<Tx>, a: Slots)
    requires |a| == |vtx|
    ensures Indexes16(Targets(a)) && forall i | 0 <= i < |Targets(a)| :: Targets(a)[i] < |vtx|
    ensures |a| <= MAX16 + 1 ==> Increasing(Targets(a)) && Targets(a) == Free(a, |a|)
  {
    hide Free, Low16;
    FreeIs(a, |a|);
    forall i | 0 <= i < |Free(a, |a|)| ensures Low16(Free(a, |a|)[i]) < |vtx| && Low16(Free(a, |a|)[i]) <= MAX16 {
      Low16Is(Free(a, |a|)[i]);
    }
    if |a| <= MAX16 + 1 {
      forall i | 0 <= i < |Free(a, |a|)| ensures Targets(a)[i] == Free(a, |a|)[i] { Low16Is(Free(a, |a|)[i]); }
      assert Targets(a) == Free(a, |a|);
    }
  }

  /** What must hold for the receiver to accept the announcement: the first transaction is not
      null, and the short ids of the others differ and fill the hash table evenly. */
  ghost predicate Relayable(vtx: seq<Tx>, useWitness: bool, short: nat -> nat, crowded: nat -> bool) {
    && vtx != [] && !vtx[0].isNull
    && (forall i, j | 1 <= i < j < |vtx| :: short(IdOf(vtx[i], useWitness)) != short(IdOf(vtx[j], useWitness)))
    && forall i: nat | i < |vtx| - 1 :: !crowded(i)
  }

  lemma AnnouncedAccepted(m: Message, vtx: seq<Tx>, useWitness: bool, crowded: nat -> bool)
    requires vtx != [] && m.prefilled == [Prefilled(0, vtx[0])] && |m.shortIds| == |vtx| - 1
    requires forall i | 0 <= i < |m.shortIds| :: m.shortIds[i] == m.short(IdOf(vtx[i + 1], useWitness))
    ensures Relayable(vtx, useWitness, m.short, crowded) <==>
            Acceptable(m, 1) && Distinct(m.shortIds) && !exists i: nat :: i < |m.shortIds| && crowded(i)
  {
    assert Last(m.prefilled, 0) == -1 && Last(m.prefilled, 1) == 0;
    assert Position(m.prefilled, 0) == 0;
    assert Acceptable(m, 1) <==> !vtx[0].isNull;
    if Distinct(m.shortIds) {
      forall i, j | 1 <= i < j < |vtx| ensures m.short(IdOf(vtx[i], useWitness)) != m.short(IdOf(vtx[j], useWitness)) {
        assert m.shortIds[i - 1] != m.shortIds[j - 1];
      }
    }
  }

  /** From sender to receiver: announce, use what is at hand, ask for the rest by differences of
      indexes, and fill in.  A block of at most 2^16 transactions is put together if and only if the
      announcement is accepted, whatever the receiver has at hand, and is the sender's if short ids
      do not collide; the status is then that of CheckBlock.  In a larger one the first transaction
      appears again at position 2^16. */
  method Relay(vtx: seq<Tx>, useWitness: bool, short: nat -> nat, pool: Candidates, extra: Candidates, crowded: nat -> bool, check: seq<Tx> -> Outcome)
    returns (st: Status, block: seq<Tx>)
    requires vtx != []
    ensures |vtx| <= MAX16 + 1 && !Relayable(vtx, useWitness, short, crowded) ==> st != Ok
    ensures |vtx| <= MAX16 + 1 && Relayable(vtx, useWitness, short, crowded) ==> |block| == |vtx| && st == Judged(check(block))
    ensures |vtx| <= MAX16 + 1 && Relayable(vtx, useWitness, short, crowded) && NoCollision(pool + extra, short, vtx, useWitness) ==> block == vtx
    ensures |vtx| > MAX16 + 1 && st == Ok ==> |block| == |vtx| <= MAX_TRANSACTIONS && block[MAX16 + 1] == vtx[0]
  {
    hide Free, Placed, Describes, Sound, Exact, Looked, AllOffered, Merged, Partial, Supplies, Relayable, Acceptable, Distinct, Assigned, NoCollision, Low16, Taken;
    var m := Announce(vtx, useWitness, short);
    AnnouncedAccepted(m, vtx, useWitness, crowded);
    var p := new PartiallyDownloadedBlock();
    ghost var placed;
    ghost var ids;
    ghost var j, k;
    st, placed, ids, j, k := p.InitData(m, false, pool, extra, crowded);
    block := [];
    if st != Ok { return; }
    AnnouncedDescribes(m, vtx, useWitness, placed);
    SizeOf(m, ids, pool, j, extra, k, vtx, placed, p.available);
    var missing := Request(vtx, p);
    if missing.None? { return Invalid, block; }
    ghost var a := p.available;
    st, block := p.FillBlock(missing.value, check);
    if |vtx| > MAX16 + 1 {
      StaysOpen(m, ids, Looked(pool, j, extra, k), placed, a, MAX16 + 1);
      SentAgain(vtx, a, missing.value);
    } else if NoCollision(pool + extra, short, vtx, useWitness) {
      ExactSound(m, ids, pool, j, extra, k, placed, a);
      OnlyOwn(m, pool + extra, vtx, useWitness, placed, a);
      Completed(vtx, a, missing.value, |vtx|);
      assert vtx[..|vtx|] == vtx;
    }
  }

  lemma SizeOf(m: Message, ids: map<nat, nat>, pool: Candidates, j: nat, extra: Candidates, k: nat, vtx: seq<Tx>, a: Slots, b: Slots)
    requires |m.prefilled| == 1 && |m.shortIds| + 1 == |vtx| && Placed(m, 1, a) && j <= |pool| && k <= |extra|
    requires Exact(Table(m.short, ids), Looked(pool, j, extra, k), a, b)
    ensures |a| == |b| == |vtx|
  {
  }

  lemma {:induction false} MergedAt(a: Slots, missing: seq<Tx>, n: nat, p: nat)
    requires p < n <= |a| && |Free(a, n)| <= |missing| && a[p].None?
    ensures |Free(a, p)| < |Free(a, n)| && Free(a, n)[|Free(a, p)|] == p && Merged(a, missing, n)[p] == missing[|Free(a, p)|]
    decreases n
  {
    if p < n - 1 { MergedAt(a, missing, n - 1, p); }
  }

  lemma SentAgain(vtx: seq<Tx>, a: Slots, missing: seq<Tx>)
    requires |a| == |vtx| > MAX16 + 1 && a[MAX16 + 1].None? && |missing| == |Free(a, |a|)|
    requires forall i | 0 <= i < |missing| :: Low16(Free(a, |a|)[i]) < |vtx| && missing[i] == vtx[Low16(Free(a, |a|)[i])]
    ensures Merged(a, missing, |a|)[MAX16 + 1] == vtx[0]
  {
    hide Free, Merged, Low16;
    MergedAt(a, missing, |a|, MAX16 + 1);
    Low16Is(MAX16 + 1);
  }

  // ------------------------------------------------------- beyond sixteen bits

  /** A message of 2^16 + 1 transactions whose first is given in full, and a candidate for the last
      one: it takes the place of the first. */
  method OverwritesPrefilled(first: Tx, other: Tx) returns (p: PartiallyDownloadedBlock)
    requires !first.isNull
    ensures !p.headerNull && |p.available| == MAX16 + 2 && p.available[0] == Some(other) && p.available[MAX16 + 1].None?
  {
    hide Free, Placed, Exact, Distinct, Low16, Taken;
    p := new PartiallyDownloadedBlock();
    var m := Message(seq(MAX16 + 1, i => i), [Prefilled(0, first)], x => x);
    FirstGiven(m, first);
    ghost var placed;
    ghost var ids;
    ghost var j, k;
    var st;
    var pool := [(MAX16, other)];
    st, placed, ids, j, k := p.InitData(m, false, pool, [], x => false);
    GivenPlaces(m, placed);
    ghost var x := Offer(MAX16, other, false);
    ghost var t := Table(m.short, ids);
    assert j == 1 by {
      if j == 0 { NothingOffered(t, Offers(pool[..0], false), m.shortIds[0]); }
    }
    assert Looked(pool, j, [], k) == [x];
    ExactSize(t, [x], placed, p.available);
    Misplaced(m, ids, placed, p.available, MAX16, x);
  }

  lemma ExactSize(t: Table, c: seq<Offer>, a: Slots, b: Slots)
    requires Exact(t, c, a, b)
    ensures |b| == |a|
  {
  }

  lemma NothingOffered(t: Table, c: seq<Offer>, x: nat)
    requires c == [] && x in t.ids
    ensures !AllOffered(t, c)
  {
    assert !Offered(t, c, t.ids[x]);
  }

  lemma FirstGiven(m: Message, first: Tx)
    requires m == Message(seq(MAX16 + 1, i => i), [Prefilled(0, first)], m.short) && !first.isNull
    ensures Acceptable(m, 1) && Distinct(m.shortIds)
  {
    assert Last(m.prefilled, 0) == -1 && Last(m.prefilled, 1) == 0;
    assert Position(m.prefilled, 0) == 0;
  }

  lemma GivenPlaces(m: Message, placed: Slots)
    requires |m.prefilled| == 1 && m.prefilled[0].index == 0 && Placed(m, 1, placed)
    ensures |placed| == |m.shortIds| + 1 && Free(placed, |placed|) == seq(|m.shortIds|, i => i + 1)
  {
    assert Last(m.prefilled, 0) == -1 && Last(m.prefilled, 1) == 0;
    assert Position(m.prefilled, 0) == 0;
    FreeAfterFirst(placed, |placed|);
  }

  /** A message of 2^16 prefilled transactions and one short id: the search for its position does
      not end. */
  method SearchesForever(tx: Tx, id: nat, short: nat -> nat, pool: Candidates, extra: Candidates) returns (st: Status)
    requires !tx.isNull
    ensures st == Endless
  {
    hide Placed, Acceptable, Assigned, Exact, Taken;
    var p := new PartiallyDownloadedBlock();
    var m := Message([id], seq(MAX16 + 1, i => Prefilled(0, tx)), short);
    assert Acceptable(m, |m.prefilled|) by { SideBySide(m, tx); }
    ghost var placed;
    ghost var ids;
    ghost var j, k;
    st, placed, ids, j, k := p.InitData(m, false, pool, extra, x => false);
  }

  lemma SideBySide(m: Message, tx: Tx)
    requires !tx.isNull && |m.prefilled| <= MAX16 + 1 && forall i | 0 <= i < |m.prefilled| :: m.prefilled[i] == Prefilled(0, tx)
    ensures Acceptable(m, |m.prefilled|)
  {
    forall i | 0 <= i < |m.prefilled| ensures Position(m.prefilled, i) == i { CountsUp(m.prefilled, i + 1); }
  }

  lemma {:induction false} CountsUp(p: seq<Prefilled>, k: nat)
    requires k <= |p| && forall i | 0 <= i < |p| :: p[i].index == 0
    ensures Last(p, k) == k - 1
  {
    if k > 0 { CountsUp(p, k - 1); }
  }
}
