/** Compact blocks (src/blockencodings.cpp; BIP 152) as values: where prefilled transactions and
    short ids go, and what a list of candidates makes of the empty positions. */
module CompactSpec {
  import opened Streams
  import opened CompactIndexes
  import opened Counting

  datatype Tx = Tx(hash: nat, witnessHash: nat, isNull: bool)

  // ---------------------------------------------------------------- the message

  datatype Prefilled = Prefilled(index: nat, tx: Tx)

  /** A block in compact form; short is the keyed hash that gives a transaction its short id. */
  datatype Message = Message(shortIds: seq<nat>, prefilled: seq<Prefilled>, short: nat -> nat)

  /** The position of the last of the first k prefilled transactions. */
  function Last(p: seq<Prefilled>, k: nat): int
    requires k <= |p|
  {
    if k == 0 then -1 else Last(p, k - 1) + p[k - 1].index + 1
  }

  /** The position of prefilled transaction i. */
  function Position(p: seq<Prefilled>, i: nat): int
    requires i < |p|
  {
    Last(p, i + 1)
  }

  ghost predicate Acceptable(m: Message, k: nat)
    requires k <= |m.prefilled|
  {
    forall i | 0 <= i < k ::
      !m.prefilled[i].tx.isNull && Position(m.prefilled, i) <= MAX16 && Position(m.prefilled, i) <= |m.shortIds| + i
  }

  lemma {:induction false} LastGrows(p: seq<Prefilled>, i: nat, k: nat)
    requires i < k <= |p|
    ensures -1 <= Last(p, i) < Last(p, k)
    decreases k
  {
    if i < k - 1 { LastGrows(p, i, k - 1); } else if i > 0 { LastGrows(p, i - 1, i); }
  }

  type Slots = seq<Option<Tx>>

  /** Exactly the first k prefilled transactions are in their places. */
  ghost predicate Placed(m: Message, k: nat, a: Slots)
    requires k <= |m.prefilled|
  {
    && |a| == |m.shortIds| + |m.prefilled|
    && (forall i | 0 <= i < k :: 0 <= Position(m.prefilled, i) < |a| && a[Position(m.prefilled, i)] == Some(m.prefilled[i].tx))
    && (forall p | 0 <= p < |a| && a[p].Some? :: exists i | 0 <= i < k :: Position(m.prefilled, i) == p)
    && |Free(a, |a|)| == |a| - k
  }

  /** The empty positions below n, in order. */
  function Free(a: Slots, n: nat): seq<nat>
    requires n <= |a|
  {
    if n == 0 then [] else Free(a, n - 1) + if a[n - 1].None? then [n - 1] else []
  }

  lemma {:induction false} FreeIs(a: Slots, n: nat)
    requires n <= |a|
    ensures forall i | 0 <= i < |Free(a, n)| :: Free(a, n)[i] < n && a[Free(a, n)[i]].None?
    ensures forall i, j | 0 <= i < j < |Free(a, n)| :: Free(a, n)[i] < Free(a, n)[j]
    ensures forall p: nat | p < n && a[p].None? :: p in Free(a, n)
  {
    if n > 0 { FreeIs(a, n - 1); }
  }

  lemma {:induction false} FreePrefix(a: Slots, n: nat, k: nat)
    requires n <= k <= |a|
    ensures Free(a, n) <= Free(a, k)
    decreases k
  {
    if n < k { FreePrefix(a, n, k - 1); }
  }

  /** Putting a transaction in an empty position makes one position fewer empty. */
  lemma {:induction false} FreeLess(a: Slots, n: nat, p: nat, tx: Tx)
    requires n <= |a| && p < |a| && a[p].None?
    ensures |Free(a[p := Some(tx)], n)| == |Free(a, n)| - if p < n then 1 else 0
  {
    if n > 0 { FreeLess(a, n - 1, p, tx); }
  }

  lemma {:induction false} FreeAll(a: Slots, n: nat)
    requires n <= |a| && forall p | 0 <= p < n :: a[p].None?
    ensures |Free(a, n)| == n
  {
    if n > 0 { FreeAll(a, n - 1); }
  }

  /** The next prefilled transaction goes beyond all others, to a position in range. */
  lemma PlaceNext(m: Message, k: nat, a: Slots)
    requires k < |m.prefilled| && Placed(m, k, a) && Position(m.prefilled, k) <= |m.shortIds| + k
    ensures 0 <= Position(m.prefilled, k) < |a| && Placed(m, k + 1, a[Position(m.prefilled, k) := Some(m.prefilled[k].tx)])
  {
    hide Free;
    var p := Position(m.prefilled, k);
    LastGrows(m.prefilled, k, k + 1);
    forall i | 0 <= i < k ensures Position(m.prefilled, i) < p { LastGrows(m.prefilled, i + 1, k + 1); }
    assert a[p].None?;
    FreeLess(a, |a|, p, m.prefilled[k].tx);
    var b := a[p := Some(m.prefilled[k].tx)];
    forall q | 0 <= q < |b| && b[q].Some? ensures exists i | 0 <= i < k + 1 :: Position(m.prefilled, i) == q {
      if q == p { assert Position(m.prefilled, k) == q; }
    }
  }

  /** Prefilled positions are at least as far apart as their numbers. */
  lemma {:induction false} LastGap(p: seq<Prefilled>, i: nat, k: nat)
    requires i <= k <= |p|
    ensures Last(p, i) + k - i <= Last(p, k)
    decreases k
  {
    if i < k { LastGap(p, i, k - 1); }
  }

  /** There is room for 2^16 prefilled transactions, which then take all the positions of 16 bits. */
  lemma AtMost16(m: Message)
    requires Acceptable(m, |m.prefilled|)
    ensures |m.prefilled| <= MAX16 + 1
    ensures |m.prefilled| == MAX16 + 1 ==> forall i | 0 <= i < |m.prefilled| :: Position(m.prefilled, i) == i
  {
    var n := |m.prefilled|;
    if n > 0 {
      LastGap(m.prefilled, 0, n);
      assert Position(m.prefilled, n - 1) <= MAX16;
    }
    if n == MAX16 + 1 {
      forall i | 0 <= i < n ensures Position(m.prefilled, i) == i {
        LastGap(m.prefilled, 0, i + 1);
        LastGap(m.prefilled, i + 1, n);
      }
    }
  }

  lemma AllTaken(m: Message, a: Slots)
    requires Acceptable(m, |m.prefilled|) && Placed(m, |m.prefilled|, a) && |m.prefilled| == MAX16 + 1
    ensures |a| == |m.shortIds| + MAX16 + 1 && forall p | 0 <= p <= MAX16 :: a[p].Some?
  {
    hide Free;
    AtMost16(m);
    forall p | 0 <= p <= MAX16 ensures a[p].Some? { assert Position(m.prefilled, p) == p; }
  }

  /** Nothing is prefilled beyond the positions of 16 bits. */
  lemma NothingBeyond(m: Message, a: Slots, p: nat)
    requires Acceptable(m, |m.prefilled|) && Placed(m, |m.prefilled|, a) && MAX16 < p < |a|
    ensures a[p].None?
  {
    hide Free;
  }

  lemma {:induction false} TakenGrows(a: Slots, n: nat, k: nat)
    requires n <= k <= |a|
    ensures n - |Free(a, n)| <= k - |Free(a, k)|
    decreases k
  {
    if n < k { TakenGrows(a, n, k - 1); }
  }

  lemma FreeTaken(a: Slots, p: nat)
    requires p < |a| && a[p].Some?
    ensures Free(a, p + 1) == Free(a, p)
  {
  }

  // ------------------------------------------------------------------ short ids

  ghost predicate Distinct(s: seq<nat>) { forall i, j | 0 <= i < j < |s| :: s[i] != s[j] }

  ghost function Elements(s: seq<nat>): set<nat> { set x | x in s }

  lemma {:induction false} CountDistinct(s: seq<nat>)
    ensures |Elements(s)| <= |s| && (|Elements(s)| == |s| <==> Distinct(s))
  {
    if s != [] {
      hide Elements, Distinct;
      var n := |s| - 1;
      CountDistinct(s[..n]);
      DistinctNext(s, n);
    }
  }

  lemma DistinctNext(s: seq<nat>, n: nat)
    requires |s| == n + 1
    ensures Elements(s) == Elements(s[..n]) + {s[n]}
    ensures s[n] in Elements(s[..n]) <==> s[n] in s[..n]
    ensures Distinct(s) <==> Distinct(s[..n]) && s[n] !in s[..n]
  {
    if s[n] in s[..n] { var i :| 0 <= i < n && s[..n][i] == s[n]; }
  }

  /** A position as it is kept, in 16 bits. */
  function Low16(p: nat): nat { p % (MAX16 + 1) }

  lemma Low16Is(p: nat)
    ensures Low16(p) <= MAX16 && Low16(p) <= p && (Low16(p) == p <==> p <= MAX16)
    ensures MAX16 < p < 2 * (MAX16 + 1) ==> Low16(p) == p - MAX16 - 1
  {
  }

  ghost function Targets(a: Slots): (r: seq<nat>)
    ensures |r| == |Free(a, |a|)|
  {
    seq(|Free(a, |a|)|, i requires 0 <= i < |Free(a, |a|)| => Low16(Free(a, |a|)[i]))
  }

  /** Short id i stands for the i-th empty position, as far as 16 bits can hold it. */
  ghost predicate Assigned(m: Message, a: Slots, ids: map<nat, nat>) {
    && |Free(a, |a|)| == |m.shortIds| == |ids| && Distinct(m.shortIds)
    && (forall x | x in ids :: x in m.shortIds)
    && forall i | 0 <= i < |m.shortIds| :: m.shortIds[i] in ids && ids[m.shortIds[i]] == Low16(Free(a, |a|)[i])
  }

  lemma Target(m: Message, a: Slots, ids: map<nat, nat>, i: nat)
    requires Assigned(m, a, ids) && i < |m.shortIds|
    ensures i < |Free(a, |a|)| && Free(a, |a|)[i] < |a| && a[Free(a, |a|)[i]].None?
    ensures m.shortIds[i] in ids && ids[m.shortIds[i]] == Low16(Free(a, |a|)[i])
  {
    hide Free, Low16, Distinct;
    FreeIs(a, |a|);
  }

  /** A short id gets its own position if and only if 16 bits hold that position. */
  lemma OwnPosition(m: Message, a: Slots, ids: map<nat, nat>, i: nat)
    requires Assigned(m, a, ids) && i < |m.shortIds|
    ensures ids[m.shortIds[i]] == Free(a, |a|)[i] <==> Free(a, |a|)[i] <= MAX16
    ensures ids[m.shortIds[i]] <= MAX16 && ids[m.shortIds[i]] < |a|
  {
    hide Free, Low16, Assigned;
    Target(m, a, ids, i);
    Low16Is(Free(a, |a|)[i]);
  }

  /** All short ids get their own positions if and only if the block has at most 2^16 transactions. */
  lemma OwnPositions(m: Message, a: Slots, ids: map<nat, nat>)
    requires Assigned(m, a, ids) && Acceptable(m, |m.prefilled|) && Placed(m, |m.prefilled|, a)
    ensures (forall i | 0 <= i < |m.shortIds| :: ids[m.shortIds[i]] == Free(a, |a|)[i]) <==> |a| <= MAX16 + 1
  {
    hide Free, Placed, Acceptable;
    FreeIs(a, |a|);
    forall i | 0 <= i < |m.shortIds| ensures ids[m.shortIds[i]] == Free(a, |a|)[i] <==> Free(a, |a|)[i] <= MAX16 {
      OwnPosition(m, a, ids, i);
    }
    if |a| > MAX16 + 1 {
      NothingBeyond(m, a, MAX16 + 1);
      var i := IndexOf(Free(a, |a|), MAX16 + 1);
      assert ids[m.shortIds[i]] != Free(a, |a|)[i];
    }
  }

  lemma InRange(m: Message, a: Slots, ids: map<nat, nat>, x: nat)
    requires Assigned(m, a, ids) && x in ids
    ensures ids[x] < |a| && ids[x] <= MAX16
  {
    hide Free;
    OwnPosition(m, a, ids, IndexOf(m.shortIds, x));
  }

  lemma NonePlaced(m: Message, a: Slots)
    requires |a| == |m.shortIds| + |m.prefilled| && (forall p | 0 <= p < |a| :: a[p].None?) && |Free(a, |a|)| == |a|
    ensures Placed(m, 0, a)
  {
  }

  lemma PlacedSize(m: Message, k: nat, a: Slots)
    requires k <= |m.prefilled| && Placed(m, k, a)
    ensures |a| == |m.shortIds| + |m.prefilled|
  {
  }

  lemma NoneAssigned(ids: seq<nat>, places: seq<nat>)
    ensures AssignedTo(ids, places, 0, map[])
  {
  }

  lemma NoneFree(a: Slots)
    ensures Free(a, 0) == []
  {
  }

  lemma FreeStep(a: Slots, p: nat)
    requires p < |a| && a[p].None?
    ensures Free(a, p + 1) == Free(a, p) + [p]
  {
  }

  /** The first i ids are assigned to the first i places, if no two are equal. */
  ghost predicate AssignedTo(ids: seq<nat>, places: seq<nat>, i: nat, table: map<nat, nat>) {
    && i <= |ids| && i <= |places| && table.Keys == Elements(ids[..i])
    && (Distinct(ids[..i]) ==> forall j | 0 <= j < i :: ids[j] in table && table[ids[j]] == places[j])
  }

  lemma AssignNext(ids: seq<nat>, places: seq<nat>, i: nat, table: map<nat, nat>)
    requires i < |ids| && i < |places| && AssignedTo(ids, places, i, table)
    ensures AssignedTo(ids, places, i + 1, table[ids[i] := places[i]])
  {
    var a, b := ids[..i], ids[..i + 1];
    assert b == a + [ids[i]];
    if Distinct(b) {
      assert Distinct(a) by { assert forall j | 0 <= j < i :: a[j] == b[j]; }
      forall j | 0 <= j < i ensures ids[j] != ids[i] { assert b[j] != b[i]; }
    }
  }

  lemma AllAssigned(m: Message, a: Slots, table: map<nat, nat>)
    requires |Free(a, |a|)| == |m.shortIds| && AssignedTo(m.shortIds, Targets(a), |m.shortIds|, table) && Distinct(m.shortIds)
    requires |table| == |m.shortIds|
    ensures Assigned(m, a, table)
  {
    hide Free;
    assert m.shortIds[..|m.shortIds|] == m.shortIds;
    forall x | x in table ensures x in m.shortIds { assert x in table.Keys; }
  }

  lemma TableSize(ids: seq<nat>, places: seq<nat>, table: map<nat, nat>)
    requires AssignedTo(ids, places, |ids|, table)
    ensures |table| == |ids| <==> Distinct(ids)
  {
    assert ids[..|ids|] == ids;
    CountDistinct(ids);
    assert |table| == |table.Keys|;
  }

  ghost function IndexOf(s: seq<nat>, x: nat): (i: nat)
    requires x in s
    ensures i < |s| && s[i] == x
  {
    var i :| 0 <= i < |s| && s[i] == x; i
  }

  lemma PlacedCount(m: Message, a: Slots)
    requires Placed(m, |m.prefilled|, a)
    ensures |Free(a, |a|)| == |m.shortIds|
  {
  }

  // ----------------------------------------------------------------- candidates

  /** Transactions at hand, each with the hash that its short id is taken from. */
  type Candidates = seq<(nat, Tx)>

  /** A candidate as it is looked at: those of the memory pool first, then the extra ones. */
  datatype Offer = Offer(hash: nat, tx: Tx, extra: bool)

  ghost function Offers(c: Candidates, extra: bool): (r: seq<Offer>)
    ensures |r| == |c|
  {
    seq(|c|, k requires 0 <= k < |c| => Offer(c[k].0, c[k].1, extra))
  }

  /** Short ids, each with the position it is kept with. */
  datatype Table = Table(short: nat -> nat, ids: map<nat, nat>)

  /** A transaction of that hash is taken for position p. */
  ghost predicate Aims(t: Table, hash: nat, p: nat) { t.short(hash) in t.ids && t.ids[t.short(hash)] == p }

  ghost predicate Fits(t: Table, c: seq<Offer>, p: nat, k: nat) { k < |c| && Aims(t, c[k].hash, p) }

  ghost predicate Offered(t: Table, c: seq<Offer>, p: nat) { exists k: nat :: Fits(t, c, p, k) }

  ghost predicate FirstFit(t: Table, c: seq<Offer>, p: nat, f: nat) { Fits(t, c, p, f) && forall k: nat | k < f :: !Fits(t, c, p, k) }

  /** A later candidate that casts doubt on the first: any from the pool, an extra one only if it
      differs. */
  ghost predicate Doubt(first: Tx, x: Offer) { !x.extra || x.tx.witnessHash != first.witnessHash }

  ghost predicate Doubted(t: Table, c: seq<Offer>, p: nat, f: nat, k: nat) {
    FirstFit(t, c, p, f) && f < k && Fits(t, c, p, k) && Doubt(c[f].tx, c[k])
  }

  ghost predicate Undoubted(t: Table, c: seq<Offer>, p: nat, f: nat) {
    FirstFit(t, c, p, f) && forall k: nat | f < k && Fits(t, c, p, k) :: !Doubt(c[f].tx, c[k])
  }

  /** The outcome o for position p once the candidates c were looked at: what was there before if
      none is for p, else the first that is if no later one casts doubt on it, else nothing. */
  ghost predicate Settled(t: Table, c: seq<Offer>, p: nat, was: Option<Tx>, o: Option<Tx>) {
    if !Offered(t, c, p) then o == was
    else match o
      case None => exists f: nat, k: nat :: Doubted(t, c, p, f, k)
      case Some(tx) => exists f: nat :: Undoubted(t, c, p, f) && c[f].tx == tx
  }

  function After(o: Option<Tx>, had: bool, x: Offer): Option<Tx> {
    if !had then Some(x.tx)
    else if o.Some? && (!x.extra || o.value.witnessHash != x.tx.witnessHash) then None
    else o
  }

  lemma FirstStays(t: Table, c: seq<Offer>, x: Offer, p: nat, f: nat)
    requires FirstFit(t, c, p, f)
    ensures FirstFit(t, c + [x], p, f) && (c + [x])[f] == c[f]
  {
    hide Aims;
    forall k: nat | k < f ensures !Fits(t, c + [x], p, k) { assert !Fits(t, c, p, k); }
  }

  lemma DoubtStays(t: Table, c: seq<Offer>, x: Offer, p: nat)
    requires exists f: nat, k: nat :: Doubted(t, c, p, f, k)
    ensures exists f: nat, k: nat :: Doubted(t, c + [x], p, f, k)
  {
    hide Aims;
    var f: nat, k: nat :| Doubted(t, c, p, f, k);
    FirstStays(t, c, x, p, f);
    assert Doubted(t, c + [x], p, f, k);
  }

  /** A candidate for another position changes nothing. */
  lemma SettledSkip(t: Table, c: seq<Offer>, x: Offer, p: nat, was: Option<Tx>, o: Option<Tx>)
    requires Settled(t, c, p, was, o) && !Aims(t, x.hash, p)
    ensures Settled(t, c + [x], p, was, o) && (Offered(t, c + [x], p) <==> Offered(t, c, p))
  {
    hide Aims;
    var d := c + [x];
    forall k: nat ensures Fits(t, d, p, k) <==> Fits(t, c, p, k) {}
    if !Offered(t, c, p) {
    } else if o.Some? {
      var f: nat :| Undoubted(t, c, p, f) && c[f].tx == o.value;
      FirstStays(t, c, x, p, f);
      forall k: nat | f < k && Fits(t, d, p, k) ensures !Doubt(d[f].tx, d[k]) { assert Fits(t, c, p, k); }
      assert Undoubted(t, d, p, f);
    } else {
      DoubtStays(t, c, x, p);
    }
  }

  lemma SettledNext(t: Table, c: seq<Offer>, x: Offer, p: nat, was: Option<Tx>, o: Option<Tx>)
    requires Settled(t, c, p, was, o) && Aims(t, x.hash, p)
    ensures Settled(t, c + [x], p, was, After(o, Offered(t, c, p), x)) && Offered(t, c + [x], p)
  {
    hide Aims;
    var d, n := c + [x], |c|;
    assert Fits(t, d, p, n);
    if !Offered(t, c, p) {
      forall k: nat | k < n ensures !Fits(t, d, p, k) { assert !Fits(t, c, p, k); }
      assert Undoubted(t, d, p, n);
    } else if o.None? {
      DoubtStays(t, c, x, p);
    } else {
      var f: nat :| Undoubted(t, c, p, f) && c[f].tx == o.value;
      FirstStays(t, c, x, p, f);
      if Doubt(o.value, x) {
        assert Doubted(t, d, p, f, n);
      } else {
        forall k: nat | f < k && Fits(t, d, p, k) ensures !Doubt(d[f].tx, d[k]) { if k < n { assert Fits(t, c, p, k); } }
        assert Undoubted(t, d, p, f);
      }
    }
  }

  /** b is what the candidates c make of the slots a. */
  ghost predicate Exact(t: Table, c: seq<Offer>, a: Slots, b: Slots) {
    |b| == |a| && forall p | 0 <= p < |a| :: Settled(t, c, p, a[p], b[p])
  }

  /** have says for which positions there was a candidate. */
  ghost predicate Progress(t: Table, c: seq<Offer>, a: Slots, b: Slots, have: seq<bool>) {
    Exact(t, c, a, b) && |have| == |a| && forall p | 0 <= p < |a| :: have[p] <==> Offered(t, c, p)
  }

  lemma ProgressStart(t: Table, a: Slots, have: seq<bool>)
    requires |have| == |a| && forall p | 0 <= p < |a| :: !have[p]
    ensures Progress(t, [], a, a, have) && Found(a, have) == {}
  {
  }

  lemma Ignored(t: Table, c: seq<Offer>, x: Offer, a: Slots, b: Slots, have: seq<bool>)
    requires Progress(t, c, a, b, have) && t.short(x.hash) !in t.ids
    ensures Progress(t, c + [x], a, b, have)
  {
    hide Settled, Offered;
    forall p | 0 <= p < |a| ensures Settled(t, c + [x], p, a[p], b[p]) && (Offered(t, c + [x], p) <==> Offered(t, c, p)) {
      SettledSkip(t, c, x, p, a[p], b[p]);
    }
  }

  lemma Advance(t: Table, c: seq<Offer>, x: Offer, a: Slots, b: Slots, have: seq<bool>, p: nat)
    requires Progress(t, c, a, b, have) && Aims(t, x.hash, p) && p < |a|
    ensures Progress(t, c + [x], a, b[p := After(b[p], have[p], x)], have[p := true])
  {
    hide Settled, Offered, After;
    SettledNext(t, c, x, p, a[p], b[p]);
    forall q | 0 <= q < |a| && q != p ensures Settled(t, c + [x], q, a[q], b[q]) && (Offered(t, c + [x], q) <==> Offered(t, c, q)) {
      SettledSkip(t, c, x, q, a[q], b[q]);
    }
  }

  // ---------------------------------------------------------------- the counter

  /** The positions for which a candidate is held. */
  ghost function Found(b: Slots, have: seq<bool>): set<nat>
    requires |b| == |have|
  {
    set p: nat | p < |b| && have[p] && b[p].Some?
  }

  ghost function Taken(t: Table, c: seq<Offer>, b: Slots): set<nat> { set p: nat | p < |b| && Offered(t, c, p) && b[p].Some? }

  lemma FoundFirst(b: Slots, have: seq<bool>, p: nat, tx: Tx)
    requires |b| == |have| && p < |b| && !have[p]
    ensures |Found(b[p := Some(tx)], have[p := true])| == |Found(b, have)| + 1
  {
    assert Found(b[p := Some(tx)], have[p := true]) == Found(b, have) + {p};
  }

  lemma FoundGivenUp(b: Slots, have: seq<bool>, p: nat)
    requires |b| == |have| && p < |b| && have[p] && b[p].Some?
    ensures |Found(b[p := None], have)| == |Found(b, have)| - 1
  {
    assert p in Found(b, have) && Found(b[p := None], have) == Found(b, have) - {p};
  }

  lemma {:induction false} ValuesCount(ids: map<nat, nat>)
    ensures |ids.Values| <= |ids|
    decreases |ids|
  {
    if x :| x in ids {
      var rest := map y | y in ids && y != x :: ids[y];
      assert rest.Keys == ids.Keys - {x};
      forall v | v in ids.Values ensures v in rest.Values + {ids[x]} {
        var y :| y in ids && ids[y] == v;
        if y != x { assert rest[y] == v; }
      }
      assert |rest| == |rest.Keys| && |ids| == |ids.Keys|;
      ValuesCount(rest);
      SubsetSize(ids.Values, rest.Values + {ids[x]});
    } else {
      assert ids.Values == {};
    }
  }

  /** When as many positions were found as there are short ids, none is open. */
  lemma AllFound(t: Table, c: seq<Offer>, a: Slots, b: Slots, have: seq<bool>)
    requires Progress(t, c, a, b, have) && |Found(b, have)| == |t.ids| && forall x | x in t.ids :: t.ids[x] < |a|
    ensures forall x | x in t.ids :: have[t.ids[x]] && b[t.ids[x]].Some?
  {
    var found := Found(b, have);
    forall p | p in found ensures p in t.ids.Values {
      var k: nat :| Fits(t, c, p, k);
      assert t.ids[t.short(c[k].hash)] in t.ids.Values;
    }
    ValuesCount(t.ids);
    forall x | x in t.ids ensures t.ids[x] in found {
      assert t.ids[x] in t.ids.Values;
      if t.ids[x] !in found { SubsetSize(found, t.ids.Values); }
    }
  }

  /** The candidates looked at: the first j of the pool, then the first k of the extra ones. */
  ghost function Looked(pool: Candidates, j: nat, extra: Candidates, k: nat): seq<Offer>
    requires j <= |pool| && k <= |extra|
  {
    Offers(pool[..j], false) + Offers(extra[..k], true)
  }

  lemma LookedAt(pool: Candidates, j: nat, extra: Candidates, k: nat, n: nat)
    requires j <= |pool| && k <= |extra| && n < j + k
    ensures var x := Looked(pool, j, extra, k)[n]; var y := (pool + extra)[if n < j then n else |pool| + n - j]; x.hash == y.0 && x.tx == y.1
  {
  }

  lemma LookedSize(pool: Candidates, j: nat, extra: Candidates, k: nat)
    requires j <= |pool| && k <= |extra|
    ensures |Looked(pool, j, extra, k)| == j + k
  {
  }

  // --------------------------------------------------------------- what it means

  /** Candidate n is taken for position p. */
  ghost predicate Candidate(t: Table, c: Candidates, p: nat, n: nat) { n < |c| && Aims(t, c[n].0, p) }

  ghost predicate TwoCandidates(t: Table, c: Candidates, p: nat, n: nat, n': nat) { n < n' && Candidate(t, c, p, n) && Candidate(t, c, p, n') }

  /** No short id is left open by the candidates c. */
  ghost predicate AllOffered(t: Table, c: seq<Offer>) { forall x | x in t.ids :: Offered(t, c, t.ids[x]) }

  lemma Unfilled(t: Table, pool: Candidates, j: nat, extra: Candidates, k: nat, p: nat, was: Option<Tx>)
    requires j <= |pool| && k <= |extra| && Settled(t, Looked(pool, j, extra, k), p, was, None)
    requires Offered(t, Looked(pool, j, extra, k), p) || (j == |pool| && k == |extra|)
    ensures (was.None? && forall n: nat :: !Candidate(t, pool + extra, p, n)) || exists n: nat, n': nat :: TwoCandidates(t, pool + extra, p, n, n')
  {
    var c := Looked(pool, j, extra, k);
    LookedSize(pool, j, extra, k);
    hide Looked, Aims;
    if Offered(t, c, p) {
      var f: nat, g: nat :| Doubted(t, c, p, f, g);
      LookedAt(pool, j, extra, k, f);
      LookedAt(pool, j, extra, k, g);
      assert TwoCandidates(t, pool + extra, p, if f < j then f else |pool| + f - j, if g < j then g else |pool| + g - j);
    } else {
      forall n: nat ensures !Candidate(t, pool + extra, p, n) {
        if n < |pool + extra| {
          LookedAt(pool, j, extra, k, n);
          assert !Fits(t, c, p, n);
        }
      }
    }
  }

  lemma OfferedBefore(t: Table, pool: Candidates, j: nat, extra: Candidates, k: nat, p: nat)
    requires j <= |pool| && k <= |extra| && Offered(t, Offers(pool[..j], false), p)
    ensures Offered(t, Looked(pool, j, extra, k), p)
  {
    hide Aims;
    var n: nat :| Fits(t, Offers(pool[..j], false), p, n);
    assert Fits(t, Looked(pool, j, extra, k), p, n);
  }

  /** In an object used for the first time, a position is empty for one of two reasons only:
      nothing was prefilled and there is no candidate for it, among all there are, or there are
      two. */
  lemma EmptyForAReason(t: Table, pool: Candidates, j: nat, extra: Candidates, k: nat, a: Slots, b: Slots, p: nat)
    requires j <= |pool| && k <= |extra| && Exact(t, Looked(pool, j, extra, k), a, b)
    requires j < |pool| ==> AllOffered(t, Offers(pool[..j], false))
    requires k < |extra| ==> forall x | x in t.ids :: t.ids[x] < |b| && b[t.ids[x]].Some?
    requires p < |b| && b[p].None?
    ensures (a[p].None? && forall n: nat :: !Candidate(t, pool + extra, p, n)) || exists n: nat, n': nat :: TwoCandidates(t, pool + extra, p, n, n')
  {
    hide Looked, Offered;
    if x :| x in t.ids && t.ids[x] == p {
      if j < |pool| { OfferedBefore(t, pool, j, extra, k, p); }
      Unfilled(t, pool, j, extra, k, p, a[p]);
    } else {
      NoAim(t, Looked(pool, j, extra, k), p);
    }
  }

  lemma NoAim(t: Table, c: seq<Offer>, p: nat)
    requires forall x | x in t.ids :: t.ids[x] != p
    ensures !Offered(t, c, p)
  {
  }

  /** With at most 2^16 positions, what is found comes from a candidate with the short id of its
      position, and prefilled transactions stay. */
  ghost predicate Sound(m: Message, c: Candidates, a: Slots, b: Slots)
    requires |Free(a, |a|)| == |m.shortIds|
  {
    && |b| == |a|
    && (forall p | 0 <= p < |a| && a[p].Some? :: b[p] == a[p])
    && forall i | 0 <= i < |m.shortIds| ::
         Free(a, |a|)[i] < |a| && (b[Free(a, |a|)[i]].Some? ==> Among(c, m.short, m.shortIds[i], b[Free(a, |a|)[i]].value))
  }

  ghost predicate Among(c: Candidates, short: nat -> nat, id: nat, tx: Tx) { exists k | 0 <= k < |c| :: short(c[k].0) == id && c[k].1 == tx }

  /** In that case a candidate is taken for the i-th empty position if and only if it has the i-th
      short id, and none for a position that is taken. */
  lemma AimsRight(m: Message, a: Slots, ids: map<nat, nat>, hash: nat)
    requires Assigned(m, a, ids) && |a| <= MAX16 + 1
    ensures forall i | 0 <= i < |m.shortIds| :: Aims(Table(m.short, ids), hash, Free(a, |a|)[i]) <==> m.short(hash) == m.shortIds[i]
    ensures forall p: nat | p < |a| && a[p].Some? :: !Aims(Table(m.short, ids), hash, p)
  {
    hide Free, Low16;
    FreeIs(a, |a|);
    var F, id := Free(a, |a|), m.short(hash);
    forall i | 0 <= i < |F| ensures Low16(F[i]) == F[i] { Low16Is(F[i]); }
    if id in ids {
      var i := IndexOf(m.shortIds, id);
      assert ids[id] == F[i];
      forall j | 0 <= j < |m.shortIds| && j != i ensures F[j] != F[i] {
        if i < j { assert F[i] < F[j]; } else if j < i { assert F[j] < F[i]; }
      }
    }
  }

  lemma AimsAt(m: Message, a: Slots, ids: map<nat, nat>, hash: nat, i: nat)
    requires Assigned(m, a, ids) && |a| <= MAX16 + 1 && i < |m.shortIds| && Aims(Table(m.short, ids), hash, Free(a, |a|)[i])
    ensures m.short(hash) == m.shortIds[i]
  {
    hide Free, Assigned, Aims;
    Target(m, a, ids, i);
    AimsRight(m, a, ids, hash);
  }

  lemma NoneForTaken(m: Message, a: Slots, ids: map<nat, nat>, c: seq<Offer>, p: nat)
    requires Assigned(m, a, ids) && |a| <= MAX16 + 1 && p < |a| && a[p].Some?
    ensures !Offered(Table(m.short, ids), c, p)
  {
    hide Free, Assigned, Aims;
    forall n: nat | n < |c| ensures !Fits(Table(m.short, ids), c, p, n) { AimsRight(m, a, ids, c[n].hash); }
  }

  lemma FoundAmong(m: Message, ids: map<nat, nat>, pool: Candidates, j: nat, extra: Candidates, k: nat, a: Slots, i: nat, was: Option<Tx>, tx: Tx)
    requires j <= |pool| && k <= |extra| && Assigned(m, a, ids) && |a| <= MAX16 + 1 && i < |m.shortIds| && was.None?
    requires Settled(Table(m.short, ids), Looked(pool, j, extra, k), Free(a, |a|)[i], was, Some(tx))
    ensures Among(pool + extra, m.short, m.shortIds[i], tx)
  {
    var t, c := Table(m.short, ids), Looked(pool, j, extra, k);
    Target(m, a, ids, i);
    LookedSize(pool, j, extra, k);
    hide Free, Looked, Aims, Assigned;
    var f: nat :| Undoubted(t, c, Free(a, |a|)[i], f) && c[f].tx == tx;
    AimsAt(m, a, ids, c[f].hash, i);
    LookedAt(pool, j, extra, k, f);
  }

  lemma ExactSound(m: Message, ids: map<nat, nat>, pool: Candidates, j: nat, extra: Candidates, k: nat, a: Slots, b: Slots)
    requires j <= |pool| && k <= |extra| && Assigned(m, a, ids) && |a| <= MAX16 + 1
    requires Exact(Table(m.short, ids), Looked(pool, j, extra, k), a, b)
    ensures |Free(a, |a|)| == |m.shortIds| && Sound(m, pool + extra, a, b)
  {
    hide Free, Looked, Aims, Distinct, Assigned, Offered, Settled, Among;
    var t, c, F := Table(m.short, ids), Looked(pool, j, extra, k), Free(a, |a|);
    assert |F| == |m.shortIds| by { SameCount(m, a, ids); }
    forall p: nat | p < |a| && a[p].Some? ensures b[p] == a[p] {
      NoneForTaken(m, a, ids, c, p);
      SettledNone(t, c, p, a[p], b[p]);
    }
    forall i | 0 <= i < |m.shortIds| ensures F[i] < |a| && (b[F[i]].Some? ==> Among(pool + extra, m.short, m.shortIds[i], b[F[i]].value)) {
      Target(m, a, ids, i);
      if b[F[i]].Some? { FoundAmong(m, ids, pool, j, extra, k, a, i, a[F[i]], b[F[i]].value); }
    }
  }

  lemma SameCount(m: Message, a: Slots, ids: map<nat, nat>)
    requires Assigned(m, a, ids)
    ensures |Free(a, |a|)| == |m.shortIds|
  {
  }

  lemma SettledNone(t: Table, c: seq<Offer>, p: nat, was: Option<Tx>, o: Option<Tx>)
    requires Settled(t, c, p, was, o) && !Offered(t, c, p)
    ensures o == was
  {
  }

  lemma Single(t: Table, x: Offer, p: nat, was: Option<Tx>, o: Option<Tx>)
    requires Settled(t, [x], p, was, o)
    ensures o == if Aims(t, x.hash, p) then Some(x.tx) else was
  {
    hide Aims;
    assert Aims(t, x.hash, p) <==> Fits(t, [x], p, 0);
    if Offered(t, [x], p) {
      var k: nat :| Fits(t, [x], p, k);
      assert k == 0 && forall f: nat, k: nat :: !Doubted(t, [x], p, f, k);
    }
  }

  /** Beyond that, a single candidate for an empty position that 16 bits do not hold ends up 2^16
      positions before it, whatever is there, and its own position stays empty. */
  lemma Misplaced(m: Message, ids: map<nat, nat>, a: Slots, b: Slots, i: nat, x: Offer)
    requires Assigned(m, a, ids) && Exact(Table(m.short, ids), [x], a, b)
    requires i < |m.shortIds| && m.short(x.hash) == m.shortIds[i] && MAX16 < Free(a, |a|)[i] < 2 * (MAX16 + 1)
    ensures var p := Free(a, |a|)[i]; p < |a| && b[p - MAX16 - 1] == Some(x.tx) && b[p].None?
  {
    hide Free, Low16, Assigned, Settled;
    Target(m, a, ids, i);
    var t, p := Table(m.short, ids), Free(a, |a|)[i];
    Low16Is(p);
    Single(t, x, p, a[p], b[p]);
    Single(t, x, p - MAX16 - 1, a[p - MAX16 - 1], b[p - MAX16 - 1]);
  }

  /** A position that 16 bits do not hold is never filled. */
  lemma StaysOpen(m: Message, ids: map<nat, nat>, c: seq<Offer>, a: Slots, b: Slots, p: nat)
    requires Assigned(m, a, ids) && Acceptable(m, |m.prefilled|) && Placed(m, |m.prefilled|, a)
    requires Exact(Table(m.short, ids), c, a, b) && MAX16 < p < |a|
    ensures b[p].None?
  {
    hide Free, Placed, Acceptable, Assigned;
    NothingBeyond(m, a, p);
    forall x | x in ids ensures ids[x] != p { InRange(m, a, ids, x); }
    NoAim(Table(m.short, ids), c, p);
  }
}
