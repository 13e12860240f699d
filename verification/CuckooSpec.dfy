/** The cuckoo cache (src/cuckoocache.h) as a value: what one insertion, one erasure and one
    change of epoch do to the table and its flags. */
module CuckooSpec {

  datatype State<E> = State(table: seq<E>, discard: seq<bool>, epoch: seq<bool>)

  ghost predicate Shape<E>(s: State<E>) { |s.table| == |s.discard| == |s.epoch| }

  /** i is one of the eight positions of e. */
  ghost predicate Own<E>(loc: (nat, E) -> nat, e: E, i: nat) { exists n: nat | n < 8 :: loc(n, e) == i }

  // -------------------------------------------------------------------- counting

  function One(b: bool): nat { if b then 1 else 0 }

  function Count(s: seq<bool>): nat { if s == [] then 0 else Count(s[..|s| - 1]) + One(s[|s| - 1]) }

  lemma {:induction false} CountUpdate(s: seq<bool>, i: nat, b: bool)
    requires i < |s|
    ensures Count(s[i := b]) + One(s[i]) == Count(s) + One(b)
  {
    var n := |s| - 1;
    if i == n {
      assert s[i := b][..n] == s[..n];
    } else {
      assert s[i := b][..n] == s[..n][i := b];
      CountUpdate(s[..n], i, b);
    }
  }

  lemma {:induction false} CountNone(s: seq<bool>)
    requires forall i | 0 <= i < |s| :: !s[i]
    ensures Count(s) == 0
  {
    if s != [] { CountNone(s[..|s| - 1]); }
  }

  /** Kept entries of the current epoch, and of the one before. */
  function LiveFlags<E>(s: State<E>): (r: seq<bool>)
    requires |s.discard| == |s.epoch|
  {
    seq(|s.epoch|, i requires 0 <= i < |s.epoch| => s.epoch[i] && !s.discard[i])
  }

  function OldFlags<E>(s: State<E>): (r: seq<bool>)
    requires |s.discard| == |s.epoch|
  {
    seq(|s.epoch|, i requires 0 <= i < |s.epoch| => !s.epoch[i] && !s.discard[i])
  }

  function Live<E>(s: State<E>): nat
    requires |s.discard| == |s.epoch|
  {
    Count(LiveFlags(s))
  }

  function Old<E>(s: State<E>): nat
    requires |s.discard| == |s.epoch|
  {
    Count(OldFlags(s))
  }

  /** Changing the flags of one slot. */
  lemma Reflag<E>(s: State<E>, t: State<E>, i: nat)
    requires Shape(s) && Shape(t) && i < |s.table| == |t.table|
    requires t.discard == s.discard[i := t.discard[i]] && t.epoch == s.epoch[i := t.epoch[i]]
    ensures Live(t) + One(s.epoch[i] && !s.discard[i]) == Live(s) + One(t.epoch[i] && !t.discard[i])
    ensures Old(t) + One(!s.epoch[i] && !s.discard[i]) == Old(s) + One(!t.epoch[i] && !t.discard[i])
  {
    hide Count;
    assert LiveFlags(t) == LiveFlags(s)[i := LiveFlags(t)[i]];
    CountUpdate(LiveFlags(s), i, LiveFlags(t)[i]);
    assert OldFlags(t) == OldFlags(s)[i := OldFlags(t)[i]];
    CountUpdate(OldFlags(s), i, OldFlags(t)[i]);
  }

  // ------------------------------------------------------------------- invariant

  /** An entry that may not be discarded, and any entry but the default one, is at a position of
      its own. */
  ghost predicate Placed<E>(loc: (nat, E) -> nat, zero: E, s: State<E>)
    requires Shape(s)
  {
    forall i | 0 <= i < |s.table| :: !s.discard[i] || s.table[i] != zero ==> Own(loc, s.table[i], i)
  }

  /** Only the default entry occurs twice. */
  ghost predicate Once<E>(zero: E, t: seq<E>) {
    forall i, j | 0 <= i < j < |t| :: t[i] == t[j] ==> t[i] == zero
  }

  ghost predicate Good<E>(loc: (nat, E) -> nat, zero: E, s: State<E>) {
    Shape(s) && Placed(loc, zero, s) && Once(zero, s.table)
  }

  // ---------------------------------------------------------------- an insertion

  /** e goes to slot i with an epoch flag, and the slot may no longer be discarded. */
  function Put<E>(s: State<E>, i: nat, e: E, epoch: bool): State<E>
    requires i < |s.table| == |s.discard| == |s.epoch|
  {
    State(s.table[i := e], s.discard[i := false], s.epoch[i := epoch])
  }

  /** What a slot holds: an element, whether it is of the current epoch, whether it may be discarded. */
  datatype Entry<E> = Entry(element: E, epoch: bool, discard: bool)

  ghost function Entries<E>(s: State<E>): (r: seq<Entry<E>>)
    requires Shape(s)
  {
    seq(|s.table|, i requires 0 <= i < |s.table| => Entry(s.table[i], s.epoch[i], s.discard[i]))
  }

  /** Between rounds of an insertion of e0 into s0: x, with its epoch flag, is in hand. */
  ghost predicate Chain<E>(loc: (nat, E) -> nat, zero: E, s0: State<E>, e0: E, s: State<E>, x: E, epoch: bool) {
    && Shape(s0) && Good(loc, zero, s) && |s.table| == |s0.table| && s.discard == s0.discard
    && multiset(s.table) + multiset{x} == multiset(s0.table) + multiset{e0}
    && multiset(Entries(s)) + multiset{Entry(x, epoch, false)} == multiset(Entries(s0)) + multiset{Entry(e0, true, false)}
    && Live(s) + One(epoch) == Live(s0) + 1 && Old(s) + One(!epoch) == Old(s0)
    && (x != zero ==> x !in s.table)
  }

  /** What an insertion of an absent element does: the element comes in as an entry to keep of the
      current epoch, one entry goes, and all the others stay, flags and all. */
  ghost predicate Replaced<E>(loc: (nat, E) -> nat, zero: E, s0: State<E>, e0: E, t: State<E>, dropped: Entry<E>) {
    && Shape(s0) && Good(loc, zero, t) && |t.table| == |s0.table|
    && multiset(t.table) + multiset{dropped.element} == multiset(s0.table) + multiset{e0}
    && multiset(Entries(t)) + multiset{dropped} == multiset(Entries(s0)) + multiset{Entry(e0, true, false)}
    && Live(t) <= Live(s0) + 1 && Old(t) <= Old(s0)
  }

  lemma ChainStart<E>(loc: (nat, E) -> nat, zero: E, s: State<E>, e: E)
    requires Good(loc, zero, s) && forall i | 0 <= i < |s.table| && Own(loc, e, i) :: s.table[i] != e
    ensures Chain(loc, zero, s, e, s, e, true)
  {
  }

  lemma PutTable<E>(t: seq<E>, i: nat, x: E)
    requires i < |t|
    ensures multiset(t[i := x]) + multiset{t[i]} == multiset(t) + multiset{x}
  {
    assert t == t[..i] + [t[i]] + t[i + 1..];
    assert t[i := x] == t[..i] + [x] + t[i + 1..];
  }

  lemma PutEntries<E>(s: State<E>, i: nat, x: E, epoch: bool)
    requires Shape(s) && i < |s.table|
    ensures multiset(Entries(Put(s, i, x, epoch))) + multiset{Entry(s.table[i], s.epoch[i], s.discard[i])}
            == multiset(Entries(s)) + multiset{Entry(x, epoch, false)}
  {
    assert Entries(Put(s, i, x, epoch)) == Entries(s)[i := Entry(x, epoch, false)];
    PutTable(Entries(s), i, Entry(x, epoch, false));
  }

  lemma PutOnce<E>(zero: E, t: seq<E>, i: nat, x: E)
    requires i < |t| && Once(zero, t) && (x != zero ==> x !in t)
    ensures Once(zero, t[i := x]) && (t[i] != zero ==> t[i] !in t[i := x])
  {
  }

  lemma PutPlaced<E>(loc: (nat, E) -> nat, zero: E, s: State<E>, i: nat, x: E, epoch: bool)
    requires Shape(s) && Placed(loc, zero, s) && i < |s.table| && Own(loc, x, i)
    ensures Placed(loc, zero, Put(s, i, x, epoch))
  {
    hide Own;
  }

  /** The element in hand changes places with a kept one; the epoch flags go with them. */
  lemma ChainSwap<E>(loc: (nat, E) -> nat, zero: E, s0: State<E>, e0: E, s: State<E>, x: E, epoch: bool, i: nat)
    requires Chain(loc, zero, s0, e0, s, x, epoch) && i < |s.table| && Own(loc, x, i) && !s.discard[i]
    ensures Chain(loc, zero, s0, e0, Put(s, i, x, epoch), s.table[i], s.epoch[i])
  {
    hide Own, Placed, Once, Live, Old, Entries;
    var t := Put(s, i, x, epoch);
    assert t.discard == s.discard;
    PutTable(s.table, i, x);
    PutEntries(s, i, x, epoch);
    PutOnce(zero, s.table, i, x);
    PutPlaced(loc, zero, s, i, x, epoch);
    Reflag(s, t, i);
  }

  /** The element in hand goes to a slot that may be discarded. */
  lemma ChainPut<E>(loc: (nat, E) -> nat, zero: E, s0: State<E>, e0: E, s: State<E>, x: E, epoch: bool, i: nat)
    requires Chain(loc, zero, s0, e0, s, x, epoch) && i < |s.table| && Own(loc, x, i) && s.discard[i]
    ensures Replaced(loc, zero, s0, e0, Put(s, i, x, epoch), Entry(s.table[i], s.epoch[i], true))
  {
    hide Own, Placed, Once, Live, Old, Entries;
    PutTable(s.table, i, x);
    PutEntries(s, i, x, epoch);
    PutOnce(zero, s.table, i, x);
    PutPlaced(loc, zero, s, i, x, epoch);
    Reflag(s, Put(s, i, x, epoch), i);
  }

  /** The element in hand is given up. */
  lemma ChainDrop<E>(loc: (nat, E) -> nat, zero: E, s0: State<E>, e0: E, s: State<E>, x: E, epoch: bool)
    requires Chain(loc, zero, s0, e0, s, x, epoch)
    ensures Replaced(loc, zero, s0, e0, s, Entry(x, epoch, false))
  {
  }

  /** An element that is in the table already is kept there. */
  lemma Refreshed<E>(loc: (nat, E) -> nat, zero: E, s: State<E>, i: nat)
    requires Good(loc, zero, s) && i < |s.table| && Own(loc, s.table[i], i)
    ensures var t := Put(s, i, s.table[i], true); t.table == s.table && Good(loc, zero, t) && Live(t) <= Live(s) + 1 && Old(t) <= Old(s)
  {
    hide Own, Once, Live, Old;
    PutPlaced(loc, zero, s, i, s.table[i], true);
    Reflag(s, Put(s, i, s.table[i], true), i);
  }

  /** An entry is released. */
  lemma Released<E>(loc: (nat, E) -> nat, zero: E, s: State<E>, i: nat)
    requires Good(loc, zero, s) && i < |s.table|
    ensures var t := s.(discard := s.discard[i := true]); Good(loc, zero, t) && Live(t) <= Live(s) && Old(t) <= Old(s)
  {
    hide Own, Once, Live, Old;
    Reflag(s, s.(discard := s.discard[i := true]), i);
  }

  // -------------------------------------------------------- concurrent erasures

  /** The flags after atomic erasures of the given slots, by any threads, in that order. */
  function EraseAll<E>(s: State<E>, slots: seq<nat>): (t: State<E>)
    requires forall k | 0 <= k < |slots| :: slots[k] < |s.discard|
    ensures t.table == s.table && t.epoch == s.epoch && |t.discard| == |s.discard|
  {
    if slots == [] then s
    else
      var t := EraseAll(s, slots[..|slots| - 1]);
      t.(discard := t.discard[slots[|slots| - 1] := true])
  }

  /** No entry moves, exactly the erased slots may be discarded as well, and what every run keeps is
      kept between any two erasures. */
  lemma {:induction false} ErasedIs<E>(loc: (nat, E) -> nat, zero: E, s: State<E>, slots: seq<nat>, counter: nat, epochSize: nat)
    requires Good(loc, zero, s) && Timely(s, counter, epochSize) && forall k | 0 <= k < |slots| :: slots[k] < |s.discard|
    ensures var t := EraseAll(s, slots);
            && (forall i | 0 <= i < |s.discard| :: t.discard[i] <==> s.discard[i] || i in slots)
            && Good(loc, zero, t) && Timely(t, counter, epochSize)
  {
    if slots != [] {
      var n := |slots| - 1;
      ErasedIs(loc, zero, s, slots[..n], counter, epochSize);
      hide Good, Live, Old;
      assert Shape(EraseAll(s, slots[..n])) by { GoodShape(loc, zero, s); }
      Released(loc, zero, EraseAll(s, slots[..n]), slots[n]);
      assert slots == slots[..n] + [slots[n]];
    }
  }

  lemma GoodShape<E>(loc: (nat, E) -> nat, zero: E, s: State<E>)
    requires Good(loc, zero, s)
    ensures Shape(s)
  {
  }

  /** The order in which threads get there does not matter, nor does erasing twice. */
  lemma AnyOrder<E>(loc: (nat, E) -> nat, zero: E, s: State<E>, a: seq<nat>, b: seq<nat>, counter: nat, epochSize: nat)
    requires Good(loc, zero, s) && Timely(s, counter, epochSize)
    requires (forall k | 0 <= k < |a| :: a[k] < |s.discard|) && (forall k | 0 <= k < |b| :: b[k] < |s.discard|)
    requires forall i :: i in a <==> i in b
    ensures EraseAll(s, a) == EraseAll(s, b)
  {
    hide Good, Timely;
    ErasedIs(loc, zero, s, a, counter, epochSize);
    ErasedIs(loc, zero, s, b, counter, epochSize);
    assert EraseAll(s, a).discard == EraseAll(s, b).discard;
  }

  // ---------------------------------------------------------------------- epochs

  /** The current epoch becomes the old one, and the entries of the old one may be discarded. */
  ghost predicate Aged<E>(s: State<E>, t: State<E>) {
    && Shape(s) && Shape(t) && t.table == s.table
    && forall i | 0 <= i < |s.table| :: !t.epoch[i] && t.discard[i] == (s.discard[i] || !s.epoch[i])
  }

  lemma AgedIs<E>(loc: (nat, E) -> nat, zero: E, s: State<E>, t: State<E>)
    requires Good(loc, zero, s) && Aged(s, t)
    ensures Good(loc, zero, t) && Live(t) == 0 && Old(t) == Live(s)
  {
    hide Own, Once, Count;
    CountNone(LiveFlags(t));
    assert OldFlags(t) == LiveFlags(s);
  }

  function Max(a: nat, b: nat): nat { if a < b then b else a }

  /** The entries of one epoch, computed in 32 bits. */
  function EpochSize(size: nat): nat { Max(1, 45 * size % 0x1_0000_0000 / 100) }

  /** That is 45 per cent of the table if and only if the product does not wrap, and never more. */
  lemma EpochSizeIs(size: nat)
    ensures EpochSize(size) == Max(1, 45 * size / 100) <==> 45 * size < 0x1_0000_0000
    ensures EpochSize(size) <= Max(1, 45 * size / 100)
  {
    var product, low := 45 * size, 45 * size % 0x1_0000_0000;
    assert product >= 0x1_0000_0000 ==> low + 0x1_0000_0000 <= product;
  }

  /** In a table of 2^27 slots an epoch is 13 per cent. */
  lemma WrappedEpoch()
    ensures EpochSize(134217728) == 17448304 && 45 * 134217728 / 100 == 60397977
  {
  }

  /** The most kept entries of one epoch. */
  function Bound(epochSize: nat): nat { epochSize + Max(1, epochSize / 16) }

  /** What every run keeps: the counter starts a scan before the current epoch outgrows its bound. */
  ghost predicate Timely<E>(s: State<E>, counter: nat, epochSize: nat)
    requires |s.discard| == |s.epoch|
  {
    Live(s) + counter <= Bound(epochSize) && Old(s) <= Bound(epochSize)
  }

  lemma Initial<E>(loc: (nat, E) -> nat, zero: E, s: State<E>, counter: nat, epochSize: nat)
    requires Shape(s) && counter <= epochSize
    requires forall i | 0 <= i < |s.table| :: s.table[i] == zero && s.discard[i]
    ensures Good(loc, zero, s) && Timely(s, counter, epochSize)
  {
    CountNone(LiveFlags(s));
    CountNone(OldFlags(s));
  }

  /** Kept entries are those of the two epochs. */
  lemma {:induction false} KeptCount<E>(s: State<E>)
    requires |s.epoch| == |s.discard|
    ensures Live(s) + Old(s) + Count(s.discard) == |s.epoch|
    decreases |s.epoch|
  {
    if s.epoch != [] {
      var n := |s.epoch| - 1;
      var t := s.(epoch := s.epoch[..n], discard := s.discard[..n]);
      KeptCount(t);
      LastSlot(s, t, n);
    }
  }

  lemma LastSlot<E>(s: State<E>, t: State<E>, n: nat)
    requires |s.epoch| == |s.discard| == n + 1 && t == s.(epoch := s.epoch[..n], discard := s.discard[..n])
    ensures Live(s) + Old(s) == Live(t) + Old(t) + One(!s.discard[n])
  {
    assert LiveFlags(s)[..n] == LiveFlags(t);
    assert OldFlags(s)[..n] == OldFlags(t);
  }

  /** A table of 32 slots or more is never full of entries to keep. */
  lemma NeverFull<E>(s: State<E>, counter: nat, size: nat)
    requires Shape(s) && |s.table| == size >= 32 && Timely(s, counter, EpochSize(size))
    ensures exists i :: 0 <= i < size && s.discard[i]
  {
    KeptCount(s);
    EpochSizeIs(size);
    hide EpochSize;
    assert Count(s.discard) > 0;
    if forall i | 0 <= i < size :: !s.discard[i] { CountNone(s.discard); }
  }

  /** Looking at the eight positions finds exactly what is in the table. */
  lemma FoundIff<E>(loc: (nat, E) -> nat, zero: E, s: State<E>, e: E)
    requires Good(loc, zero, s) && e != zero
    ensures e in s.table <==> exists i :: 0 <= i < |s.table| && Own(loc, e, i) && s.table[i] == e
  {
    if e in s.table {
      var i :| 0 <= i < |s.table| && s.table[i] == e;
      assert Own(loc, s.table[i], i);
    }
  }
}
