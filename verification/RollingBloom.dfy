/** CRollingBloomFilter (src/bloom.cpp): two bits per position, packed in pairs of 64-bit words,
    say in which of three generations the position was last marked. */
module RollingBloom {

  // ----------------------------------------------------------------------- words

  datatype Word = Word(bits: bv64)

  predicate Bit(w: Word, b: bv6) { (w.bits >> b) & 1 == 1 }

  function And(v: Word, w: Word): Word { Word(v.bits & w.bits) }

  function Or(v: Word, w: Word): Word { Word(v.bits | w.bits) }

  function Xor(v: Word, w: Word): Word { Word(v.bits ^ w.bits) }

  /** All ones or all zeros. */
  function Flood(on: bool): Word { if on then Word(0xffff_ffff_ffff_ffff) else Word(0) }

  function Put(w: Word, b: bv6, on: bool): Word {
    Word((w.bits & !((1 as bv64) << b)) | (if on then (1 as bv64) << b else 0))
  }

  lemma AndIs(v: Word, w: Word, c: bv6)
    ensures Bit(And(v, w), c) == (Bit(v, c) && Bit(w, c))
  {
  }

  lemma OrIs(v: Word, w: Word, c: bv6)
    ensures Bit(Or(v, w), c) == (Bit(v, c) || Bit(w, c))
  {
  }

  lemma XorIs(v: Word, w: Word, c: bv6)
    ensures Bit(Xor(v, w), c) == (Bit(v, c) != Bit(w, c))
  {
  }

  lemma FloodIs(on: bool, c: bv6)
    ensures Bit(Flood(on), c) == on
  {
  }

  lemma PutSame(w: Word, b: bv6, on: bool)
    ensures Bit(Put(w, b, on), b) == on
  {
  }

  lemma PutOther(w: Word, b: bv6, on: bool, c: bv6)
    requires b != c
    ensures Bit(Put(w, b, on), c) == Bit(w, c)
  {
  }

  // ----------------------------------------------------------------------- marks

  /** The generation in which a position was last marked; 0 for none. */
  function Mark(p1: Word, p2: Word, b: bv6): nat {
    (if Bit(p1, b) then 1 else 0) + (if Bit(p2, b) then 2 else 0)
  }

  /** The positions not marked with the given generation. */
  function Keep(p1: Word, p2: Word, g: nat): Word {
    Or(Xor(p1, Flood(g % 2 == 1)), Xor(p2, Flood(g / 2 == 1)))
  }

  /** Wiping with the mask clears the marks of one generation and no others. */
  lemma Wiped(p1: Word, p2: Word, g: nat, c: bv6)
    requires 1 <= g <= 3
    ensures Mark(And(p1, Keep(p1, p2, g)), And(p2, Keep(p1, p2, g)), c) == if Mark(p1, p2, c) == g then 0 else Mark(p1, p2, c)
  {
    hide Bit, And, Or, Xor, Flood;
    var f1, f2 := Flood(g % 2 == 1), Flood(g / 2 == 1);
    FloodIs(g % 2 == 1, c);
    FloodIs(g / 2 == 1, c);
    XorIs(p1, f1, c);
    XorIs(p2, f2, c);
    OrIs(Xor(p1, f1), Xor(p2, f2), c);
    AndIs(p1, Keep(p1, p2, g), c);
    AndIs(p2, Keep(p1, p2, g), c);
  }

  /** Writing a generation number at one position. */
  lemma Marked(p1: Word, p2: Word, b: bv6, g: nat, c: bv6)
    requires 1 <= g <= 3
    ensures Mark(Put(p1, b, g % 2 == 1), Put(p2, b, g / 2 == 1), c) == if b == c then g else Mark(p1, p2, c)
  {
    hide Bit, Put;
    if b == c {
      PutSame(p1, b, g % 2 == 1);
      PutSame(p2, b, g / 2 == 1);
    } else {
      PutOther(p1, b, g % 2 == 1, c);
      PutOther(p2, b, g / 2 == 1, c);
    }
  }

  /** A position is selected by the pair of words and the bit. */
  datatype Slot = Slot(pair: nat, bit: bv6)

  function SlotOf(h: bv32, pairs: nat): (s: Slot)
    requires pairs > 0
    ensures s.pair < pairs
  {
    Slot(PairOf((h >> 6) as nat, pairs), (h & 0x3f) as bv6)
  }

  /** The lowest bit of the word index is ignored. */
  function PairOf(high: nat, pairs: nat): (i: nat)
    requires pairs > 0
    ensures i < pairs && (2 * i == high % (2 * pairs) || 2 * i + 1 == high % (2 * pairs))
  {
    high % (2 * pairs) / 2
  }

  ghost predicate Words(d: seq<Word>) { |d| > 0 && |d| % 2 == 0 }

  ghost function MarkAt(d: seq<Word>, s: Slot): nat
    requires 2 * s.pair + 1 < |d|
  {
    Mark(d[2 * s.pair], d[2 * s.pair + 1], s.bit)
  }

  // ----------------------------------------------------------------- generations

  /** How many generations ago g was the current one. */
  function Age(current: nat, g: nat): int { if g <= current then current - g else current + 3 - g }

  function Next(g: nat): nat { if g + 1 == 4 then 1 else g + 1 }

  /** The age of the generation of the key inserted `back` insertions before the latest; 3 when
      its marks may have been wiped. */
  function KeyAge(back: nat, entries: nat, perGeneration: nat): nat {
    if back < entries then 0
    else if back < entries + perGeneration then 1
    else if back < entries + 2 * perGeneration then 2
    else 3
  }

  /** The mark is by a generation no older than the age. */
  ghost predicate MarkedSince(d: seq<Word>, current: nat, s: Slot, age: nat) {
    2 * s.pair + 1 < |d| && 1 <= MarkAt(d, s) <= 3 && Age(current, MarkAt(d, s)) <= age
  }

  ghost predicate Remembers(d: seq<Word>, current: nat, slots: seq<Slot>, age: nat) {
    forall n | 0 <= n < |slots| :: MarkedSince(d, current, slots[n], age)
  }

  /** What every run keeps about the keys inserted since the last reset, each given by its slots. */
  ghost predicate Kept(d: seq<Word>, current: nat, entries: nat, perGeneration: nat, log: seq<seq<Slot>>) {
    forall j | 0 <= j < |log| && KeyAge(|log| - 1 - j, entries, perGeneration) <= 2 ::
      Remembers(d, current, log[j], KeyAge(|log| - 1 - j, entries, perGeneration))
  }

  /** A wipe replaces d by d', the marks of the generation that is about to start gone. */
  ghost predicate WipeOf(d: seq<Word>, d': seq<Word>, g: nat) {
    && |d'| == |d|
    && forall i | 0 <= 2 * i < 2 * i + 1 < |d| ::
         && d'[2 * i] == And(d[2 * i], Keep(d[2 * i], d[2 * i + 1], g))
         && d'[2 * i + 1] == And(d[2 * i + 1], Keep(d[2 * i], d[2 * i + 1], g))
  }

  /** Starting a generation wipes the oldest one, which no key that is still due relies on. */
  lemma Rotated(d: seq<Word>, d': seq<Word>, current: nat, perGeneration: nat, log: seq<seq<Slot>>)
    requires 1 <= current <= 3 && WipeOf(d, d', Next(current)) && Kept(d, current, perGeneration, perGeneration, log)
    ensures Kept(d', Next(current), 0, perGeneration, log)
  {
    forall j | 0 <= j < |log| && KeyAge(|log| - 1 - j, 0, perGeneration) <= 2
      ensures Remembers(d', Next(current), log[j], KeyAge(|log| - 1 - j, 0, perGeneration))
    {
      var age := KeyAge(|log| - 1 - j, 0, perGeneration);
      assert Remembers(d, current, log[j], age - 1);
      forall n | 0 <= n < |log[j]| ensures MarkedSince(d', Next(current), log[j][n], age) {
        Survives(d, d', current, log[j][n], age);
      }
    }
  }

  lemma Survives(d: seq<Word>, d': seq<Word>, current: nat, s: Slot, age: nat)
    requires 1 <= current <= 3 && WipeOf(d, d', Next(current)) && 1 <= age <= 2 && MarkedSince(d, current, s, age - 1)
    ensures MarkedSince(d', Next(current), s, age)
  {
    hide Mark, And, Keep;
    Wiped(d[2 * s.pair], d[2 * s.pair + 1], Next(current), s.bit);
  }

  /** d' is d with generation g marked at s. */
  ghost predicate MarkOf(d: seq<Word>, d': seq<Word>, s: Slot, g: nat) {
    && 2 * s.pair + 1 < |d|
    && d' == d[2 * s.pair := Put(d[2 * s.pair], s.bit, g % 2 == 1)][2 * s.pair + 1 := Put(d[2 * s.pair + 1], s.bit, g / 2 == 1)]
  }

  /** Overwriting a mark with the current generation only makes it younger. */
  lemma MarkKeeps(d: seq<Word>, d': seq<Word>, current: nat, s: Slot, t: Slot, age: nat)
    requires 1 <= current <= 3 && MarkOf(d, d', s, current)
    ensures MarkedSince(d, current, t, age) ==> MarkedSince(d', current, t, age)
    ensures MarkedSince(d', current, s, 0)
  {
    hide Mark, Put;
    Marked(d[2 * s.pair], d[2 * s.pair + 1], s.bit, current, s.bit);
    if s.pair == t.pair { Marked(d[2 * s.pair], d[2 * s.pair + 1], s.bit, current, t.bit); }
  }

  lemma MarkKeepsAll(d: seq<Word>, d': seq<Word>, current: nat, s: Slot, slots: seq<Slot>, age: nat)
    requires 1 <= current <= 3 && MarkOf(d, d', s, current) && Remembers(d, current, slots, age)
    ensures Remembers(d', current, slots, age)
  {
    forall n | 0 <= n < |slots| ensures MarkedSince(d', current, slots[n], age) {
      MarkKeeps(d, d', current, s, slots[n], age);
    }
  }

  lemma MarkKeepsLog(d: seq<Word>, d': seq<Word>, current: nat, s: Slot, entries: nat, perGeneration: nat, log: seq<seq<Slot>>)
    requires 1 <= current <= 3 && MarkOf(d, d', s, current) && Kept(d, current, entries, perGeneration, log)
    ensures Kept(d', current, entries, perGeneration, log)
  {
    hide MarkOf, Remembers;
    forall j | 0 <= j < |log| && KeyAge(|log| - 1 - j, entries, perGeneration) <= 2
      ensures Remembers(d', current, log[j], KeyAge(|log| - 1 - j, entries, perGeneration))
    {
      MarkKeepsAll(d, d', current, s, log[j], KeyAge(|log| - 1 - j, entries, perGeneration));
    }
  }

  /** The new key is the youngest, and the others keep their ages. */
  lemma Logged(d: seq<Word>, current: nat, entries: nat, perGeneration: nat, log: seq<seq<Slot>>, slots: seq<Slot>)
    requires Kept(d, current, entries, perGeneration, log) && Remembers(d, current, slots, 0)
    ensures Kept(d, current, entries + 1, perGeneration, log + [slots])
  {
    hide Remembers;
    var log' := log + [slots];
    forall j | 0 <= j < |log'| && KeyAge(|log'| - 1 - j, entries + 1, perGeneration) <= 2
      ensures Remembers(d, current, log'[j], KeyAge(|log'| - 1 - j, entries + 1, perGeneration))
    {
      if j < |log| {
        assert KeyAge(|log'| - 1 - j, entries + 1, perGeneration) == KeyAge(|log| - 1 - j, entries, perGeneration);
      }
    }
  }

  /** The marks of a filter after a wipe: those of generation g are gone. */
  ghost predicate Forgot(d: seq<Word>, d': seq<Word>, g: nat) {
    && |d'| == |d|
    && forall s: Slot | 2 * s.pair + 1 < |d| :: MarkAt(d', s) == if MarkAt(d, s) == g then 0 else MarkAt(d, s)
  }

  lemma WipeForgets(d: seq<Word>, d': seq<Word>, g: nat)
    requires 1 <= g <= 3 && WipeOf(d, d', g)
    ensures Forgot(d, d', g)
  {
    hide Mark, And, Keep;
    forall s: Slot | 2 * s.pair + 1 < |d| ensures MarkAt(d', s) == if MarkAt(d, s) == g then 0 else MarkAt(d, s) {
      Wiped(d[2 * s.pair], d[2 * s.pair + 1], g, s.bit);
    }
  }

  /** The marks of a filter after an insertion: the given slots carry generation g, and no other
      slot changed. */
  ghost predicate Wrote(d: seq<Word>, d': seq<Word>, slots: seq<Slot>, g: nat) {
    && |d'| == |d|
    && forall s: Slot | 2 * s.pair + 1 < |d| :: MarkAt(d', s) == if s in slots then g else MarkAt(d, s)
  }

  lemma WroteNone(d: seq<Word>, g: nat)
    ensures Wrote(d, d, [], g)
  {
  }

  lemma WroteNext(d: seq<Word>, d1: seq<Word>, d2: seq<Word>, slots: seq<Slot>, s: Slot, g: nat)
    requires 1 <= g <= 3 && Wrote(d, d1, slots, g) && MarkOf(d1, d2, s, g)
    ensures Wrote(d, d2, slots + [s], g)
  {
    hide Mark, Put;
    forall t: Slot | 2 * t.pair + 1 < |d| ensures MarkAt(d2, t) == if t in slots + [s] then g else MarkAt(d, t) {
      Marked(d1[2 * s.pair], d1[2 * s.pair + 1], s.bit, g, t.bit);
    }
  }

  lemma BlankMarks(d: seq<Word>)
    requires forall i | 0 <= i < |d| :: d[i] == Word(0)
    ensures forall s: Slot | 2 * s.pair + 1 < |d| :: MarkAt(d, s) == 0
  {
    forall s: Slot | 2 * s.pair + 1 < |d| ensures MarkAt(d, s) == 0 { BlankBit(s.bit); }
  }

  lemma BlankBit(b: bv6)
    ensures !Bit(Word(0), b)
  {
  }

  const W32: nat := 0x1_0000_0000

  /** nEntriesPerGeneration and nMaxElements, in 32 bits. */
  function PerGeneration(elements: nat): nat { (elements + 1) % W32 / 2 }

  function MaxElements(elements: nat): nat { 3 * PerGeneration(elements) % W32 }

  /** Two generations hold as many keys as promised, and there is something to size the filter by,
      unless it is to hold no key at all or 2^32 - 1 keys. */
  lemma SizesAre(elements: nat)
    requires elements < W32
    ensures MaxElements(elements) == 0 <==> elements == 0 || elements == W32 - 1
    ensures elements < W32 - 1 ==> elements <= 2 * PerGeneration(elements) <= elements + 1
  {
    var g := PerGeneration(elements);
    assert g < 0x8000_0000;
    assert 3 * g < 2 * W32;
    if MaxElements(elements) == 0 { assert 3 * g == 0 || 3 * g == W32; }
  }

  type Key = seq<bv8>

  class RollingBloomFilter {
    const perGeneration: nat
    const hashFuncs: nat
    const murmur: (bv32, Key) -> bv32
    const data: array<Word>
    var tweak: bv32
    var entries: nat
    var generation: nat
    /** The keys inserted since the last reset. */
    ghost var keys: seq<Key>

    ghost predicate Valid()
      reads this, data
    {
      && Words(data[..]) && 1 <= generation <= 3 && hashFuncs <= 50
      && Kept(data[..], generation, entries, perGeneration, Log())
    }

    /** RollingBloomHash, reduced to a position. */
    function SlotFor(tweak: bv32, n: nat, key: Key): (s: Slot)
      requires data.Length >= 2 && n < 50
      ensures 2 * s.pair + 1 < data.Length
    {
      SlotOf(murmur(n as bv32 * 0xFBA4C795 + tweak, key), data.Length / 2)
    }

    ghost function Slots(tweak: bv32, key: Key): (r: seq<Slot>)
      requires data.Length >= 2 && hashFuncs <= 50
    {
      seq(hashFuncs, n requires 0 <= n < hashFuncs => SlotFor(tweak, n, key))
    }

    ghost function Log(): seq<seq<Slot>>
      reads this
    {
      if data.Length >= 2 && hashFuncs <= 50
      then seq(|keys|, j requires 0 <= j < |keys| reads this => Slots(tweak, keys[j])) else []
    }

    /** Nothing is marked, and the first generation starts. */
    ghost predicate Blank()
      reads this, data
    {
      entries == 0 && generation == 1 && forall s: Slot | 2 * s.pair + 1 < data.Length :: MarkAt(data[..], s) == 0
    }

    /** The sizes come from floating-point formulas and are parameters; the number of words is
        proportional to nMaxElements.  With no words at all, any use would divide by zero. */
    constructor (elements: nat, hashFuncs: nat, pairs: nat, murmur: (bv32, Key) -> bv32, tweak: bv32)
      requires elements < W32 && hashFuncs <= 50 && (pairs > 0 <==> MaxElements(elements) > 0)
      ensures Valid() <==> 0 < elements < W32 - 1
      ensures keys == [] && (Valid() ==> elements <= 2 * perGeneration <= elements + 1)
      ensures Blank() && this.tweak == tweak && this.hashFuncs == hashFuncs && this.murmur == murmur && data.Length == 2 * pairs
      ensures fresh(data)
    {
      this.perGeneration := PerGeneration(elements);
      this.hashFuncs := hashFuncs;
      this.murmur := murmur;
      this.tweak := tweak;
      this.data := new Word[2 * pairs](i => Word(0));
      this.entries, this.generation, this.keys := 0, 1, [];
      new;
      SizesAre(elements);
      BlankMarks(data[..]);
    }

    method Reset(tweak: bv32)
      requires Valid()
      modifies this, data
      ensures Valid() && keys == [] && Blank() && this.tweak == tweak
    {
      this.tweak, entries, generation, keys := tweak, 0, 1, [];
      forall i | 0 <= i < data.Length { data[i] := Word(0); }
      BlankMarks(data[..]);
    }

    method Wipe()
      requires Words(data[..])
      modifies data
      ensures WipeOf(old(data[..]), data[..], generation)
    {
      hide And, Keep;
      for i := 0 to data.Length / 2
        invariant forall k | 2 * i <= k < data.Length :: data[k] == old(data[k])
        invariant forall k | 0 <= k < i :: data[2 * k] == And(old(data[2 * k]), Keep(old(data[2 * k]), old(data[2 * k + 1]), generation))
        invariant forall k | 0 <= k < i :: data[2 * k + 1] == And(old(data[2 * k + 1]), Keep(old(data[2 * k]), old(data[2 * k + 1]), generation))
      {
        var p1, p2 := data[2 * i], data[2 * i + 1];
        var mask := Keep(p1, p2, generation);
        data[2 * i] := And(p1, mask);
        data[2 * i + 1] := And(p2, mask);
      }
    }

    method SetMark(s: Slot)
      requires 2 * s.pair + 1 < data.Length
      modifies data
      ensures MarkOf(old(data[..]), data[..], s, generation)
    {
      data[2 * s.pair] := Put(data[2 * s.pair], s.bit, generation % 2 == 1);
      data[2 * s.pair + 1] := Put(data[2 * s.pair + 1], s.bit, generation / 2 == 1);
    }

    /** A full generation is closed first: the next one starts, and the marks of the oldest go. */
    method Insert(key: Key)
      requires Valid()
      modifies this, data
      ensures Valid() && keys == old(keys) + [key] && tweak == old(tweak)
      ensures var full := old(entries) == perGeneration;
              && entries == (if full then 1 else old(entries) + 1)
              && generation == (if full then Next(old(generation)) else old(generation))
              && forall s: Slot | 2 * s.pair + 1 < data.Length :: MarkAt(data[..], s) ==
                   if s in Slots(tweak, key) then generation
                   else if full && MarkAt(old(data[..]), s) == generation then 0
                   else MarkAt(old(data[..]), s)
    {
      hide Kept, MarkOf, WipeOf, Remembers, Mark, SlotOf;
      ghost var log := Log();
      if entries == perGeneration {
        generation := Next(generation);
        ghost var before := data[..];
        Wipe();
        Rotated(before, data[..], old(generation), perGeneration, log);
        WipeForgets(before, data[..], generation);
        entries := 0;
      }
      MarkAll(key, log);
      Logged(data[..], generation, entries, perGeneration, log, Slots(tweak, key));
      entries := entries + 1;
      keys := keys + [key];
      assert Log() == log + [Slots(tweak, key)];
    }

    method MarkAll(key: Key, ghost log: seq<seq<Slot>>)
      requires Words(data[..]) && 1 <= generation <= 3 && hashFuncs <= 50
      requires Kept(data[..], generation, entries, perGeneration, log)
      modifies data
      ensures Kept(data[..], generation, entries, perGeneration, log) && Remembers(data[..], generation, Slots(tweak, key), 0)
      ensures Wrote(old(data[..]), data[..], Slots(tweak, key), generation)
    {
      hide Kept, MarkOf, MarkedSince, SlotOf, Wrote;
      ghost var slots := Slots(tweak, key);
      WroteNone(data[..], generation);
      for n := 0 to hashFuncs
        invariant Kept(data[..], generation, entries, perGeneration, log)
        invariant Remembers(data[..], generation, slots[..n], 0)
        invariant Wrote(old(data[..]), data[..], slots[..n], generation)
      {
        var s := SlotFor(tweak, n, key);
        ghost var before := data[..];
        SetMark(s);
        MarkKeepsLog(before, data[..], generation, s, entries, perGeneration, log);
        MarkKeepsAll(before, data[..], generation, s, slots[..n], 0);
        MarkKeeps(before, data[..], generation, s, s, 0);
        WroteNext(old(data[..]), before, data[..], slots[..n], s, generation);
        assert slots[..n + 1] == slots[..n] + [s];
      }
      assert slots[..hashFuncs] == slots;
    }

    method Contains(key: Key) returns (found: bool)
      requires Valid()
      ensures found <==> forall n | 0 <= n < hashFuncs :: MarkAt(data[..], SlotFor(tweak, n, key)) != 0
      ensures forall j | 0 <= j < |keys| && |keys| - j <= 2 * perGeneration + entries :: keys[j] == key ==> found
    {
      hide Kept, Bit, Or, SlotOf;
      for n := 0 to hashFuncs
        invariant forall k | 0 <= k < n :: MarkAt(data[..], SlotFor(tweak, k, key)) != 0
      {
        var s := SlotFor(tweak, n, key);
        OrIs(data[2 * s.pair], data[2 * s.pair + 1], s.bit);
        if !Bit(Or(data[2 * s.pair], data[2 * s.pair + 1]), s.bit) {
          Forgotten(key, n);
          return false;
        }
      }
      return true;
    }

    /** A key of which some position is not marked is not among those still due. */
    lemma Forgotten(key: Key, n: nat)
      requires Valid() && n < hashFuncs && MarkAt(data[..], SlotFor(tweak, n, key)) == 0
      ensures forall j | 0 <= j < |keys| && |keys| - j <= 2 * perGeneration + entries :: keys[j] != key
    {
      forall j | 0 <= j < |keys| && |keys| - j <= 2 * perGeneration + entries ensures keys[j] != key {
        var log := Log();
        assert log[j] == Slots(tweak, keys[j]);
        assert Remembers(data[..], generation, log[j], KeyAge(|keys| - 1 - j, entries, perGeneration));
        assert MarkedSince(data[..], generation, log[j][n], KeyAge(|keys| - 1 - j, entries, perGeneration));
      }
    }
  }
}
