/** Every operation of the address manager keeps the consistency invariant and trips none
    of its assertions, over every run. */
module AddrManProofs {
  import opened AddrManSpec

  /** Two entry tables with the same ids, addresses, reference counts and tried flags. */
  ghost predicate SameTables(m: map<Id, Info>, m': map<Id, Info>) {
    && m.Keys == m'.Keys
    && forall id | id in m ::
         && m'[id].service == m[id].service && m'[id].refCount == m[id].refCount
         && m'[id].inTried == m[id].inTried
  }

  /** Entry id is the same in both tables, up to its position in random. */
  ghost predicate Kept(m: map<Id, Info>, m': map<Id, Info>, id: Id)
    requires id in m
  {
    id in m' && m'[id] == m[id].(randomPos := m'[id].randomPos)
  }

  lemma SameCounts(m: map<Id, Info>, m': map<Id, Info>)
    requires SameTables(m, m')
    ensures NewIds(m') == NewIds(m) && TriedIds(m') == TriedIds(m)
  {
  }

  lemma SameTablesKeep(s: State, s': State, limbo: set<Id>, u: int)
    requires InvL(s, limbo, u) && SameTables(s.infos, s'.infos)
    requires s'.hasher == s.hasher && s'.idCount == s.idCount && s'.ids == s.ids
    requires s'.newTable == s.newTable && s'.triedTable == s.triedTable
    requires s'.newCount == s.newCount && s'.triedCount == s.triedCount
    requires RandomOk(s'.infos, s'.random)
    ensures InvL(s', limbo, u) && (Indexed(s) ==> Indexed(s'))
  {
    SameCounts(s.infos, s'.infos);
  }

  lemma SwapRandomOk(m: map<Id, Info>, m': map<Id, Info>, random: seq<Id>, i: int, j: int)
    requires RandomOk(m, random)
    requires 0 <= i < |random| && 0 <= j < |random| && i != j
    requires m'.Keys == m.Keys
    requires forall id | id in m && id != random[i] && id != random[j] :: m'[id].randomPos == m[id].randomPos
    requires random[i] in m && random[j] in m
    requires m'[random[i]].randomPos == j && m'[random[j]].randomPos == i
    ensures RandomOk(m', random[i := random[j]][j := random[i]])
  {
    var random' := random[i := random[j]][j := random[i]];
    assert |m'| == |m.Keys|;
    forall k | 0 <= k < |random'| ensures random'[k] in m' && m'[random'[k]].randomPos == k {
      if k != i && k != j { assert random'[k] == random[k]; assert m[random[k]].randomPos == k; }
    }
  }

  lemma RewriteOk(m: map<Id, Info>, random: seq<Id>, id: Id, info: Info)
    requires RandomOk(m, random) && id in m && info.randomPos == m[id].randomPos
    ensures RandomOk(m[id := info], random)
  {
    assert m[id := info].Keys == m.Keys;
    assert |m[id := info]| == |m.Keys|;
  }

  lemma RewriteSame(m: map<Id, Info>, id: Id, info: Info)
    requires id in m && info.service == m[id].service
    requires info.refCount == m[id].refCount && info.inTried == m[id].inTried
    ensures SameTables(m, m[id := info])
  {
  }

  /** Rewriting the bookkeeping fields of one entry keeps everything. */
  lemma SetInfoInv(s: State, id: Id, info: Info)
    requires Sound(s) && id in s.infos
    requires info.service == s.infos[id].service && info.randomPos == s.infos[id].randomPos
    requires info.refCount == s.infos[id].refCount && info.inTried == s.infos[id].inTried
    ensures Sound(SetInfo(s, id, info)) && (Indexed(s) ==> Indexed(SetInfo(s, id, info)))
  {
    RewriteSame(s.infos, id, info);
    RewriteOk(s.infos, s.random, id, info);
    SameTablesKeep(s, SetInfo(s, id, info), {}, 0);
  }

  lemma SwapInv(s: State, limbo: set<Id>, u: int, i: int, j: int)
    requires InvL(s, limbo, u)
    requires 0 <= i < |s.random| && 0 <= j < |s.random|
    ensures CanSwap(s, i, j)
    ensures InvL(SwapRandom(s, i, j), limbo, u) && (Indexed(s) ==> Indexed(SwapRandom(s, i, j)))
  {
    if i != j {
      SwapEffect(s, i, j);
      SwapKept(s, i, j);
      SwapRandomOk(s.infos, SwapRandom(s, i, j).infos, s.random, i, j);
      SameTablesKeep(s, SwapRandom(s, i, j), limbo, u);
    }
  }

  lemma SwapEffect(s: State, i: int, j: int)
    requires RandomOk(s.infos, s.random)
    requires 0 <= i < |s.random| && 0 <= j < |s.random| && i != j
    ensures CanSwap(s, i, j)
    ensures SwapRandom(s, i, j).infos.Keys == s.infos.Keys
    ensures forall id | id in s.infos && id != s.random[i] && id != s.random[j] :: SwapRandom(s, i, j).infos[id] == s.infos[id]
    ensures SwapRandom(s, i, j).infos[s.random[i]] == s.infos[s.random[i]].(randomPos := j)
    ensures SwapRandom(s, i, j).infos[s.random[j]] == s.infos[s.random[j]].(randomPos := i)
  {
  }

  lemma SwapKept(s: State, i: int, j: int)
    requires RandomOk(s.infos, s.random)
    requires 0 <= i < |s.random| && 0 <= j < |s.random|
    ensures CanSwap(s, i, j)
    ensures forall id | id in s.infos :: Kept(s.infos, SwapRandom(s, i, j).infos, id)
    ensures SameTables(s.infos, SwapRandom(s, i, j).infos)
  {
    if i != j {
      SwapEffect(s, i, j);
      hide SwapRandom, RandomOk;
    }
  }

  // ------------------------------------------------------------------- Delete

  lemma RemoveLast(m: map<Id, Info>, random: seq<Id>, id: Id)
    requires RandomOk(m, random) && id in m && m[id].randomPos == |random| - 1
    ensures RandomOk(m - {id}, random[..|random| - 1])
  {
    assert (m - {id}).Keys == m.Keys - {id};
    assert |m - {id}| == |m.Keys - {id}|;
  }

  lemma RemoveId(m: map<Id, Info>, ids: map<NetAddr, Id>, id: Id)
    requires IdsOk(m, ids) && id in m
    ensures IdsOk(m - {id}, ids - {m[id].service.addr})
  {
  }

  lemma RemoveTables(h: Hasher, m: map<Id, Info>, newTable: map<Slot, Id>, triedTable: map<Slot, Id>,
                     limbo: set<Id>, id: Id)
    requires NewSlotsOk(h, m, newTable) && RefCountsOk(m, newTable, limbo) && TriedOk(h, m, triedTable)
    requires id in m && id in limbo
    ensures NewSlotsOk(h, m - {id}, newTable) && TriedOk(h, m - {id}, triedTable)
    ensures RefCountsOk(m - {id}, newTable, limbo - {id})
    ensures NewIds(m - {id}) == NewIds(m) - {id} && TriedIds(m - {id}) == TriedIds(m)
  {
    assert SlotsOf(newTable, id) == {};
    assert forall t | t in newTable :: newTable[t] == id ==> t in SlotsOf(newTable, id);
  }

  lemma ForgetInv(s: State, limbo: set<Id>, u: int, id: Id)
    requires InvL(s, limbo, u) && id in limbo && id in s.infos && s.infos[id].randomPos == |s.random| - 1
    ensures InvL(Forget(s, id), limbo - {id}, u) && (Indexed(s) ==> Indexed(Forget(s, id)))
  {
    hide RandomOk, IdsOk;
    RemoveLast(s.infos, s.random, id);
    if Indexed(s) { RemoveId(s.infos, s.ids, id); }
    RemoveTables(s.hasher, s.infos, s.newTable, s.triedTable, limbo, id);
    assert id in NewIds(s.infos);
  }

  lemma Position(s: State, limbo: set<Id>, u: int, id: Id)
    requires InvL(s, limbo, u) && id in s.infos
    ensures RandomOk(s.infos, s.random)
    ensures 0 <= s.infos[id].randomPos < |s.random| && s.random[s.infos[id].randomPos] == id
    ensures id in limbo ==> !s.infos[id].inTried && s.infos[id].refCount == 0
  {
  }

  lemma DeleteInv(s: State, limbo: set<Id>, u: int, id: Id)
    requires InvL(s, limbo, u) && id in limbo && id in s.infos
    ensures CanDelete(s, id)
    ensures InvL(Delete(s, id), limbo - {id}, u) && (Indexed(s) ==> Indexed(Delete(s, id)))
  {
    hide InvL, RandomOk, SwapRandom, Indexed;
    Position(s, limbo, u, id);
    var i, last := s.infos[id].randomPos, |s.random| - 1;
    SwapInv(s, limbo, u, i, last);
    SwapLast(s, i);
    ForgetInv(SwapRandom(s, i, last), limbo, u, id);
  }

  /** Delete removes the one entry and leaves the tables and the other entries alone. */
  lemma DeleteKept(s: State, id: Id)
    requires RandomOk(s.infos, s.random) && CanDelete(s, id)
    ensures var s1 := Delete(s, id);
      && s1.infos.Keys == s.infos.Keys - {id} && s1.hasher == s.hasher
      && s1.newTable == s.newTable && s1.triedTable == s.triedTable
      && forall k | k in s.infos && k != id :: Kept(s.infos, s1.infos, k)
  {
    hide RandomOk, SwapRandom;
    SwapLast(s, s.infos[id].randomPos);
    SwapKept(s, s.infos[id].randomPos, |s.random| - 1);
  }

  lemma SwapLast(s: State, i: int)
    requires RandomOk(s.infos, s.random) && 0 <= i < |s.random|
    ensures CanSwap(s, i, |s.random| - 1)
    ensures var s1 := SwapRandom(s, i, |s.random| - 1);
      && |s1.random| == |s.random| && s1.infos.Keys == s.infos.Keys && s1.hasher == s.hasher
      && s1.newTable == s.newTable && s1.triedTable == s.triedTable
    ensures s.random[i] in SwapRandom(s, i, |s.random| - 1).infos
    ensures SwapRandom(s, i, |s.random| - 1).infos[s.random[i]].randomPos == |s.random| - 1
  {
    if i != |s.random| - 1 { SwapEffect(s, i, |s.random| - 1); }
  }

  // ----------------------------------------------------- moves between tables

  /** Changing only the reference count of a non-tried entry. */
  lemma RecountOk(h: Hasher, m: map<Id, Info>, ids: map<NetAddr, Id>, tried: map<Slot, Id>, id: Id, n: int)
    requires TriedOk(h, m, tried) && id in m && !m[id].inTried
    ensures IdsOk(m, ids) ==> IdsOk(m[id := m[id].(refCount := n)], ids)
    ensures TriedOk(h, m[id := m[id].(refCount := n)], tried)
    ensures NewIds(m[id := m[id].(refCount := n)]) == NewIds(m)
    ensures TriedIds(m[id := m[id].(refCount := n)]) == TriedIds(m)
  {
  }

  lemma DropRefSlots(h: Hasher, m: map<Id, Info>, table: map<Slot, Id>, limbo: set<Id>, t: Slot)
    requires NewSlotsOk(h, m, table) && RefCountsOk(m, table, limbo) && t in table
    ensures table[t] in m
    ensures m[table[t]].refCount >= 1 && !m[table[t]].inTried && table[t] !in limbo
    ensures NewSlotsOk(h, m[table[t] := m[table[t]].(refCount := m[table[t]].refCount - 1)], table - {t})
  {
    assert t in SlotsOf(table, table[t]);
  }

  lemma DropRefCounts(m: map<Id, Info>, table: map<Slot, Id>, limbo: set<Id>, t: Slot, id: Id)
    requires RefCountsOk(m, table, limbo) && t in table && table[t] == id && id in m && id !in limbo && !m[id].inTried
    ensures RefCountsOk(m[id := m[id].(refCount := m[id].refCount - 1)], table - {t},
                        if m[id].refCount == 1 then limbo + {id} else limbo)
  {
    var m' := m[id := m[id].(refCount := m[id].refCount - 1)];
    forall k | k in m' ensures m'[k].refCount == |SlotsOf(table - {t}, k)| {
      assert SlotsOf(table - {t}, k) == SlotsOf(table, k) - {t};
      assert t in SlotsOf(table, id);
    }
  }

  lemma DropRefInv(s: State, limbo: set<Id>, u: int, t: Slot)
    requires InvL(s, limbo, u) && t in s.newTable
    ensures s.newTable[t] in s.infos && s.newTable[t] !in limbo && s.infos[s.newTable[t]].refCount >= 1
    ensures InvL(DropRef(s, t), if s.infos[s.newTable[t]].refCount == 1 then limbo + {s.newTable[t]} else limbo, u)
    ensures Indexed(s) ==> Indexed(DropRef(s, t))
  {
    hide IdsOk, NewSlotsOk, RefCountsOk, TriedOk, RandomOk, NewIds, TriedIds;
    var id := s.newTable[t];
    DropRefSlots(s.hasher, s.infos, s.newTable, limbo, t);
    DropRefCounts(s.infos, s.newTable, limbo, t, id);
    RecountOk(s.hasher, s.infos, s.ids, s.triedTable, id, s.infos[id].refCount - 1);
    RewriteOk(s.infos, s.random, id, s.infos[id].(refCount := s.infos[id].refCount - 1));
  }

  /** ClearNew empties its slot, and deletes no entry but the holder of the slot. */
  lemma ClearNewInv(s: State, limbo: set<Id>, u: int, t: Slot)
    requires InvL(s, limbo, u)
    ensures CanClear(s, t)
    ensures InvL(ClearNew(s, t), limbo, u) && (Indexed(s) ==> Indexed(ClearNew(s, t)))
    ensures t in s.newTable ==> s.newTable[t] in s.infos && s.newTable[t] !in limbo
    ensures var s1 := ClearNew(s, t);
      && s1.newTable == s.newTable - {t} && s1.triedTable == s.triedTable && s1.hasher == s.hasher
      && s1.infos.Keys <= s.infos.Keys
      && forall id | id in s.infos && !(t in s.newTable && s.newTable[t] == id) :: Kept(s.infos, s1.infos, id)
  {
    hide InvL, RandomOk, Delete, CanDelete, Indexed;
    if t in s.newTable {
      DropRefInv(s, limbo, u, t);
      var id := s.newTable[t];
      if s.infos[id].refCount == 1 {
        DeleteInv(DropRef(s, t), limbo + {id}, u, id);
        Position(DropRef(s, t), limbo + {id}, u, id);
        DeleteKept(DropRef(s, t), id);
        assert limbo + {id} - {id} == limbo;
        forall k | k in s.infos && k != id ensures Kept(s.infos, ClearNew(s, t).infos, k) {
          assert Kept(DropRef(s, t).infos, Delete(DropRef(s, t), id).infos, k);
        }
      }
    }
  }

  lemma PlaceNewSlots(h: Hasher, m: map<Id, Info>, table: map<Slot, Id>, t: Slot, id: Id, n: int)
    requires NewSlotsOk(h, m, table) && id in m && !m[id].inTried
    requires t.bucket < NEW_BUCKETS && t.pos == h.Position(true, t.bucket, m[id].service)
    ensures NewSlotsOk(h, m[id := m[id].(refCount := n)], table[t := id])
  {
  }

  lemma SlotsAdded(table: map<Slot, Id>, t: Slot, id: Id, k: Id)
    requires t !in table
    ensures |SlotsOf(table[t := id], k)| == |SlotsOf(table, k)| + if k == id then 1 else 0
  {
    assert SlotsOf(table[t := id], k) == SlotsOf(table, k) + if k == id then {t} else {};
  }

  lemma PlaceNewCounts(m: map<Id, Info>, table: map<Slot, Id>, limbo: set<Id>, t: Slot, id: Id)
    requires RefCountsOk(m, table, limbo) && t !in table && id in m && !m[id].inTried
    requires m[id].refCount < NEW_BUCKETS_PER_ADDRESS
    ensures RefCountsOk(m[id := m[id].(refCount := m[id].refCount + 1)], table[t := id], limbo - {id})
  {
    var m' := m[id := m[id].(refCount := m[id].refCount + 1)];
    hide SlotsOf;
    forall k | k in m' ensures m'[k].refCount == |SlotsOf(table[t := id], k)| {
      SlotsAdded(table, t, id, k);
    }
  }

  lemma PlaceNewInv(s: State, limbo: set<Id>, u: int, t: Slot, id: Id)
    requires InvL(s, limbo, u) && t !in s.newTable && id in s.infos && !s.infos[id].inTried
    requires t.bucket < NEW_BUCKETS && t.pos == s.hasher.Position(true, t.bucket, s.infos[id].service)
    requires s.infos[id].refCount < NEW_BUCKETS_PER_ADDRESS
    ensures InvL(PlaceNew(s, t, id), limbo - {id}, u) && (Indexed(s) ==> Indexed(PlaceNew(s, t, id)))
  {
    hide IdsOk, NewSlotsOk, RefCountsOk, TriedOk, RandomOk, NewIds, TriedIds;
    var n := s.infos[id].refCount + 1;
    PlaceNewSlots(s.hasher, s.infos, s.newTable, t, id, n);
    PlaceNewCounts(s.infos, s.newTable, limbo, t, id);
    RecountOk(s.hasher, s.infos, s.ids, s.triedTable, id, n);
    RewriteOk(s.infos, s.random, id, s.infos[id].(refCount := n));
  }

  lemma LeaveNewTable(h: Hasher, m: map<Id, Info>, table: map<Slot, Id>, limbo: set<Id>, id: Id)
    requires NewSlotsOk(h, m, table) && RefCountsOk(m, table, limbo) && id in m && !m[id].inTried
    ensures NewSlotsOk(h, m[id := m[id].(refCount := 0)], table - SlotsOf(table, id))
    ensures RefCountsOk(m[id := m[id].(refCount := 0)], table - SlotsOf(table, id), limbo + {id})
  {
    var m' := m[id := m[id].(refCount := 0)];
    forall k | k in m' ensures m'[k].refCount == |SlotsOf(table - SlotsOf(table, id), k)| {
      assert SlotsOf(table - SlotsOf(table, id), k) == if k == id then {} else SlotsOf(table, k);
    }
  }

  /** The slots of id in buckets below n. */
  ghost function SlotsBelow(table: map<Slot, Id>, id: Id, n: nat): set<Slot> {
    set t | t in table && table[t] == id && t.bucket < n
  }

  /** A bucket holds an id at its hashed position or not at all. */
  lemma NextBucket(h: Hasher, m: map<Id, Info>, table: map<Slot, Id>, id: Id, bucket: nat)
    requires NewSlotsOk(h, m, table) && id in m
    ensures var t := Slot(bucket, h.Position(true, bucket, m[id].service));
      && t !in SlotsBelow(table, id, bucket)
      && SlotsBelow(table, id, bucket + 1) ==
           SlotsBelow(table, id, bucket) + if t in table && table[t] == id then {t} else {}
  {
  }

  lemma WithoutSlot(table: map<Slot, Id>, below: set<Slot>, t: Slot, id: Id)
    requires t !in below
    ensures (t in table - below && (table - below)[t] == id) <==> (t in table && table[t] == id)
    ensures table - below - {t} == table - (below + {t}) && below + {} == below
    ensures |below + {t}| == |below| + 1
  {
  }

  lemma AllBuckets(h: Hasher, m: map<Id, Info>, table: map<Slot, Id>, id: Id)
    requires NewSlotsOk(h, m, table)
    ensures SlotsBelow(table, id, 0) == {}
    ensures SlotsBelow(table, id, NEW_BUCKETS) == SlotsOf(table, id)
  {
  }

  lemma LeaveNewInv(s: State, limbo: set<Id>, u: int, id: Id)
    requires InvL(s, limbo, u) && id in s.infos && !s.infos[id].inTried
    ensures LeaveNew(s, id).infos[id].refCount == 0
    ensures InvL(LeaveNew(s, id), limbo + {id}, u + 1) && (Indexed(s) ==> Indexed(LeaveNew(s, id)))
  {
    assert s.infos[id].refCount == |SlotsOf(s.newTable, id)|;
    hide IdsOk, NewSlotsOk, RefCountsOk, TriedOk, RandomOk, NewIds, TriedIds, SlotsOf;
    LeaveNewTable(s.hasher, s.infos, s.newTable, limbo, id);
    RecountOk(s.hasher, s.infos, s.ids, s.triedTable, id, 0);
    RewriteOk(s.infos, s.random, id, s.infos[id].(refCount := 0));
  }

  lemma LeaveTriedTable(h: Hasher, m: map<Id, Info>, table: map<Slot, Id>, t: Slot)
    requires TriedOk(h, m, table) && t in table
    ensures TriedOk(h, m[table[t] := m[table[t]].(inTried := false)], table - {t})
  {
  }

  lemma LeaveTriedRest(h: Hasher, m: map<Id, Info>, newTable: map<Slot, Id>, ids: map<NetAddr, Id>, limbo: set<Id>, id: Id)
    requires NewSlotsOk(h, m, newTable) && RefCountsOk(m, newTable, limbo)
    requires id in m && m[id].inTried && m[id].refCount == 0
    ensures var m' := m[id := m[id].(inTried := false)];
      && NewSlotsOk(h, m', newTable) && RefCountsOk(m', newTable, limbo + {id}) && (IdsOk(m, ids) ==> IdsOk(m', ids))
  {
  }

  lemma FlipCounts(m: map<Id, Info>, id: Id, b: bool)
    requires id in m && m[id].inTried != b
    ensures var m' := m[id := m[id].(inTried := b)];
      && |NewIds(m')| == |NewIds(m)| + (if b then -1 else 1)
      && |TriedIds(m')| == |TriedIds(m)| + (if b then 1 else -1)
  {
    var m' := m[id := m[id].(inTried := b)];
    if b {
      assert NewIds(m') == NewIds(m) - {id} && id in NewIds(m);
      assert TriedIds(m') == TriedIds(m) + {id};
    } else {
      assert NewIds(m') == NewIds(m) + {id};
      assert TriedIds(m') == TriedIds(m) - {id} && id in TriedIds(m);
    }
  }

  lemma TriedHolder(h: Hasher, m: map<Id, Info>, newTable: map<Slot, Id>, table: map<Slot, Id>, limbo: set<Id>, t: Slot)
    requires TriedOk(h, m, table) && RefCountsOk(m, newTable, limbo) && t in table
    ensures table[t] in m && m[table[t]].inTried && m[table[t]].refCount == 0 && table[t] !in limbo
  {
    hide SlotsOf;
  }

  lemma LeaveTriedInv(s: State, limbo: set<Id>, u: int, t: Slot)
    requires InvL(s, limbo, u) && t in s.triedTable
    ensures s.triedTable[t] in s.infos && s.triedTable[t] !in limbo
    ensures InvL(LeaveTried(s, t), limbo + {s.triedTable[t]}, u + 1) && (Indexed(s) ==> Indexed(LeaveTried(s, t)))
  {
    hide IdsOk, NewSlotsOk, RefCountsOk, TriedOk, RandomOk, NewIds, TriedIds;
    var e := s.triedTable[t];
    TriedHolder(s.hasher, s.infos, s.newTable, s.triedTable, limbo, t);
    LeaveTriedTable(s.hasher, s.infos, s.triedTable, t);
    LeaveTriedRest(s.hasher, s.infos, s.newTable, s.ids, limbo, e);
    FlipCounts(s.infos, e, false);
    RewriteOk(s.infos, s.random, e, s.infos[e].(inTried := false));
  }

  lemma EnterTriedTable(h: Hasher, m: map<Id, Info>, table: map<Slot, Id>, t: Slot, id: Id)
    requires TriedOk(h, m, table) && t !in table && id in m && !m[id].inTried && m[id].refCount == 0
    requires t == h.TriedSlot(m[id].service)
    ensures TriedOk(h, m[id := m[id].(inTried := true)], table[t := id])
  {
  }

  lemma EnterTriedRest(h: Hasher, m: map<Id, Info>, newTable: map<Slot, Id>, ids: map<NetAddr, Id>, limbo: set<Id>, id: Id)
    requires NewSlotsOk(h, m, newTable) && RefCountsOk(m, newTable, limbo)
    requires id in m && id in limbo
    ensures var m' := m[id := m[id].(inTried := true)];
      && NewSlotsOk(h, m', newTable) && RefCountsOk(m', newTable, limbo - {id}) && (IdsOk(m, ids) ==> IdsOk(m', ids))
  {
    hide SlotsOf;
    InLimbo(m, newTable, limbo, id);
  }

  lemma InLimbo(m: map<Id, Info>, table: map<Slot, Id>, limbo: set<Id>, id: Id)
    requires RefCountsOk(m, table, limbo) && id in m && id in limbo
    ensures !m[id].inTried && m[id].refCount == 0 && forall t | t in table :: table[t] != id
  {
    assert SlotsOf(table, id) == {};
    assert forall t | t in table && table[t] == id :: t in SlotsOf(table, id);
  }

  lemma EnterTriedInv(s: State, limbo: set<Id>, u: int, t: Slot, id: Id)
    requires InvL(s, limbo, u) && t !in s.triedTable && id in s.infos && id in limbo
    requires t == s.hasher.TriedSlot(s.infos[id].service)
    ensures InvL(EnterTried(s, t, id), limbo - {id}, u - 1) && (Indexed(s) ==> Indexed(EnterTried(s, t, id)))
  {
    hide IdsOk, NewSlotsOk, RefCountsOk, TriedOk, RandomOk, NewIds, TriedIds;
    InLimbo(s.infos, s.newTable, limbo, id);
    EnterTriedTable(s.hasher, s.infos, s.triedTable, t, id);
    EnterTriedRest(s.hasher, s.infos, s.newTable, s.ids, limbo, id);
    FlipCounts(s.infos, id, true);
    RewriteOk(s.infos, s.random, id, s.infos[id].(inTried := true));
  }

  // --------------------------------------------------------- MakeTried, Good_

  lemma ReenterInv(s: State, limbo: set<Id>, u: int, t: Slot, id: Id)
    requires InvL(s, limbo + {id}, u + 1) && id !in limbo && id in s.infos && t !in s.newTable
    requires t == s.hasher.NewSlot(s.infos[id].service, s.infos[id].source)
    ensures s.infos[id].refCount == 0
    ensures InvL(Reenter(s, t, id), limbo, u) && (Indexed(s) ==> Indexed(Reenter(s, t, id)))
  {
    hide InvL, IdsOk;
    Position(s, limbo + {id}, u + 1, id);
    PlaceNewInv(s, limbo + {id}, u + 1, t, id);
    assert limbo + {id} - {id} == limbo;
    AdjustCount(PlaceNew(s, t, id), limbo, u + 1, 1);
  }

  /** The evicted tried entry re-enters the "new" table; nothing in limbo is lost. */
  lemma EvictInv(s: State, limbo: set<Id>, u: int, t: Slot)
    requires InvL(s, limbo, u) && t in s.triedTable
    ensures CanEvict(s, t)
    ensures InvL(Evict(s, t), limbo, u) && (Indexed(s) ==> Indexed(Evict(s, t)))
    ensures Evict(s, t).hasher == s.hasher && Evict(s, t).triedTable == s.triedTable - {t}
    ensures forall id | id in s.infos && id in limbo :: Kept(s.infos, Evict(s, t).infos, id)
  {
    hide InvL, ClearNew, CanClear, Indexed;
    LeaveTriedInv(s, limbo, u, t);
    var e := s.triedTable[t];
    var s1 := LeaveTried(s, t);
    var n := s.hasher.NewSlot(s.infos[e].service, s.infos[e].source);
    ClearNewInv(s1, limbo + {e}, u + 1, n);
    var s2 := ClearNew(s1, n);
    assert Kept(s1.infos, s2.infos, e);
    ReenterInv(s2, limbo, u, n, e);
    forall id | id in s.infos && id in limbo ensures Kept(s.infos, Evict(s, t).infos, id) {
      assert Kept(s1.infos, s2.infos, id);
    }
  }

  lemma AdjustCount(s: State, limbo: set<Id>, u: int, d: int)
    requires InvL(s, limbo, u)
    ensures InvL(s.(newCount := s.newCount + d), limbo, u - d)
  {
  }

  /** Promotion keeps the invariant and trips none of the assertions of MakeTried. */
  lemma MakeTriedInv(s: State, id: Id)
    requires Sound(s) && id in s.infos && !s.infos[id].inTried
    ensures CanMakeTried(s, id)
    ensures Sound(MakeTried(s, id)) && (Indexed(s) ==> Indexed(MakeTried(s, id)))
  {
    hide InvL, Evict, CanEvict, Indexed;
    LeaveNewInv(s, {}, 0, id);
    assert {} + {id} == {id};
    var s1 := LeaveNew(s, id);
    var t := s.hasher.TriedSlot(s.infos[id].service);
    var s2 := s1;
    if t in s1.triedTable {
      EvictInv(s1, {id}, 1, t);
      s2 := Evict(s1, t);
      assert Kept(s1.infos, s2.infos, id);
    }
    EnterTriedInv(s2, {id}, 1, t, id);
    assert {id} - {id} == {};
  }

  /** Under the invariant a non-tried entry is in some bucket, at its hashed position. */
  lemma InSomeBucket(s: State, id: Id) returns (t: Slot)
    requires Sound(s) && id in s.infos && !s.infos[id].inTried
    ensures t in s.newTable && s.newTable[t] == id
    ensures t.bucket < NEW_BUCKETS && t.pos == s.hasher.Position(true, t.bucket, s.infos[id].service)
  {
    assert |SlotsOf(s.newTable, id)| >= 1;
    t :| t in SlotsOf(s.newTable, id);
  }

  /** No entry has the id that marks an empty slot. */
  lemma Real(s: State)
    requires Sound(s)
    ensures NO_ID !in s.infos && s.idCount >= 0
    ensures NewSlotsOk(s.hasher, s.infos, s.newTable)
    ensures forall t | t in s.triedTable :: s.triedTable[t] != NO_ID
  {
  }

  lemma LastGoodInv(s: State, time: int)
    requires Sound(s)
    ensures Sound(s.(lastGood := time)) && (Indexed(s) ==> Indexed(s.(lastGood := time)))
  {
  }

  lemma GoodInv(s: State, svc: Service, time: int)
    requires Sound(s)
    ensures CanGood(s, svc, time)
    ensures Sound(Good(s, svc, time)) && (Indexed(s) ==> Indexed(Good(s, svc, time)))
  {
    hide InvL, MakeTried, CanMakeTried, Indexed;
    LastGoodInv(s, time);
    var s0 := s.(lastGood := time);
    var id := Find(s, svc.addr);
    if id != NO_ID && s.infos[id].service == svc {
      SetInfoInv(s0, id, s0.infos[id].(lastSuccess := time, lastTry := time, attempts := 0));
      if !s.infos[id].inTried { MakeTriedInv(Promoted(s0, id, time), id); }
    }
  }

  // --------------------------------------------------------------------- Add_

  lemma NewEntryRandom(m: map<Id, Info>, random: seq<Id>, id: Id, info: Info)
    requires RandomOk(m, random) && id !in m && info.randomPos == |random|
    ensures RandomOk(m[id := info], random + [id])
  {
    assert m[id := info].Keys == m.Keys + {id};
    assert |m[id := info]| == |m.Keys + {id}|;
  }

  lemma NewEntryIds(m: map<Id, Info>, ids: map<NetAddr, Id>, n: int, info: Info)
    requires IdRange(m, n)
    ensures Id(n) !in m && IdRange(m[Id(n) := info], n + 1)
    ensures IdsOk(m, ids) && info.service.addr !in ids ==> IdsOk(m[Id(n) := info], ids[info.service.addr := Id(n)])
  {
  }

  lemma NewEntryTables(h: Hasher, m: map<Id, Info>, newTable: map<Slot, Id>, triedTable: map<Slot, Id>, id: Id, info: Info)
    requires NewSlotsOk(h, m, newTable) && TriedOk(h, m, triedTable)
    requires id !in m && !info.inTried
    ensures NewSlotsOk(h, m[id := info], newTable)
    ensures TriedOk(h, m[id := info], triedTable)
    ensures NewIds(m[id := info]) == NewIds(m) + {id} && TriedIds(m[id := info]) == TriedIds(m)
    ensures SlotsOf(newTable, id) == {}
  {
  }

  lemma NewEntryCounts(m: map<Id, Info>, newTable: map<Slot, Id>, id: Id, info: Info)
    requires RefCountsOk(m, newTable, {}) && SlotsOf(newTable, id) == {}
    requires id !in m && !info.inTried && info.refCount == 0
    ensures RefCountsOk(m[id := info], newTable, {id})
  {
    hide SlotsOf;
  }

  lemma CreatedInv(s: State, a: Address, source: NetAddr, penalty: int)
    requires Sound(s)
    ensures InvL(Created(s, a, source, penalty), {Id(s.idCount)}, 0)
    ensures Indexed(s) && a.service.addr !in s.ids ==> Indexed(Created(s, a, source, penalty))
  {
    hide IdRange, IdsOk, NewSlotsOk, RefCountsOk, TriedOk, RandomOk, NewIds, TriedIds;
    var s' := Created(s, a, source, penalty);
    var id := Id(s.idCount);
    var info := s'.infos[id];
    assert s'.infos == s.infos[id := info];
    NewEntryIds(s.infos, s.ids, s.idCount, info);
    NewEntryRandom(s.infos, s.random, id, info);
    NewEntryTables(s.hasher, s.infos, s.newTable, s.triedTable, id, info);
    NewEntryCounts(s.infos, s.newTable, id, info);
    FreshId(s.infos, id);
  }

  lemma FreshId(m: map<Id, Info>, id: Id)
    requires id !in m
    ensures |NewIds(m) + {id}| == |NewIds(m)| + 1
  {
  }

  /** Looking for a slot keeps the invariant, whether entry id is new (then in limbo) or known. */
  lemma SettleInv(s: State, limbo: set<Id>, id: Id, source: NetAddr, now: int)
    requires InvL(s, limbo, 0) && id in s.infos && !s.infos[id].inTried && limbo <= {id}
    requires 0 <= s.infos[id].refCount < NEW_BUCKETS_PER_ADDRESS
    requires s.infos[id].refCount == 0 ==> limbo == {id}
    requires s.infos[id].refCount > 0 ==> limbo == {}
    ensures CanSettle(s, id, source, now)
    ensures Sound(Settle(s, id, source, now)) && (Indexed(s) ==> Indexed(Settle(s, id, source, now)))
  {
    hide InvL, ClearNew, CanClear, Delete, CanDelete, Indexed;
    var t := s.hasher.NewSlot(s.infos[id].service, source);
    ClearNewInv(s, limbo, 0, t);
    if t in s.newTable && s.newTable[t] == id {
      assert limbo == {};
    } else if MayTake(s, t, id, now) {
      var s1 := ClearNew(s, t);
      assert Kept(s.infos, s1.infos, id);
      PlaceNewInv(s1, limbo, 0, t, id);
      assert limbo - {id} == {};
    } else if s.infos[id].refCount == 0 {
      DeleteInv(s, limbo, 0, id);
      assert limbo - {id} == {};
    }
  }

  lemma Entry(s: State, id: Id)
    requires Sound(s) && id in s.infos
    ensures !s.infos[id].inTried ==> 1 <= s.infos[id].refCount <= NEW_BUCKETS_PER_ADDRESS
    ensures id.n < s.idCount
  {
  }

  lemma Unknown(s: State, a: NetAddr)
    requires Inv(s) && Find(s, a) == NO_ID
    ensures a !in s.ids
  {
  }

  /** Add_ keeps the invariant and trips no assertion, whatever the clock and the draw say. */
  lemma AddInv(s: State, a: Address, routable: bool, source: NetAddr, penalty: int, now: int, rnd: nat)
    requires Sound(s)
    ensures CanAdd(s, a, routable, source, penalty, now, rnd)
    ensures Sound(Add(s, a, routable, source, penalty, now, rnd))
    ensures Indexed(s) ==> Indexed(Add(s, a, routable, source, penalty, now, rnd))
  {
    hide InvL, Settle, CanSettle, Indexed;
    var id := Find(s, a.service.addr);
    var p := Penalty(a, source, penalty);
    if id != NO_ID {
      var info := Refreshed(s.infos[id], a, p, now);
      SetInfoInv(s, id, info);
      var s1 := SetInfo(s, id, info);
      Entry(s1, id);
      if WantsSlot(info, a, rnd) { SettleInv(s1, {}, id, source, now); }
    } else {
      if Indexed(s) { Unknown(s, a.service.addr); }
      CreatedInv(s, a, source, p);
      SettleInv(Created(s, a, source, p), {Id(s.idCount)}, Id(s.idCount), source, now);
    }
  }

  // ---------------------------------------------------------------- all runs

  lemma AttemptInv(s: State, svc: Service, countFailure: bool, time: int)
    requires Sound(s)
    ensures Sound(Attempt(s, svc, countFailure, time)) && (Indexed(s) ==> Indexed(Attempt(s, svc, countFailure, time)))
  {
    hide InvL, Indexed;
    var id := Find(s, svc.addr);
    if id != NO_ID && s.infos[id].service == svc {
      SetInfoInv(s, id, Attempt(s, svc, countFailure, time).infos[id]);
    }
  }

  lemma ConnectedInv(s: State, svc: Service, time: int)
    requires Sound(s)
    ensures Sound(Connected(s, svc, time)) && (Indexed(s) ==> Indexed(Connected(s, svc, time)))
  {
    hide InvL, Indexed;
    var id := Find(s, svc.addr);
    if id != NO_ID && s.infos[id].service == svc {
      SetInfoInv(s, id, s.infos[id].(time := U32(time)));
    }
  }

  lemma SetServicesInv(s: State, svc: Service, services: bv64)
    requires Sound(s)
    ensures Sound(SetServices(s, svc, services)) && (Indexed(s) ==> Indexed(SetServices(s, svc, services)))
  {
    hide InvL, Indexed;
    var id := Find(s, svc.addr);
    if id != NO_ID && s.infos[id].service == svc {
      SetInfoInv(s, id, s.infos[id].(services := services));
    }
  }

  lemma AtPosition(s: State, n: int)
    requires Sound(s) && 0 <= n < |s.random|
    ensures s.random[n] in s.infos
  {
  }

  lemma {:induction false} GetAddrInv(s: State, n: nat, limit: int, draw: nat -> nat, out: seq<Address>, now: int)
    requires Sound(s)
    ensures CanGetAddr(s, n, limit, draw, out, now)
    ensures Sound(GetAddr(s, n, limit, draw, out, now).0)
    ensures Indexed(s) ==> Indexed(GetAddr(s, n, limit, draw, out, now).0)
    decreases |s.random| - n
  {
    hide InvL, Pick, SwapRandom, Indexed;
    if n < |s.random| && |out| < limit {
      var j := Pick(draw, n, |s.random|);
      SwapInv(s, {}, 0, n, j);
      var s1 := SwapRandom(s, n, j);
      AtPosition(s1, n);
      var info := s1.infos[s1.random[n]];
      GetAddrInv(s1, n + 1, limit, draw, if info.IsTerrible(now) then out else out + [info.ToAddress()], now);
    }
  }

  /** One call on an address manager, with its random draws and clock reading. */
  datatype Op =
    | OpAdd(a: Address, routable: bool, source: NetAddr, penalty: int, now: int, rnd: nat)
    | OpGood(svc: Service, time: int)
    | OpAttempt(svc: Service, countFailure: bool, time: int)
    | OpConnected(svc: Service, time: int)
    | OpSetServices(svc: Service, services: bv64)
    | OpGetAddr(draw: nat -> nat, now: int)

  /** Whether the call runs without tripping an assertion. */
  ghost predicate Runs(s: State, op: Op) {
    match op
    case OpAdd(a, routable, source, penalty, now, rnd) => CanAdd(s, a, routable, source, penalty, now, rnd)
    case OpGood(svc, time) => CanGood(s, svc, time)
    case OpGetAddr(draw, now) => CanGetAddr(s, 0, GetAddrLimit(|s.random|), draw, [], now)
    case _ => true
  }

  ghost function Step(s: State, op: Op): State
    requires Runs(s, op)
  {
    match op
    case OpAdd(a, routable, source, penalty, now, rnd) => Add(s, a, routable, source, penalty, now, rnd)
    case OpGood(svc, time) => Good(s, svc, time)
    case OpAttempt(svc, countFailure, time) => Attempt(s, svc, countFailure, time)
    case OpConnected(svc, time) => Connected(s, svc, time)
    case OpSetServices(svc, services) => SetServices(s, svc, services)
    case OpGetAddr(draw, now) => GetAddr(s, 0, GetAddrLimit(|s.random|), draw, [], now).0
  }

  /** The addresses GetAddr_ returns. */
  ghost function Sampled(s: State, draw: nat -> nat, now: int): seq<Address>
    requires Runs(s, OpGetAddr(draw, now))
  {
    GetAddr(s, 0, GetAddrLimit(|s.random|), draw, [], now).1
  }

  lemma StepInv(s: State, op: Op)
    requires Sound(s)
    ensures Runs(s, op)
    ensures Sound(Step(s, op)) && (Indexed(s) ==> Indexed(Step(s, op)))
  {
    hide InvL, Indexed;
    match op
    case OpAdd(a, routable, source, penalty, now, rnd) => AddInv(s, a, routable, source, penalty, now, rnd);
    case OpGood(svc, time) => GoodInv(s, svc, time);
    case OpAttempt(svc, countFailure, time) => AttemptInv(s, svc, countFailure, time);
    case OpConnected(svc, time) => ConnectedInv(s, svc, time);
    case OpSetServices(svc, services) => SetServicesInv(s, svc, services);
    case OpGetAddr(draw, now) => GetAddrInv(s, 0, GetAddrLimit(|s.random|), draw, [], now);
  }

  /** The states of a run of ops from s, if none of them trips an assertion. */
  ghost predicate IsRun(s: State, ops: seq<Op>, states: seq<State>) {
    && |states| == |ops| + 1 && states[0] == s
    && forall k | 0 <= k < |ops| :: Runs(states[k], ops[k]) && states[k + 1] == Step(states[k], ops[k])
  }

  lemma EmptyInv(h: Hasher)
    ensures Inv(Empty(h))
  {
  }

  /** Every run from a sound address manager goes through, and every state of it is sound; if the
      index of addresses is exact in the beginning, it stays so. */
  lemma {:induction false} RunFrom(s: State, ops: seq<Op>) returns (states: seq<State>)
    requires Sound(s)
    ensures IsRun(s, ops, states)
    ensures forall k | 0 <= k < |states| :: Sound(states[k]) && (Indexed(s) ==> Indexed(states[k]))
  {
    hide Sound, Indexed, Runs, Step;
    if ops == [] {
      states := [s];
    } else {
      var init := RunFrom(s, ops[..|ops| - 1]);
      var last, op := init[|ops| - 1], ops[|ops| - 1];
      StepInv(last, op);
      states := init + [Step(last, op)];
    }
  }

  /** Every run from a new address manager goes through, and every state of it is consistent. */
  lemma EveryRun(h: Hasher, ops: seq<Op>) returns (states: seq<State>)
    ensures IsRun(Empty(h), ops, states)
    ensures forall k | 0 <= k < |states| :: Inv(states[k])
  {
    hide Sound, Indexed, IsRun;
    EmptyInv(h);
    states := RunFrom(Empty(h), ops);
  }
}
