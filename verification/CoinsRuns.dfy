/** Every session on a stack of coin caches behaves like the same session on plain maps. */
module CoinsRuns {
  import opened CoinsSpec
  import opened CoinsCache
  import opened Streams

  datatype Op =
    | Get(t: Txid)
    | Have(t: Txid)
    | Edit(t: Txid, coins: Coins)
    | Create(t: Txid, coins: Coins, coinbase: bool)
    | Forget(t: Txid)
    | GetBest
    | SetBest(h: BlockHash)
    | Commit

  /** A step of a session: an operation, or a session in a scratch cache on top, which is flushed or
      dropped in the end. */
  datatype Step = Do(op: Op) | Scratch(steps: seq<Step>, keep: bool)

  /** The map a cache shows, the one below it, and the best blocks that it and all views below hold. */
  datatype Maps = Maps(view: CoinsMap, below: CoinsMap, hashes: seq<BlockHash>)

  /** A new cache on top shows the same and holds no best block. */
  function OnTop(s: Maps): Maps { Maps(s.view, s.view, [NullHash] + s.hashes) }

  /** The effect of an operation on plain maps. */
  function Apply(s: Maps, op: Op): Maps {
    match op
    case Edit(t, c) => s.(view := Put(s.view, t, Cleanup(c)))
    case Create(t, c, _) => s.(view := Put(s.view, t, Cleanup(c)))
    case GetBest => s.(hashes := Learnt(s.hashes))
    case SetBest(h) => s.(hashes := [h] + Lower(s.hashes))
    case Commit => s.(below := s.view, hashes := HandedDown(s.hashes))
    case _ => s
  }

  function Take(s: Maps, step: Step): Maps
    decreases step
  {
    match step
    case Do(op) => Apply(s, op)
    case Scratch(steps, keep) =>
      var inner := Replay(OnTop(s), steps);
      if keep then s.(view := inner.view, hashes := Lower(HandedDown(inner.hashes)))
      else s.(view := inner.below, hashes := Lower(inner.hashes))
  }

  function Replay(s: Maps, steps: seq<Step>): Maps
    decreases steps
  {
    if steps == [] then s else Replay(Take(s, steps[0]), steps[1..])
  }

  /** BIP 30, at every level: a transaction that is not a coinbase is created only when it has no
      unspent outputs. */
  ghost predicate Bip30(s: Maps, steps: seq<Step>)
    decreases steps
  {
    steps != [] ==>
      && match steps[0] {
           case Do(op) => op.Create? && !op.coinbase ==> op.t !in s.view
           case Scratch(inner, _) => Bip30(OnTop(s), inner)
         }
      && Bip30(Take(s, steps[0]), steps[1..])
  }

  datatype Answer = Nothing | Held(r: Option<Coins>) | Flag(b: bool) | Best(h: BlockHash) | Inner(answers: seq<Answer>)

  /** The answer to every read, at every level, agrees with the plain map at that moment. */
  ghost predicate Agrees(s: Maps, steps: seq<Step>, answers: seq<Answer>)
    decreases steps
  {
    && |answers| == |steps|
    && (steps != [] ==>
          && match steps[0] {
               case Do(op) => Answers(s, op, answers[0])
               case Scratch(inner, _) => answers[0].Inner? && Agrees(OnTop(s), inner, answers[0].answers)
             }
          && Agrees(Take(s, steps[0]), steps[1..], answers[1..]))
  }

  ghost predicate Answers(s: Maps, op: Op, a: Answer) {
    match op
    case Get(t) => a.Held? && Reads(a.r, s.view, t)
    case Have(t) => a.Flag? && (a.b <==> t in s.view)
    case GetBest => a.Best? && a.h == FirstSet(s.hashes)
    case _ => true
  }

  lemma PutTwice(m: CoinsMap, t: Txid, c: Coins)
    ensures Put(Put(m, t, c), t, Cleanup(c)) == Put(m, t, Cleanup(c))
    ensures Put(Put(m - {t}, t, c), t, Cleanup(c)) == Put(m, t, Cleanup(c))
  {
    CleanupKeepsPruned(c);
  }

  /** With no unspent outputs in the view, ModifyNewCoins neither throws nor lies. */
  lemma Bip30Allows(cache: EntryMap, below: CoinsMap, t: Txid)
    requires Coherent(cache, below)
    ensures t !in Overlay(cache, below) ==>
      (t in cache ==> cache[t].coins.IsPruned()) && ((t in cache && cache[t].isDirty) || t !in below)
  {
    if t in cache { assert EntryOk(cache[t], t, below); }
  }

  ghost function MapsOf(v: CoinsCache): Maps
    requires v.Linked()
    reads v.Repr
  {
    Maps(v.View(), v.Below(), v.Hashes())
  }

  method Perform(v: CoinsCache, op: Op) returns (answer: Answer)
    requires v.Valid() && v.modifier.None?
    requires op.Create? && !op.coinbase ==> op.t !in v.View()
    modifies v.Repr
    ensures v.Valid() && v.modifier.None?
    ensures MapsOf(v) == Apply(old(MapsOf(v)), op) && v.Deeper() == old(v.Deeper())
    ensures Answers(old(MapsOf(v)), op, answer)
  {
    hide Overlay, Coherent, Put, Cleanup, Unpruned, Reads, TidyBut, Learnt, FirstSet, HandedDown;
    answer := Nothing;
    match op {
      case Get(t) =>
        var r := v.GetCoins(t);
        answer := Held(r);
      case Have(t) =>
        var b := v.HaveCoins(t);
        answer := Flag(b);
      case Edit(t, c) =>
        PutTwice(v.View(), t, c);
        v.ModifyCoins(t);
        v.Assign(c);
        var _ := v.Release();
      case Create(t, c, coinbase) =>
        PutTwice(v.View(), t, c);
        Bip30Allows(v.cacheCoins, v.Below(), t);
        var _ := v.ModifyNewCoins(t, coinbase);
        v.Assign(c);
        var _ := v.Release();
      case Forget(t) => v.Uncache(t);
      case GetBest =>
        v.BestIs();
        var h := v.GetBestBlock();
        answer := Best(h);
      case SetBest(h) => v.SetBestBlock(h);
      case Commit => var _ := v.Flush();
    }
  }

  /** A whole session on the top of a stack of any depth, with scratch caches nested to any depth. */
  method Run(v: CoinsCache, steps: seq<Step>) returns (answers: seq<Answer>)
    requires v.Valid() && v.modifier.None? && Bip30(MapsOf(v), steps)
    modifies v.Repr
    ensures v.Valid() && v.modifier.None?
    ensures MapsOf(v) == Replay(old(MapsOf(v)), steps) && v.Deeper() == old(v.Deeper())
    ensures Agrees(old(MapsOf(v)), steps, answers)
    decreases steps, 0
  {
    hide CoinsCache.Valid, CoinsCache.View, CoinsCache.Below, Apply, Answers;
    if steps == [] { return []; }
    var first;
    match steps[0] {
      case Do(op) => first := Perform(v, op);
      case Scratch(inner, keep) =>
        var a := RunScratch(v, inner, keep);
        first := Inner(a);
    }
    var rest := Run(v, steps[1..]);
    answers := [first] + rest;
    assert answers[1..] == rest;
  }

  /** A session in a scratch cache: flushing it in the end applies all of it to the cache below, and
      dropping it leaves what was flushed before. */
  method RunScratch(v: CoinsCache, steps: seq<Step>, keep: bool) returns (answers: seq<Answer>)
    requires v.Valid() && v.modifier.None? && Bip30(OnTop(MapsOf(v)), steps)
    modifies v.Repr
    ensures v.Valid() && v.modifier.None?
    ensures MapsOf(v) == Take(old(MapsOf(v)), Scratch(steps, keep)) && v.Deeper() == old(v.Deeper())
    ensures Agrees(OnTop(old(MapsOf(v))), steps, answers)
    decreases steps, 1
  {
    hide Overlay, Coherent, Bip30, Agrees, Replay, HandedDown;
    var top := new CoinsCache(OnCache(v));
    answers := Run(top, steps);
    if keep { var _ := top.Flush(); }
    assert top.Deeper()[1..] == v.Deeper();
    assert top.Hashes()[1..] == v.Hashes();
  }
}
