/** The commitment of merged mining (src/auxpow.cpp): what CAuxPow::check accepts. */
module AuxPow {
  import opened Powers
  import opened Counting
  import opened Streams

  type Hash = h: Bytes | |h| == 32 witness seq(32, i => 0)

  const HEADER: Bytes := [0xfa, 0xbe, 0x6d, 0x6d]

  // --------------------------------------------------------------- Merkle branch

  /** What is hashed at one level of a branch. */
  function Input(h: Hash, sibling: Hash, index: int): Bytes { if index % 2 == 1 then sibling + h else h + sibling }

  function Root(H: Bytes -> Hash, h: Hash, branch: seq<Hash>, index: int): Hash
    decreases |branch|
  {
    if branch == [] then h else Root(H, H(Input(h, branch[0], index)), branch[1..], index / 2)
  }

  ghost function Inputs(H: Bytes -> Hash, h: Hash, branch: seq<Hash>, index: int): set<Bytes>
    decreases |branch|
  {
    if branch == [] then {}
    else {Input(h, branch[0], index)} + Inputs(H, H(Input(h, branch[0], index)), branch[1..], index / 2)
  }

  /** No two of the strings hashed collide. */
  ghost predicate NoCollision(H: Bytes -> Hash, s: set<Bytes>) {
    forall x, y | x in s && y in s :: H(x) == H(y) ==> x == y
  }

  /** Branches of one length at one index are determined by their root. */
  lemma {:induction false} BranchOnce(H: Bytes -> Hash, h: Hash, b: seq<Hash>, h': Hash, b': seq<Hash>, index: int)
    requires |b| == |b'| && Root(H, h, b, index) == Root(H, h', b', index)
    requires NoCollision(H, Inputs(H, h, b, index) + Inputs(H, h', b', index))
    ensures h == h' && b == b'
    decreases |b|
  {
    if b != [] {
      var x, x' := Input(h, b[0], index), Input(h', b'[0], index);
      BranchOnce(H, H(x), b[1..], H(x'), b'[1..], index / 2);
      assert x == x';
      assert x[..32] == x'[..32] && x[32..] == x'[32..];
      assert b == [b[0]] + b[1..] && b' == [b'[0]] + b'[1..];
    }
  }

  /** CheckMerkleBranch; index -1 stands for no branch. */
  method CheckMerkleBranch(H: Bytes -> Hash, hash: Hash, branch: seq<Hash>, index: int) returns (r: Hash)
    ensures r == if index == -1 then seq(32, i => 0) else Root(H, hash, branch, index)
  {
    if index == -1 { return seq(32, i => 0); }
    r := hash;
    var n := index;
    for k := 0 to |branch|
      invariant Root(H, r, branch[k..], n) == Root(H, hash, branch, index)
    {
      assert branch[k..][1..] == branch[k + 1..];
      r := if n % 2 == 1 then H(branch[k] + r) else H(r + branch[k]);
      n := n / 2;
    }
  }

  // -------------------------------------------------------------- expected index

  /** The slot of a chain, in 32-bit arithmetic. */
  function GetExpectedIndex(nonce: nat, chainId: int, h: nat): nat {
    var m := 0x1_0000_0000;
    var r1 := (nonce * 1103515245 + 12345) % m;
    var r2 := (r1 + chainId) % m;
    (r2 * 1103515245 + 12345) % m % Pow2(h)
  }

  /** Without a limit on the width, the slot is the same. */
  lemma WidthDoesNotMatter(nonce: nat, chainId: int, h: nat)
    requires h <= 32
    ensures GetExpectedIndex(nonce, chainId, h) == ((nonce * 1103515245 + 12345 + chainId) * 1103515245 + 12345) % Pow2(h)
  {
    TwoTo32();
    Pow2Add(32 - h, h);
    hide Pow2;
    Reduced(nonce * 1103515245 + 12345, chainId, Pow2(32 - h), Pow2(h));
  }

  /** Reducing to 32 bits on the way does not change the low bits. */
  lemma Reduced(x: nat, id: int, c: nat, p: nat)
    requires c > 0 && p > 0 && c * p == 0x1_0000_0000
    ensures var m := 0x1_0000_0000;
            ((x % m + id) % m * 1103515245 + 12345) % m % p == ((x + id) * 1103515245 + 12345) % p
  {
    var m := 0x1_0000_0000;
    var r := (x % m + id) % m;
    var q := SumRemainder(x, id, m);
    Truncate(r * 1103515245 + 12345, c, p);
    var k := q * 1103515245;
    assert (x + id) * 1103515245 + 12345 == r * 1103515245 + 12345 + m * k;
    assert m * k == p * (c * k) by { MulAssoc(p, c, k); }
    ModShift(r * 1103515245 + 12345, p, c * k);
  }

  lemma SumRemainder(x: int, y: int, m: nat) returns (q: int)
    requires m > 0
    ensures x + y == m * q + (x % m + y) % m
  {
    q := x / m + (x % m + y) / m;
    MulDistrib(x / m, (x % m + y) / m, m);
  }

  /** Keeping more low bits first does not change the low bits. */
  lemma Truncate(x: int, c: nat, p: nat)
    requires c > 0 && p > 0
    ensures c * p > 0 && x % (c * p) % p == x % p
  {
    var m := c * p;
    var k := x / m;
    assert x == x % m + m * k;
    MulAssoc(p, c, k);
    ModShift(x % m, p, c * k);
  }

  // ---------------------------------------------------------------------- search

  predicate At(s: Bytes, p: Bytes, i: nat) { i + |p| <= |s| && s[i..i + |p|] == p }

  /** std::search: the first place from `from` on where p occurs in s; the end if there is none. */
  method Search(s: Bytes, p: Bytes, from: nat) returns (r: nat)
    requires from <= |s| && p != []
    ensures from <= r <= |s| && (r < |s| <==> At(s, p, r)) && forall i: nat | from <= i && At(s, p, i) :: r <= i < |s|
  {
    r := from;
    while r < |s| && !At(s, p, r)
      invariant from <= r <= |s| && forall i: nat | from <= i < r :: !At(s, p, i)
    {
      r := r + 1;
    }
  }

  function Le32(s: Bytes, i: nat): nat
    requires i + 4 <= |s|
  {
    s[i] as nat + 0x100 * s[i + 1] as nat + 0x1_0000 * s[i + 2] as nat + 0x100_0000 * s[i + 3] as nat
  }

  function Reversed(s: Bytes): (r: Bytes)
    ensures |r| == |s| && forall i | 0 <= i < |s| :: r[i] == s[|s| - 1 - i]
  {
    seq(|s|, i requires 0 <= i < |s| => s[|s| - 1 - i])
  }

  lemma ReversedOnce(s: Bytes, t: Bytes)
    requires Reversed(s) == Reversed(t)
    ensures s == t
  {
    assert |s| == |t|;
    forall i | 0 <= i < |s| ensures s[i] == t[i] { assert Reversed(s)[|s| - 1 - i] == Reversed(t)[|s| - 1 - i]; }
  }

  // ----------------------------------------------------------------------- check

  /** A proof of work of a parent chain: its coinbase transaction by hash and input scripts, the
      branch of the coinbase in the parent block, and the branch of the aux chain. */
  datatype Proof = Proof(nIndex: int, txHash: Hash, inputs: seq<Bytes>, branch: seq<Hash>,
                         parentRoot: Hash, parentChainId: int, chainBranch: seq<Hash>, chainIndex: int)

  ghost predicate Occurs(s: Bytes, p: Bytes) { exists i: nat :: At(s, p, i) }

  /** The chain root starts at pc, followed by the size of the tree and the nonce that select the
      index; before it stands the only header, or else it starts early. */
  ghost predicate Committed(script: Bytes, root: Hash, pc: nat, height: nat, index: int, chainId: int) {
    && At(script, Reversed(root), pc) && (forall i: nat | At(script, Reversed(root), i) :: pc <= i)
    && (if Occurs(script, HEADER) then forall i: nat | At(script, HEADER, i) :: i + 4 == pc else pc <= 20)
    && pc + 40 <= |script| && Le32(script, pc + 32) == Pow2(height)
    && index == GetExpectedIndex(Le32(script, pc + 36), chainId, height)
  }

  ghost predicate Accepts(H: Bytes -> Hash, a: Proof, hash: Hash, chainId: int, strict: bool, pc: nat) {
    && a.nIndex == 0 && !(strict && a.parentChainId == chainId) && |a.chainBranch| <= 30
    && Root(H, a.txHash, a.branch, 0) == a.parentRoot && a.inputs != []
    && Committed(a.inputs[0], Root(H, hash, a.chainBranch, a.chainIndex), pc, |a.chainBranch|, a.chainIndex, chainId)
  }

  method Check(H: Bytes -> Hash, a: Proof, hash: Hash, chainId: int, strict: bool) returns (ok: bool)
    ensures ok <==> exists pc: nat :: Accepts(H, a, hash, chainId, strict, pc)
  {
    hide Root, GetExpectedIndex, Le32, At;
    if a.nIndex != 0 { return false; }
    if strict && a.parentChainId == chainId { return false; }
    if |a.chainBranch| > 30 { return false; }
    var rootHash := CheckMerkleBranch(H, hash, a.chainBranch, a.chainIndex);
    var root := Reversed(rootHash);
    var parent := CheckMerkleBranch(H, a.txHash, a.branch, a.nIndex);
    if parent != a.parentRoot { return false; }
    if a.inputs == [] { return false; }
    ok := CheckScript(a.inputs[0], rootHash, |a.chainBranch|, a.chainIndex, chainId);
    if ok {
      ghost var pc: nat :| Committed(a.inputs[0], rootHash, pc, |a.chainBranch|, a.chainIndex, chainId);
      assert Accepts(H, a, hash, chainId, strict, pc);
    } else {
      forall pc: nat ensures !Accepts(H, a, hash, chainId, strict, pc) {
        assert !Committed(a.inputs[0], rootHash, pc, |a.chainBranch|, a.chainIndex, chainId);
      }
    }
  }

  method CheckScript(script: Bytes, rootHash: Hash, height: nat, index: int, chainId: int) returns (ok: bool)
    ensures ok <==> exists pc: nat :: Committed(script, rootHash, pc, height, index, chainId)
    ensures ok ==> index >= 0
  {
    hide GetExpectedIndex, Le32, At, Pow2;
    var root := Reversed(rootHash);
    var pcHead := Search(script, HEADER, 0);
    var pc := Search(script, root, 0);
    if pc == |script| { return false; }
    if pcHead != |script| {
      var again := Search(script, HEADER, pcHead + 1);
      if again != |script| { return false; }
      if pcHead + 4 != pc { return false; }
    } else {
      if pc > 20 { return false; }
    }
    Inside(script, root, pc);
    if |script| - (pc + 32) < 8 { return false; }
    if Le32(script, pc + 32) != Pow2(height) { return false; }
    if index != GetExpectedIndex(Le32(script, pc + 36), chainId, height) { return false; }
    assert Committed(script, rootHash, pc, height, index, chainId);
    ok := true;
  }

  lemma Inside(s: Bytes, p: Bytes, i: nat)
    requires At(s, p, i)
    ensures i + |p| <= |s|
  {
  }

  // ------------------------------------------------------------------ uniqueness

  /** A coinbase script and the place of the root in it determine the aux block of a chain. */
  lemma OncePerPlace(H: Bytes -> Hash, a: Proof, h: Hash, strict: bool, a': Proof, h': Hash, strict': bool, chainId: int, pc: nat)
    requires Accepts(H, a, h, chainId, strict, pc) && Accepts(H, a', h', chainId, strict', pc) && a.inputs[0] == a'.inputs[0]
    requires NoCollision(H, Inputs(H, h, a.chainBranch, a.chainIndex) + Inputs(H, h', a'.chainBranch, a'.chainIndex))
    ensures h == h' && a.chainBranch == a'.chainBranch && a.chainIndex == a'.chainIndex
  {
    var n, n' := |a.chainBranch|, |a'.chainBranch|;
    if n < n' { Steeper(n, n'); } else if n' < n { Steeper(n', n); }
    ReversedOnce(Root(H, h, a.chainBranch, a.chainIndex), Root(H, h', a'.chainBranch, a'.chainIndex));
    BranchOnce(H, h, a.chainBranch, h', a'.chainBranch, a.chainIndex);
  }

  lemma Steeper(m: nat, n: nat)
    requires m < n
    ensures Pow2(m) < Pow2(n)
  {
    Pow2Mono(m, n - 1);
  }

  /** A script with the merged-mining header can be used for one aux block of a chain only. */
  lemma AtMostOneAuxBlock(H: Bytes -> Hash, a: Proof, h: Hash, strict: bool, pc: nat, a': Proof, h': Hash, strict': bool, pc': nat, chainId: int)
    requires Accepts(H, a, h, chainId, strict, pc) && Accepts(H, a', h', chainId, strict', pc') && a.inputs[0] == a'.inputs[0]
    requires NoCollision(H, Inputs(H, h, a.chainBranch, a.chainIndex) + Inputs(H, h', a'.chainBranch, a'.chainIndex))
    requires Occurs(a.inputs[0], HEADER)
    ensures h == h' && a.chainBranch == a'.chainBranch && a.chainIndex == a'.chainIndex
  {
    hide Root, At, GetExpectedIndex, Le32;
    var i: nat :| At(a.inputs[0], HEADER, i);
    OncePerPlace(H, a, h, strict, a', h', strict', chainId, pc);
  }

  /** One use of a script: an aux block, its proof, and the place where the proof is found. */
  datatype Use = Use(proof: Proof, block: Hash, strict: bool, place: nat)

  ghost predicate Valid(H: Bytes -> Hash, u: Use, script: Bytes, chainId: int) {
    Accepts(H, u.proof, u.block, chainId, u.strict, u.place) && u.proof.inputs[0] == script
  }

  ghost function Hashed(H: Bytes -> Hash, u: Use): set<Bytes> { Inputs(H, u.block, u.proof.chainBranch, u.proof.chainIndex) }

  /** Without the header a script can be used for at most 21 aux blocks of a chain. */
  lemma LegacyAtMost21(H: Bytes -> Hash, uses: seq<Use>, script: Bytes, chainId: int)
    requires !Occurs(script, HEADER) && forall i | 0 <= i < |uses| :: Valid(H, uses[i], script, chainId)
    requires forall i, j | 0 <= i < j < |uses| :: uses[i].block != uses[j].block && NoCollision(H, Hashed(H, uses[i]) + Hashed(H, uses[j]))
    ensures |uses| <= 21
  {
    hide NoCollision, Inputs, Root, Occurs;
    var places := seq(|uses|, i requires 0 <= i < |uses| => uses[i].place);
    forall i, j | 0 <= i < j < |uses| ensures places[i] != places[j] {
      var u, v := uses[i], uses[j];
      if u.place == v.place { OncePerPlace(H, u.proof, u.block, u.strict, v.proof, v.block, v.strict, chainId, u.place); }
    }
    forall i | 0 <= i < |uses| ensures 0 <= places[i] < 21 { assert Valid(H, uses[i], script, chainId); }
    Pigeonhole(places, 21);
  }

  // --------------------------------------------------------------- one-leaf trees

  /** The block is served by the script with a tree of which it is the only leaf. */
  ghost predicate ServesLeaf(H: Bytes -> Hash, script: Bytes, h: Hash, chainId: int) {
    exists a: Proof, strict: bool, pc: nat :: Accepts(H, a, h, chainId, strict, pc) && a.inputs[0] == script && a.chainBranch == []
  }

  /** A place early in the script where 32 bytes occur first, followed by the size one and a nonce. */
  ghost predicate LeafPlace(s: Bytes, pc: nat) {
    && pc <= 20 && pc + 40 <= |s| && s[pc + 32..pc + 36] == [1, 0, 0, 0]
    && NewAt(s, s[pc..pc + 32], pc)
  }

  /** The bytes do not occur before the place. */
  ghost predicate NewAt(s: Bytes, p: Bytes, pc: nat) { forall i: nat | i < pc :: !At(s, p, i) }

  /** The block stands at such a place. */
  ghost predicate LeafAt(s: Bytes, h: Hash, pc: nat) { LeafPlace(s, pc) && s[pc..pc + 32] == Reversed(h) }

  lemma SizeOne(s: Bytes, i: nat)
    requires i + 4 <= |s|
    ensures Le32(s, i) == 1 <==> s[i..i + 4] == [1, 0, 0, 0]
  {
    var t := s[i..i + 4];
    assert t[0] == s[i] && t[1] == s[i + 1] && t[2] == s[i + 2] && t[3] == s[i + 3];
  }

  lemma IndexZero(nonce: nat, chainId: int)
    ensures GetExpectedIndex(nonce, chainId, 0) == 0
  {
  }

  lemma Committing(s: Bytes, h: Hash, pc: nat, chainId: int)
    requires !Occurs(s, HEADER) && LeafAt(s, h, pc)
    ensures Committed(s, h, pc, 0, 0, chainId)
  {
    hide Le32, GetExpectedIndex, Occurs;
    SizeOne(s, pc + 32);
    IndexZero(Le32(s, pc + 36), chainId);
    assert Pow2(0) == 1;
  }

  lemma Committal(s: Bytes, h: Hash, pc: nat, index: int, chainId: int)
    requires !Occurs(s, HEADER) && Committed(s, h, pc, 0, index, chainId)
    ensures LeafAt(s, h, pc)
  {
    hide Le32, GetExpectedIndex, Occurs;
    assert Pow2(0) == 1;
    SizeOne(s, pc + 32);
  }

  /** Whatever the hash function, a script without the header serves a block in that way if and only
      if the block stands at such a place. */
  lemma LeafServedIff(H: Bytes -> Hash, s: Bytes, h: Hash, chainId: int)
    requires !Occurs(s, HEADER)
    ensures ServesLeaf(H, s, h, chainId) <==> exists pc: nat :: LeafAt(s, h, pc)
  {
    hide Committed, LeafAt;
    if ServesLeaf(H, s, h, chainId) {
      var a: Proof, strict: bool, pc: nat :| Accepts(H, a, h, chainId, strict, pc) && a.inputs[0] == s && a.chainBranch == [];
      Committal(s, h, pc, a.chainIndex, chainId);
    }
    if pc: nat :| LeafAt(s, h, pc) {
      Committing(s, h, pc, chainId);
      assert Accepts(H, LeafProof(s, h), h, chainId, false, pc);
    }
  }

  function LeafProof(s: Bytes, tx: Hash): Proof { Proof(0, tx, [s], [], tx, 0, [], 0) }

  /** Two such places hold different blocks, and are at least four bytes apart. */
  lemma LeafPlacesApart(s: Bytes, p: nat, q: nat)
    requires LeafPlace(s, p) && LeafPlace(s, q) && p < q
    ensures s[p..p + 32] != s[q..q + 32] && p + 4 <= q
  {
    assert At(s, s[p..p + 32], p);
    assert s[q + 32..q + 36][0] == s[q + 32];
  }

  /** So a script without the header serves two different blocks by one-leaf trees if and only if it
      has two such places. */
  lemma TwoLeavesIff(H: Bytes -> Hash, s: Bytes, chainId: int)
    requires !Occurs(s, HEADER)
    ensures (exists h: Hash, h': Hash :: h != h' && ServesLeaf(H, s, h, chainId) && ServesLeaf(H, s, h', chainId)) <==>
            exists p: nat, q: nat :: p < q && LeafPlace(s, p) && LeafPlace(s, q)
  {
    hide ServesLeaf;
    if h: Hash, h': Hash :| h != h' && ServesLeaf(H, s, h, chainId) && ServesLeaf(H, s, h', chainId) {
      LeafServedIff(H, s, h, chainId);
      LeafServedIff(H, s, h', chainId);
      var p: nat :| LeafAt(s, h, p);
      var q: nat :| LeafAt(s, h', q);
      if p == q { ReversedOnce(h, h'); }
      assert if p < q then LeafPlace(s, p) && LeafPlace(s, q) else LeafPlace(s, q) && LeafPlace(s, p);
    }
    if p: nat, q: nat :| p < q && LeafPlace(s, p) && LeafPlace(s, q) {
      LeafPlacesApart(s, p, q);
      var h, h' := BlockAt(s, p), BlockAt(s, q);
      LeafServedIff(H, s, h, chainId);
      LeafServedIff(H, s, h', chainId);
      assert ServesLeaf(H, s, h, chainId) && ServesLeaf(H, s, h', chainId);
    }
  }

  /** The block that stands at a place. */
  ghost function BlockAt(s: Bytes, pc: nat): (h: Hash)
    requires LeafPlace(s, pc)
    ensures LeafAt(s, h, pc)
  {
    var h := Reversed(s[pc..pc + 32]);
    assert Reversed(h) == s[pc..pc + 32];
    h
  }

  /** And it serves at most six. */
  lemma LeavesAtMostSix(H: Bytes -> Hash, s: Bytes, blocks: seq<Hash>, chainId: int)
    requires !Occurs(s, HEADER) && forall i | 0 <= i < |blocks| :: ServesLeaf(H, s, blocks[i], chainId)
    requires forall i, j | 0 <= i < j < |blocks| :: blocks[i] != blocks[j]
    ensures |blocks| <= 6
  {
    hide ServesLeaf, Occurs;
    forall i | 0 <= i < |blocks| ensures exists pc: nat :: LeafAt(s, blocks[i], pc) {
      LeafServedIff(H, s, blocks[i], chainId);
    }
    var codes := seq(|blocks|, i requires 0 <= i < |blocks| => PlaceOf(s, blocks[i]) / 4);
    forall i, j | 0 <= i < j < |blocks| ensures codes[i] != codes[j] {
      var p, q := PlaceOf(s, blocks[i]), PlaceOf(s, blocks[j]);
      if p == q { ReversedOnce(blocks[i], blocks[j]); }
      if p < q { LeafPlacesApart(s, p, q); } else { LeafPlacesApart(s, q, p); }
    }
    Pigeonhole(codes, 6);
  }

  ghost function PlaceOf(s: Bytes, h: Hash): (pc: nat)
    requires exists pc: nat :: LeafAt(s, h, pc)
    ensures LeafAt(s, h, pc)
  {
    var pc: nat :| LeafAt(s, h, pc); pc
  }

  /** A script of 60 bytes with a tree of size one announced at six places. */
  function SixRoots(): (s: Bytes)
    ensures |s| == 60
  {
    seq(60, i requires i >= 0 => if i < 32 then i + 1 else if i % 4 == 0 && i <= 52 then 1 else 0)
  }

  lemma SixPlaces(k: nat)
    requires k <= 5
    ensures LeafPlace(SixRoots(), 4 * k) && !Occurs(SixRoots(), HEADER)
  {
    var s, pc := SixRoots(), 4 * k;
    var w := s[pc..pc + 32];
    forall i: nat | i < pc ensures !At(s, w, i) {
      assert s[i..i + 32][0] == s[i] && s[pc..pc + 32][0] == s[pc];
    }
    forall i: nat ensures !At(s, HEADER, i) {
      assert i + 4 <= |s| ==> s[i..i + 4][0] == s[i];
    }
  }

  /** And six there can be: one proof without the header serves for six blocks of any chain. */
  lemma LegacyServesSix(H: Bytes -> Hash, tx: Hash, chainId: int) returns (a: Proof, blocks: seq<Hash>)
    ensures |blocks| == 6 && a.inputs != [] && !Occurs(a.inputs[0], HEADER)
    ensures forall k | 0 <= k < 6 :: Accepts(H, a, blocks[k], chainId, false, 4 * k)
    ensures forall k, l | 0 <= k < l < 6 :: blocks[k] != blocks[l]
  {
    hide Occurs, LeafPlace, Committed, SixRoots;
    var s := SixRoots();
    a := LeafProof(s, tx);
    forall k: nat | k < 6 ensures LeafPlace(s, 4 * k) { SixPlaces(k); }
    SixPlaces(0);
    blocks := seq(6, k requires 0 <= k < 6 => BlockAt(s, 4 * k));
    forall k | 0 <= k < 6 ensures Accepts(H, a, blocks[k], chainId, false, 4 * k) { Committing(s, blocks[k], 4 * k, chainId); }
    forall k, l | 0 <= k < l < 6 ensures blocks[k] != blocks[l] { LeafPlacesApart(s, 4 * k, 4 * l); }
  }
}
