/** CPartialMerkleTree (src/merkleblock.cpp, src/merkleblock.h): the object that pushes to and
    reads from its bit and hash vectors, equal to the functions of MerkleSpec. */
module MerkleBlock {
  import opened Powers
  import opened MerkleSpec
  import opened MerkleProofs

  // -------------------------------------------------------------- bits in bytes

  function Mask(j: nat): bv8
    requires j < 8
  {
    (1 as bv8) << j
  }

  predicate BitOf(b: bv8, j: nat)
    requires j < 8
  {
    b & Mask(j) != 0
  }

  lemma SetBit(b: bv8, i: nat, j: nat)
    requires i < 8 && j < 8
    ensures BitOf(b | Mask(j), i) == (i == j || BitOf(b, i))
    ensures !BitOf(0, i)
  {
  }

  /** The bits stored in bytes, least significant first. */
  function Unpacked(bytes: seq<bv8>): seq<bool> {
    seq(8 * |bytes|, p requires 0 <= p < 8 * |bytes| => BitOf(bytes[p / 8], p % 8))
  }

  /** The writing half of SerializationOp: whole bytes, padded with zero bits. */
  method Pack(bits: seq<bool>) returns (bytes: seq<bv8>)
    ensures |bytes| == (|bits| + 7) / 8
    ensures forall p | 0 <= p < 8 * |bytes| :: Unpacked(bytes)[p] == (p < |bits| && bits[p])
  {
    hide BitOf, Mask;
    bytes := seq((|bits| + 7) / 8, i => 0);
    forall i | 0 <= i < 8 ensures !BitOf(0, i) { SetBit(0, i, i); }
    for p := 0 to |bits|
      invariant |bytes| == (|bits| + 7) / 8
      invariant forall q | 0 <= q < 8 * |bytes| :: Unpacked(bytes)[q] == (q < p && bits[q])
    {
      ghost var before := bytes;
      if bits[p] {
        bytes := bytes[p / 8 := bytes[p / 8] | Mask(p % 8)];
      }
      forall q | 0 <= q < 8 * |bytes| ensures Unpacked(bytes)[q] == (q < p + 1 && bits[q]) {
        SetBit(before[p / 8], q % 8, p % 8);
        assert Unpacked(before)[q] == (q < p && bits[q]);
      }
    }
  }

  /** The reading half of SerializationOp. */
  method Unpack(bytes: seq<bv8>) returns (bits: seq<bool>)
    ensures bits == Unpacked(bytes)
  {
    hide BitOf;
    bits := [];
    for p := 0 to 8 * |bytes|
      invariant bits == Unpacked(bytes)[..p]
    {
      bits := bits + [BitOf(bytes[p / 8], p % 8)];
    }
  }

  lemma ConcatAssoc(a: Encoding, b: Encoding, c: Encoding)
    ensures Concat(Concat(a, b), c) == Concat(a, Concat(b, c))
  {
    assert a.bits + b.bits + c.bits == a.bits + (b.bits + c.bits);
    assert a.hashes + b.hashes + c.hashes == a.hashes + (b.hashes + c.hashes);
  }

  class PartialMerkleTree {
    const hash: Hasher
    var nTransactions: nat
    var vBits: seq<bool>
    var vHash: seq<Digest>
    var fBad: bool

    ghost function Stored(): Encoding
      reads this
    {
      Encoding(vBits, vHash)
    }

    method ParentOfMatch(height: nat, pos: nat, wanted: seq<bool>) returns (m: bool)
      ensures m == AnyMatch(wanted, First(height, pos), First(height, pos + 1))
    {
      hide First;
      FirstBelow(height, pos);
      m := false;
      var p := First(height, pos);
      while p < First(height, pos + 1) && p < |wanted|
        invariant First(height, pos) <= p <= First(height, pos + 1)
        invariant m == AnyMatch(wanted, First(height, pos), p)
        decreases |wanted| - p
      {
        m := m || wanted[p];
        p := p + 1;
      }
    }

    method TraverseAndBuild(height: nat, pos: nat, txids: seq<Digest>, wanted: seq<bool>)
      requires nTransactions == |txids| && pos < Width(nTransactions, height)
      modifies this`vBits, this`vHash
      ensures Stored() == Concat(old(Stored()), Build(hash, txids, wanted, height, pos))
      decreases height
    {
      hide Width, First, AnyMatch, CalcHash;
      ghost var before := Stored();
      var m := ParentOfMatch(height, pos, wanted);
      vBits := vBits + [m];
      if height == 0 || !m {
        vHash := vHash + [CalcHash(hash, txids, height, pos)];
      } else {
        BuildBelow(hash, txids, wanted, height, pos);
        hide Build;
        ghost var head, l := Encoding([true], []), Build(hash, txids, wanted, height - 1, 2 * pos);
        assert Stored() == Concat(before, head);
        TraverseAndBuild(height - 1, 2 * pos, txids, wanted);
        ConcatAssoc(before, head, l);
        if 2 * pos + 1 < Width(nTransactions, height - 1) {
          TraverseAndBuild(height - 1, 2 * pos + 1, txids, wanted);
          ConcatAssoc(before, Concat(head, l), Build(hash, txids, wanted, height - 1, 2 * pos + 1));
        }
      }
    }

    method CalcHeight() returns (height: nat)
      ensures height == Height(nTransactions)
    {
      height := 0;
      while Width(nTransactions, height) > 1
        invariant HeightFrom(nTransactions, height) == Height(nTransactions)
        decreases if Width(nTransactions, height) > 1 then nTransactions + 1 - Pow2(height) else 0
      {
        Taller(nTransactions, height);
        height := height + 1;
      }
    }

    constructor Select(hash: Hasher, txids: seq<Digest>, wanted: seq<bool>)
      requires txids != []
      ensures this.hash == hash && nTransactions == |txids| && !fBad
      ensures Stored() == Encode(hash, txids, wanted)
    {
      this.hash := hash;
      nTransactions, vBits, vHash, fBad := |txids|, [], [], false;
      new;
      var height := CalcHeight();
      RootPos(nTransactions);
      TraverseAndBuild(height, 0, txids, wanted);
    }

    constructor Received(hash: Hasher, nTransactions: nat, bytes: seq<bv8>, hashes: seq<Digest>)
      ensures this.hash == hash && this.nTransactions == nTransactions && !fBad
      ensures Stored() == Encoding(Unpacked(bytes), hashes)
    {
      this.hash := hash;
      var bits := Unpack(bytes);
      this.nTransactions, this.vBits, this.vHash, this.fBad := nTransactions, bits, hashes, false;
    }

    /** The traversal; the cursors and the match list are passed by reference in the source. */
    method TraverseAndExtract(height: nat, pos: nat, nBitsUsed: nat, nHashUsed: nat, matches: seq<(Digest, nat)>)
      returns (d: Digest, nBitsUsed': nat, nHashUsed': nat, matches': seq<(Digest, nat)>)
      modifies this`fBad
      ensures (d, Cursor(nBitsUsed', nHashUsed', fBad, matches')) ==
              Extract(hash, nTransactions, Stored(), height, pos, Cursor(nBitsUsed, nHashUsed, old(fBad), matches))
      decreases height
    {
      nBitsUsed', nHashUsed', matches' := nBitsUsed, nHashUsed, matches;
      if nBitsUsed' >= |vBits| {
        fBad := true;
        return ZERO, nBitsUsed', nHashUsed', matches';
      }
      var fParentOfMatch := vBits[nBitsUsed'];
      nBitsUsed' := nBitsUsed' + 1;
      if height == 0 || !fParentOfMatch {
        if nHashUsed' >= |vHash| {
          fBad := true;
          return ZERO, nBitsUsed', nHashUsed', matches';
        }
        d := vHash[nHashUsed'];
        nHashUsed' := nHashUsed' + 1;
        if height == 0 && fParentOfMatch { matches' := matches' + [(d, pos)]; }
      } else {
        hide Width;
        var left, right;
        left, nBitsUsed', nHashUsed', matches' := TraverseAndExtract(height - 1, 2 * pos, nBitsUsed', nHashUsed', matches');
        if 2 * pos + 1 < Width(nTransactions, height - 1) {
          right, nBitsUsed', nHashUsed', matches' := TraverseAndExtract(height - 1, 2 * pos + 1, nBitsUsed', nHashUsed', matches');
          if right == left { fBad := true; }
        } else {
          right := left;
        }
        d := hash(left, right);
      }
    }

    method ExtractMatches() returns (root: Digest, matches: seq<(Digest, nat)>)
      requires !fBad
      modifies this`fBad
      ensures (root, matches) == MerkleSpec.ExtractMatches(hash, nTransactions, Stored())
    {
      if nTransactions == 0 { return ZERO, []; }
      if nTransactions > MAX_BLOCK_BASE_SIZE / 60 { return ZERO, []; }
      if |vHash| > nTransactions { return ZERO, []; }
      if |vBits| < |vHash| { return ZERO, []; }
      var height := CalcHeight();
      var nBitsUsed, nHashUsed;
      hide Extract, Height;
      root, nBitsUsed, nHashUsed, matches := TraverseAndExtract(height, 0, 0, 0, []);
      if fBad { return ZERO, matches; }
      if (nBitsUsed + 7) / 8 != (|vBits| + 7) / 8 { return ZERO, matches; }
      if nHashUsed != |vHash| { return ZERO, matches; }
    }
  }

  /** A selection sent over the wire and extracted by the receiver. */
  method SendAndExtract(hash: Hasher, txids: seq<Digest>, wanted: seq<bool>) returns (root: Digest, matches: seq<(Digest, nat)>)
    requires txids != [] && |txids| <= MAX_BLOCK_BASE_SIZE / 60 && |wanted| == |txids| && Distinct(txids)
    requires InjectiveOn(hash, RootPairs(hash, txids))
    ensures root == Root(hash, txids) && matches == Matched(txids, wanted, 0, |txids|)
  {
    hide Encode, InjectiveOn, RootPairs, Distinct, MerkleSpec.ExtractMatches, Matched, Root, Unpacked;
    var sent := new PartialMerkleTree.Select(hash, txids, wanted);
    var bytes := Pack(sent.vBits);
    var got := new PartialMerkleTree.Received(hash, sent.nTransactions, bytes, sent.vHash);
    IsPadded(sent.vBits, bytes);
    RoundTrip(hash, txids, wanted, got.Stored());
    root, matches := got.ExtractMatches();
  }

  lemma IsPadded(bits: seq<bool>, bytes: seq<bv8>)
    requires |bytes| == (|bits| + 7) / 8
    requires forall p | 0 <= p < 8 * |bytes| :: Unpacked(bytes)[p] == (p < |bits| && bits[p])
    ensures bits <= Unpacked(bytes) && |Unpacked(bytes)| == (|bits| + 7) / 8 * 8
  {
    hide BitOf;
    PaddingOk(|bits|);
    assert forall p | 0 <= p < |bits| :: Unpacked(bytes)[p] == bits[p];
  }
}
