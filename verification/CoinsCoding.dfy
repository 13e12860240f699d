/** The stored form of the unspent outputs of a transaction (CCoins::Serialize and Unserialize,
    src/coins.h; CalcMaskSize, src/coins.cpp). */
module CoinsCoding {
  import opened Powers
  import opened Streams
  import opened CoinsSpec
  import opened Amounts
  import opened Compressor

  // ----------------------------------------------------------------------- bits

  predicate Available(vout: seq<TxOut>, i: nat) { i < |vout| && !vout[i].IsNull() }

  /** The number formed by the availability of n outputs from position p on. */
  function BitsFrom(vout: seq<TxOut>, p: nat, n: nat): nat
    decreases n
  {
    if n == 0 then 0 else (if Available(vout, p) then 1 else 0) + 2 * BitsFrom(vout, p + 1, n - 1)
  }

  lemma {:induction false} BitsBound(vout: seq<TxOut>, p: nat, n: nat)
    ensures BitsFrom(vout, p, n) < Pow2(n)
    decreases n
  {
    if n > 0 { BitsBound(vout, p + 1, n - 1); }
  }

  predicate NthBit(x: nat, i: nat)
    decreases i
  {
    if i == 0 then x % 2 == 1 else NthBit(x / 2, i - 1)
  }

  lemma {:induction false} BitIs(vout: seq<TxOut>, p: nat, n: nat, i: nat)
    requires i < n
    ensures NthBit(BitsFrom(vout, p, n), i) == Available(vout, p + i)
    decreases n
  {
    var b, rest: nat := if Available(vout, p) then 1 else 0, BitsFrom(vout, p + 1, n - 1);
    Halved(b, rest);
    if i > 0 { BitIs(vout, p + 1, n - 1, i - 1); }
  }

  lemma Halved(b: nat, rest: nat)
    requires b <= 1
    ensures (b + 2 * rest) / 2 == rest && (b + 2 * rest) % 2 == b
  {
  }

  lemma {:induction false} BitsZero(vout: seq<TxOut>, p: nat, n: nat)
    ensures BitsFrom(vout, p, n) == 0 <==> forall i | p <= i < p + n :: !Available(vout, i)
    decreases n
  {
    if n > 0 { BitsZero(vout, p + 1, n - 1); }
  }

  // ----------------------------------------------------------------------- mask

  /** Byte b of the bitmask; the first two outputs are not part of it. */
  function MaskByte(vout: seq<TxOut>, b: nat): Byte {
    BitsBound(vout, 2 + 8 * b, 8);
    assert Pow2(8) == 256;
    BitsFrom(vout, 2 + 8 * b, 8)
  }

  /** One more than the last byte below k that is not zero. */
  function LastUsed(vout: seq<TxOut>, k: nat): (r: nat)
    ensures r <= k
  {
    if k == 0 then 0 else if MaskByte(vout, k - 1) != 0 then k else LastUsed(vout, k - 1)
  }

  function MaskLength(vout: seq<TxOut>): nat { if |vout| <= 2 then 0 else (|vout| - 3) / 8 + 1 }

  function Mask(vout: seq<TxOut>): (r: Bytes)
    ensures |r| == LastUsed(vout, MaskLength(vout))
  {
    seq(LastUsed(vout, MaskLength(vout)), b requires b >= 0 => MaskByte(vout, b))
  }

  function NonZero(mask: Bytes): nat { if mask == [] then 0 else (if mask[0] != 0 then 1 else 0) + NonZero(mask[1..]) }

  lemma {:induction false} LastUsedIs(vout: seq<TxOut>, k: nat)
    ensures var r := LastUsed(vout, k);
            (r > 0 ==> MaskByte(vout, r - 1) != 0) && forall b | r <= b < k :: MaskByte(vout, b) == 0
  {
    hide MaskByte;
    if k > 0 && MaskByte(vout, k - 1) == 0 { LastUsedIs(vout, k - 1); }
  }

  /** Outputs beyond the mask are spent. */
  lemma BeyondMask(vout: seq<TxOut>, i: nat)
    requires 2 + 8 * |Mask(vout)| <= i
    ensures !Available(vout, i)
  {
    hide BitsFrom;
    if i < |vout| {
      LastUsedIs(vout, MaskLength(vout));
      var b := (i - 2) / 8;
      assert |Mask(vout)| <= b < MaskLength(vout);
      assert MaskByte(vout, b) == 0;
      BitsZero(vout, 2 + 8 * b, 8);
      assert 2 + 8 * b <= i < 2 + 8 * b + 8;
    }
  }

  // -------------------------------------------------------------------- writing

  /** Amounts are signed integers of 64 bits; -1 marks a spent output. */
  predicate Signed64(v: int) { -(W64 / 2) <= v < W64 / 2 }

  predicate Signed32(n: int) { -(W32 / 2) <= n < W32 / 2 }

  /** The same 64 bits as an unsigned and as a signed number. */
  function ToUnsigned(v: int): (u: nat)
    requires Signed64(v)
    ensures u < W64
  {
    if v < 0 then v + W64 else v
  }

  function ToSigned(u: nat, w: nat): int { if u < w / 2 then u else u - w }

  function WriteOut(c: Curve, o: TxOut): Bytes
    requires Signed64(o.value)
  {
    VarInt(Code64(ToUnsigned(o.value))) + WriteScript(c, o.script)
  }

  /** What the types of the source can hold. */
  predicate Fits(o: TxOut) { Signed64(o.value) && |o.script| < W32 / 2 }

  predicate AllFit(vout: seq<TxOut>) { |vout| < W32 / 2 && forall i | 0 <= i < |vout| :: Fits(vout[i]) }

  predicate CoinsFit(coins: Coins) { Signed32(coins.version) && Signed32(coins.height) && AllFit(coins.vout) }

  /** The available outputs from position i on. */
  function WriteOuts(c: Curve, vout: seq<TxOut>, i: nat, n: nat): Bytes
    requires AllFit(vout) && i <= n
    decreases n - i
  {
    if i == n then [] else (if Available(vout, i) then WriteOut(c, vout[i]) else []) + WriteOuts(c, vout, i + 1, n)
  }

  function HeaderCode(coins: Coins): nat
    requires !coins.IsPruned()
  {
    var first, second := Available(coins.vout, 0), Available(coins.vout, 1);
    SomeByte(coins.vout);
    8 * (NonZero(Mask(coins.vout)) - (if first || second then 0 else 1))
      + (if coins.coinbase then 1 else 0) + (if first then 2 else 0) + (if second then 4 else 0)
  }

  lemma SomeByte(vout: seq<TxOut>)
    requires exists i | 0 <= i < |vout| :: !vout[i].IsNull()
    ensures Available(vout, 0) || Available(vout, 1) || NonZero(Mask(vout)) > 0
  {
    hide LastUsed, MaskLength, BitsFrom;
    var i :| 0 <= i < |vout| && !vout[i].IsNull();
    if i >= 2 {
      if Mask(vout) == [] { BeyondMask(vout, i); }
      LastUsedIs(vout, MaskLength(vout));
      LastCounts(Mask(vout));
    }
  }

  lemma {:induction false} LastCounts(mask: Bytes)
    requires mask != [] && mask[|mask| - 1] != 0
    ensures NonZero(mask) > 0
  {
    if |mask| > 1 { LastCounts(mask[1..]); }
  }

  function Write(c: Curve, coins: Coins): Bytes
    requires !coins.IsPruned() && CoinsFit(coins)
  {
    VarInt(coins.version) + VarInt(HeaderCode(coins)) + Mask(coins.vout) + WriteOuts(c, coins.vout, 0, |coins.vout|) + VarInt(coins.height)
  }

  // -------------------------------------------------------------------- reading

  /** Reads bytes until so many that are not zero have been seen. */
  function ReadMask(s: Bytes, count: nat): Read<Bytes>
    decreases |s|
  {
    if count == 0 then Read([], s)
    else if s == [] then Short
    else match ReadMask(s[1..], if s[0] != 0 then count - 1 else count)
         case Short => Short
         case Read(mask, rest) => Read([s[0]] + mask, rest)
  }

  /** The mask ends just where the last of its non-zero bytes is. */
  lemma {:induction false} MaskRoundTrip(mask: Bytes, rest: Bytes)
    requires mask != [] ==> mask[|mask| - 1] != 0
    ensures ReadMask(mask + rest, NonZero(mask)) == Read(mask, rest)
  {
    if mask == [] {
      assert mask + rest == rest;
    } else {
      LastCounts(mask);
      MaskRoundTrip(mask[1..], rest);
      assert (mask + rest)[1..] == mask[1..] + rest;
      assert mask == [mask[0]] + mask[1..];
    }
  }

  /** Which outputs follow. */
  function Flags(first: bool, second: bool, mask: Bytes): (r: seq<bool>)
    ensures |r| == 2 + 8 * |mask|
  {
    [first, second] + seq(8 * |mask|, i requires 0 <= i < 8 * |mask| => NthBit(mask[i / 8], i % 8))
  }

  lemma FlagsAre(vout: seq<TxOut>, i: nat)
    requires i < 2 + 8 * |Mask(vout)|
    ensures Flags(Available(vout, 0), Available(vout, 1), Mask(vout))[i] == Available(vout, i)
  {
    hide BitsFrom, NthBit, LastUsed;
    if i >= 2 { BitIs(vout, 2 + 8 * ((i - 2) / 8), 8, (i - 2) % 8); }
  }

  function ReadOut(c: Curve, s: Bytes): Read<TxOut> {
    match VarIntFrom(0, s, W64)
    case Short => Short
    case Read(x, rest) =>
      match ReadScript(c, rest)
      case Short => Short
      case Read(script, rest') => Read(TxOut(ToSigned(Amount64(x), W64), script), rest')
  }

  const SPENT: TxOut := TxOut(-1, [])

  function ReadOuts(c: Curve, flags: seq<bool>, s: Bytes): Read<seq<TxOut>> {
    if flags == [] then Read([], s)
    else match if flags[0] then ReadOut(c, s) else Read(SPENT, s)
         case Short => Short
         case Read(o, rest) =>
           match ReadOuts(c, flags[1..], rest)
           case Short => Short
           case Read(outs, rest') => Read([o] + outs, rest')
  }

  function ReadCoins(c: Curve, s: Bytes): Read<Coins> {
    match VarIntFrom(0, s, W32)
    case Short => Short
    case Read(version, s1) =>
      match VarIntFrom(0, s1, W32)
      case Short => Short
      case Read(code, s2) =>
        match ReadMask(s2, code / 8 + if code % 8 / 2 != 0 then 0 else 1)
        case Short => Short
        case Read(mask, s3) =>
          match ReadOuts(c, Flags(code / 2 % 2 == 1, code / 4 % 2 == 1, mask), s3)
          case Short => Short
          case Read(vout, s4) =>
            match VarIntFrom(0, s4, W32)
            case Short => Short
            case Read(height, s5) => Read(Cleanup(Coins(code % 2 == 1, vout, ToSigned(height, W32), ToSigned(version, W32))), s5)
  }

  // ------------------------------------------------------------------ round trip

  /** What is left of a script, an output, a number that may be negative. */
  function NormalScript(s: Bytes): Bytes { if |s| <= MAX_SCRIPT_SIZE then s else [OP_RETURN] }

  function NormalValue(v: int): int
    requires Signed64(v)
  {
    ToSigned(Amount64(Code64(ToUnsigned(v))), W64)
  }

  function NormalOut(o: TxOut): TxOut
    requires Fits(o)
  {
    if o.IsNull() then SPENT else TxOut(NormalValue(o.value), NormalScript(o.script))
  }

  /** An amount comes back if and only if it does as an unsigned number. */
  lemma ValueKept(v: int)
    requires Signed64(v)
    ensures NormalValue(v) == v <==> Keeps(ToUnsigned(v))
  {
    hide Keeps, Amount64, Code64;
    AmountKept(ToUnsigned(v));
  }

  function NormalNumber(n: int): nat { if n >= 0 then n else n % 128 }

  function NormalOuts(vout: seq<TxOut>): (r: seq<TxOut>)
    requires AllFit(vout)
    ensures |r| == |vout|
  {
    seq(|vout|, i requires 0 <= i < |vout| => NormalOut(vout[i]))
  }

  function Normal(c: Coins): Coins
    requires CoinsFit(c)
  {
    Coins(c.coinbase, Trim(NormalOuts(c.vout)), NormalNumber(c.height), NormalNumber(c.version))
  }

  lemma OutRoundTrip(c: Curve, o: TxOut, rest: Bytes)
    requires Sound(c) && Fits(o) && !o.IsNull()
    ensures ReadOut(c, WriteOut(c, o) + rest) == Read(NormalOut(o), rest)
  {
    hide VarInt, VarIntFrom, WriteScript, ReadScript, Code64, Amount64, Sound;
    var x := Code64(ToUnsigned(o.value));
    assert WriteOut(c, o) + rest == VarInt(x) + (WriteScript(c, o.script) + rest);
    VarIntRoundTrip(x, WriteScript(c, o.script) + rest, W64);
    ScriptRoundTrip(c, o.script, rest);
  }

  /** The outputs that the flags from position i on announce. */
  function Announced(vout: seq<TxOut>, i: nat, n: nat): (r: seq<TxOut>)
    requires AllFit(vout) && i <= n
    ensures |r| == n - i
    decreases n - i
  {
    if i == n then [] else [if Available(vout, i) then NormalOut(vout[i]) else SPENT] + Announced(vout, i + 1, n)
  }

  lemma {:induction false} OutsRoundTrip(c: Curve, vout: seq<TxOut>, flags: seq<bool>, i: nat, n: nat, rest: Bytes)
    requires Sound(c) && AllFit(vout) && i <= n && |flags| == n - i
    requires forall j | 0 <= j < |flags| :: flags[j] == Available(vout, i + j)
    ensures ReadOuts(c, flags, WriteOuts(c, vout, i, n) + rest) == Read(Announced(vout, i, n), rest)
    decreases n - i
  {
    hide Sound, WriteOut, ReadOut, NormalOut;
    if i < n {
      var tail := WriteOuts(c, vout, i + 1, n) + rest;
      OutsRoundTrip(c, vout, flags[1..], i + 1, n, rest);
      if Available(vout, i) {
        OutRoundTrip(c, vout[i], tail);
        assert WriteOuts(c, vout, i, n) + rest == WriteOut(c, vout[i]) + tail;
      } else {
        assert WriteOuts(c, vout, i, n) + rest == tail;
      }
    } else {
      assert WriteOuts(c, vout, i, n) + rest == rest;
    }
  }

  /** Beyond the last output there is nothing to write. */
  lemma {:induction false} NothingBeyond(c: Curve, vout: seq<TxOut>, i: nat, m: nat, n: nat)
    requires AllFit(vout) && i <= m <= n && forall j | m <= j < n :: !Available(vout, j)
    ensures WriteOuts(c, vout, i, m) == WriteOuts(c, vout, i, n)
    decreases n - i
  {
    if i == m {
      if m < n { NothingBeyond(c, vout, m + 1, m + 1, n); }
    } else {
      NothingBeyond(c, vout, i + 1, m, n);
    }
  }

  lemma {:induction false} AnnouncedAt(vout: seq<TxOut>, i: nat, n: nat, j: nat)
    requires AllFit(vout) && i <= j < n
    ensures Announced(vout, i, n)[j - i] == if Available(vout, j) then NormalOut(vout[j]) else SPENT
    decreases n - i
  {
    if i < j { AnnouncedAt(vout, i + 1, n, j); }
  }

  /** Sequences that differ only in how many spent outputs follow the last unspent one. */
  lemma TrimSame(a: seq<TxOut>, b: seq<TxOut>)
    requires forall i: nat :: Available(a, i) == Available(b, i)
    requires forall i | 0 <= i < |a| && i < |b| :: a[i] == b[i]
    ensures Trim(a) == Trim(b)
  {
    hide Trim, Available;
    TrimOnlyDropsSpent(a);
    TrimOnlyDropsSpent(b);
    var m, n := |Trim(a)|, |Trim(b)|;
    assert Trim(a) == a[..m] && Trim(b) == b[..n];
    SameEnd(a, b, m, n);
    SamePrefix(a, b, m);
  }

  lemma SamePrefix(a: seq<TxOut>, b: seq<TxOut>, m: nat)
    requires m <= |a| && m <= |b| && forall i | 0 <= i < |a| && i < |b| :: a[i] == b[i]
    ensures a[..m] == b[..m]
  {
  }

  lemma SameEnd(a: seq<TxOut>, b: seq<TxOut>, m: nat, n: nat)
    requires forall i: nat :: Available(a, i) == Available(b, i)
    requires m <= |a| && (m > 0 ==> !a[m - 1].IsNull()) && forall i | m <= i < |a| :: a[i].IsNull()
    requires n <= |b| && (n > 0 ==> !b[n - 1].IsNull()) && forall i | n <= i < |b| :: b[i].IsNull()
    ensures m == n
  {
    assert m > 0 ==> Available(a, m - 1);
    assert n > 0 ==> Available(b, n - 1);
  }

  lemma AnnouncedTrims(vout: seq<TxOut>, n: nat)
    requires AllFit(vout) && forall j: nat | n <= j :: !Available(vout, j)
    ensures Trim(Announced(vout, 0, n)) == Trim(NormalOuts(vout))
  {
    hide Trim, Announced, NormalValue, NormalScript, Fits;
    var a, b := Announced(vout, 0, n), NormalOuts(vout);
    forall i | 0 <= i < |a| && i < |b| ensures a[i] == b[i] { AnnouncedAt(vout, 0, n, i); }
    forall i: nat ensures Available(a, i) == Available(b, i) {
      if i < n { AnnouncedAt(vout, 0, n, i); } else { assert !Available(vout, i); }
    }
    TrimSame(a, b);
  }

  lemma CodeFields(coins: Coins)
    requires !coins.IsPruned()
    ensures var code, vout := HeaderCode(coins), coins.vout;
            && (code % 2 == 1) == coins.coinbase && (code / 2 % 2 == 1) == Available(vout, 0) && (code / 4 % 2 == 1) == Available(vout, 1)
            && code / 8 + (if code % 8 / 2 != 0 then 0 else 1) == NonZero(Mask(vout))
  {
    hide NonZero, Mask, Available;
    SomeByte(coins.vout);
    var b0, b1, b2 := Bit(coins.coinbase), Bit(Available(coins.vout, 0)), Bit(Available(coins.vout, 1));
    Fields(NonZero(Mask(coins.vout)) - (if b1 + b2 > 0 then 0 else 1), b0, b1, b2);
  }

  function Bit(b: bool): nat { if b then 1 else 0 }

  lemma Fields(n: nat, b0: nat, b1: nat, b2: nat)
    requires b0 <= 1 && b1 <= 1 && b2 <= 1
    ensures var code := 8 * n + b0 + 2 * b1 + 4 * b2;
            code % 2 == b0 && code / 2 % 2 == b1 && code / 4 % 2 == b2 && code / 8 == n && code % 8 / 2 == b1 + 2 * b2
  {
    var code := 8 * n + b0 + 2 * b1 + 4 * b2;
    Halved(b0, 4 * n + b1 + 2 * b2);
    Halved(b1, 2 * n + b2);
    Halved(b2, n);
    DivModIs(code, 4, 2 * n + b2, b0 + 2 * b1);
    DivModIs(code, 8, n, b0 + 2 * b1 + 4 * b2);
    Halved(b0, b1 + 2 * b2);
  }

  /** Decoding what was encoded, followed by anything. */
  lemma CoinsRoundTrip(c: Curve, coins: Coins, rest: Bytes)
    requires Sound(c) && !coins.IsPruned() && CoinsFit(coins)
    ensures ReadCoins(c, Write(c, coins) + rest) == Read(Normal(coins), rest)
  {
    hide Sound, Mask, NonZero, VarInt, VarIntFrom, WriteOuts, ReadOuts, ReadMask, Trim, HeaderCode, Flags, Announced, NormalOuts;
    var vout, code, mask := coins.vout, HeaderCode(coins), Mask(coins.vout);
    var n := 2 + 8 * |mask|;
    var s4 := VarInt(coins.height) + rest;
    var s3 := WriteOuts(c, vout, 0, |vout|) + s4;
    var s2 := mask + s3;
    var s1 := VarInt(code) + s2;
    assert Write(c, coins) + rest == VarInt(coins.version) + s1;
    VarIntRoundTrip(coins.version, s1, W32);
    CodeBound(coins);
    VarIntRoundTrip(code, s2, W32);
    CodeFields(coins);
    LastOfMask(vout);
    MaskRoundTrip(mask, s3);
    OutsOfMask(c, vout, n, s4);
    VarIntRoundTrip(coins.height, rest, W32);
    forall j: nat | n <= j ensures !Available(vout, j) { BeyondMask(vout, j); }
    AnnouncedTrims(vout, n);
  }

  lemma CodeBound(coins: Coins)
    requires !coins.IsPruned() && |coins.vout| < W32 / 2
    ensures HeaderCode(coins) < W32
  {
    hide Mask, NonZero, Available;
    NonZeroBound(Mask(coins.vout));
  }

  lemma {:induction false} NonZeroBound(mask: Bytes)
    ensures NonZero(mask) <= |mask|
  {
    if mask != [] { NonZeroBound(mask[1..]); }
  }

  lemma LastOfMask(vout: seq<TxOut>)
    ensures Mask(vout) != [] ==> Mask(vout)[|Mask(vout)| - 1] != 0
  {
    hide BitsFrom, LastUsed;
    LastUsedIs(vout, MaskLength(vout));
  }

  lemma OutsOfMask(c: Curve, vout: seq<TxOut>, n: nat, rest: Bytes)
    requires Sound(c) && AllFit(vout) && n == 2 + 8 * |Mask(vout)|
    ensures ReadOuts(c, Flags(Available(vout, 0), Available(vout, 1), Mask(vout)), WriteOuts(c, vout, 0, |vout|) + rest)
            == Read(Announced(vout, 0, n), rest)
  {
    hide Sound, Mask, WriteOuts, ReadOuts, Announced;
    var flags := Flags(Available(vout, 0), Available(vout, 1), Mask(vout));
    forall j | 0 <= j < |flags| ensures flags[j] == Available(vout, j) { FlagsAre(vout, j); }
    forall j: nat | n <= j ensures !Available(vout, j) { BeyondMask(vout, j); }
    if |vout| <= n { NothingBeyond(c, vout, 0, |vout|, n); } else { NothingBeyond(c, vout, 0, n, |vout|); }
    OutsRoundTrip(c, vout, flags, 0, n, rest);
  }

  /** What comes back unchanged: spent outputs with no script, and amounts and scripts within
      limits. */
  predicate Plain(o: TxOut)
    requires Fits(o)
  {
    if o.IsNull() then o.script == [] else |o.script| <= MAX_SCRIPT_SIZE && Keeps(ToUnsigned(o.value))
  }

  lemma PlainIs(o: TxOut)
    requires Fits(o)
    ensures NormalOut(o) == o <==> Plain(o)
  {
    hide Keeps, NormalValue;
    ValueKept(o.value);
    if |o.script| > MAX_SCRIPT_SIZE { assert |NormalScript(o.script)| == 1; }
  }

  /** Exactly the clean values come back unchanged. */
  lemma UnchangedIff(coins: Coins)
    requires CoinsFit(coins)
    ensures Normal(coins) == coins <==>
            && coins.version >= 0 && coins.height >= 0 && Tidy(coins)
            && forall i | 0 <= i < |coins.vout| :: Plain(coins.vout[i])
  {
    hide Plain, NormalOut, Trim;
    var vout, norm := coins.vout, NormalOuts(coins.vout);
    forall i | 0 <= i < |vout| ensures NormalOut(vout[i]) == vout[i] <==> Plain(vout[i]) { PlainIs(vout[i]); }
    TrimOnlyDropsSpent(norm);
    if Trim(norm) == vout {
      assert |Trim(norm)| == |norm|;
      assert norm == vout;
      assert Trim(norm) == norm;
    }
    if Tidy(coins) && forall i | 0 <= i < |vout| :: Plain(vout[i]) {
      assert norm == vout;
      if Trim(norm) != norm { assert norm[|norm| - 1].IsNull(); }
    }
  }

  /** A negative version is a case of that: -1 is read back as 127. */
  lemma NegativeVersion(c: Curve)
    requires Sound(c)
    ensures var coins := Coins(false, [TxOut(1, [])], 0, -1);
            !coins.IsPruned() && CoinsFit(coins) && ReadCoins(c, Write(c, coins)) == Read(coins.(version := 127), [])
  {
    hide Sound, ReadCoins, Write, NormalValue;
    var coins := Coins(false, [TxOut(1, [])], 0, -1);
    assert !coins.vout[0].IsNull();
    CoinsRoundTrip(c, coins, []);
    assert Write(c, coins) + [] == Write(c, coins);
    var clean := coins.(version := 127);
    assert Normal(coins) == Normal(clean);
    assert Plain(clean.vout[0]);
    UnchangedIff(clean);
  }

  // ----------------------------------------------------------------- the methods

  lemma {:induction false} NonZeroMore(mask: Bytes, b: Byte)
    ensures NonZero(mask + [b]) == NonZero(mask) + if b != 0 then 1 else 0
  {
    if mask == [] {
      assert mask + [b] == [b];
    } else {
      NonZeroMore(mask[1..], b);
      assert (mask + [b])[1..] == mask[1..] + [b];
    }
  }

  lemma {:induction false} NonZeroZeros(mask: Bytes, k: nat)
    requires k <= |mask| && forall i | k <= i < |mask| :: mask[i] == 0
    ensures NonZero(mask) == NonZero(mask[..k])
    decreases |mask|
  {
    if k < |mask| {
      var n := |mask| - 1;
      NonZeroZeros(mask[..n], k);
      NonZeroMore(mask[..n], mask[n]);
      assert mask == mask[..n] + [mask[n]] && mask[..n][..k] == mask[..k];
    } else {
      assert mask[..k] == mask;
    }
  }

  /** The bytes of the mask up to its last one that is not zero, and how many are not zero. */
  method CalcMaskSize(vout: seq<TxOut>) returns (nBytes: nat, nNonzeroBytes: nat)
    ensures nBytes == |Mask(vout)| && nNonzeroBytes == NonZero(Mask(vout))
  {
    hide BitsFrom, MaskByte;
    nBytes, nNonzeroBytes := 0, 0;
    var b: nat := 0;
    ghost var all: Bytes := [];
    while 2 + b * 8 < |vout|
      invariant b <= MaskLength(vout) && nBytes == LastUsed(vout, b) && |all| == b
      invariant nNonzeroBytes == NonZero(all) && forall k | 0 <= k < b :: all[k] == MaskByte(vout, k)
      decreases MaskLength(vout) - b
    {
      var zero := AllSpent(vout, 2 + b * 8);
      ByteZero(vout, b);
      NonZeroMore(all, MaskByte(vout, b));
      all := all + [MaskByte(vout, b)];
      b := b + 1;
      if !zero {
        nBytes := b;
        nNonzeroBytes := nNonzeroBytes + 1;
      }
    }
    LastUsedIs(vout, b);
    NonZeroZeros(all, nBytes);
    assert all[..nBytes] == Mask(vout);
  }

  method AllSpent(vout: seq<TxOut>, p: nat) returns (zero: bool)
    ensures zero <==> forall k | p <= k < p + 8 :: !Available(vout, k)
  {
    zero := true;
    for i := 0 to 8
      invariant zero <==> forall k | p <= k < p + i :: !Available(vout, k)
    {
      assert Available(vout, p + i) <==> p + i < |vout| && !vout[p + i].IsNull();
      if p + i < |vout| && !vout[p + i].IsNull() { zero := false; }
    }
  }

  lemma ByteZero(vout: seq<TxOut>, b: nat)
    ensures MaskByte(vout, b) == 0 <==> forall k | 2 + b * 8 <= k < 2 + b * 8 + 8 :: !Available(vout, k)
  {
    BitsZero(vout, 2 + 8 * b, 8);
  }

  lemma NextBit(vout: seq<TxOut>, p: nat, n: nat)
    requires n > 0
    ensures BitsFrom(vout, p, n) == 2 * BitsFrom(vout, p + 1, n - 1) + if p < |vout| && !vout[p].IsNull() then 1 else 0
  {
  }

  /** Sets the bits of one byte from the last to the first. */
  method MakeByte(vout: seq<TxOut>, b: nat) returns (ch: nat)
    ensures ch == MaskByte(vout, b)
  {
    ch := 0;
    var p := 2 + 8 * b;
    for i := 8 downto 0
      invariant ch == BitsFrom(vout, p + i, 8 - i)
    {
      NextBit(vout, p + i, 8 - i);
      ch := 2 * ch + if p + i < |vout| && !vout[p + i].IsNull() then 1 else 0;
    }
  }

  method Serialize(c: Curve, coins: Coins) returns (out: Bytes)
    requires !coins.IsPruned() && CoinsFit(coins)
    ensures out == Write(c, coins)
  {
    hide BitsFrom, MaskByte, NonZero, VarInt, WriteOuts, Mask;
    var vout := coins.vout;
    var nMaskSize, nMaskCode := CalcMaskSize(vout);
    var first := |vout| > 0 && !vout[0].IsNull();
    var second := |vout| > 1 && !vout[1].IsNull();
    SomeByte(vout);
    assert first || second || nMaskCode != 0;
    var nCode := 8 * (nMaskCode - (if first || second then 0 else 1))
      + (if coins.coinbase then 1 else 0) + (if first then 2 else 0) + (if second then 4 else 0);
    var version := WriteVarInt(coins.version);
    var code := WriteVarInt(nCode);
    var mask := SerializeMask(vout, nMaskSize);
    var outs := SerializeOuts(c, vout);
    var height := WriteVarInt(coins.height);
    out := version + code + mask + outs + height;
  }

  method SerializeMask(vout: seq<TxOut>, nMaskSize: nat) returns (mask: Bytes)
    requires nMaskSize == |Mask(vout)|
    ensures mask == Mask(vout)
  {
    hide BitsFrom, MaskByte, LastUsed;
    mask := [];
    for b := 0 to nMaskSize
      invariant |mask| == b && forall k | 0 <= k < b :: mask[k] == MaskByte(vout, k)
    {
      var ch := MakeByte(vout, b);
      mask := mask + [ch];
    }
  }

  method SerializeOuts(c: Curve, vout: seq<TxOut>) returns (outs: Bytes)
    requires AllFit(vout)
    ensures outs == WriteOuts(c, vout, 0, |vout|)
  {
    hide WriteOut;
    outs := [];
    for i := 0 to |vout|
      invariant outs + WriteOuts(c, vout, i, |vout|) == WriteOuts(c, vout, 0, |vout|)
    {
      ghost var tail := WriteOuts(c, vout, i + 1, |vout|);
      if !vout[i].IsNull() {
        assert outs + (WriteOut(c, vout[i]) + tail) == outs + WriteOut(c, vout[i]) + tail;
        outs := outs + WriteOut(c, vout[i]);
      } else {
        assert WriteOuts(c, vout, i, |vout|) == tail;
      }
    }
  }

  /** Reads the mask and turns it into flags. */
  method UnserializeMask(s: Bytes, first: bool, second: bool, count: nat) returns (r: Read<seq<bool>>)
    ensures match ReadMask(s, count) case Short => r == Short case Read(mask, rest) => r == Read(Flags(first, second, mask), rest)
  {
    hide NthBit, Flags, ReadMask;
    var avail, n, rest := [first, second], count, s;
    ghost var done: Bytes := [];
    assert avail == Flags(first, second, done) by { NoFlags(first, second); }
    AfterNone(ReadMask(s, count));
    while n > 0
      invariant avail == Flags(first, second, done) && ReadMask(s, count) == After(done, ReadMask(rest, n))
      decreases |rest|
    {
      NextMaskByte(done, rest, n);
      if rest == [] { return Short; }
      var ch := rest[0];
      MoreFlags(first, second, done, ch);
      avail := avail + seq(8, p requires p >= 0 => NthBit(ch, p));
      done := done + [ch];
      if ch != 0 { n := n - 1; }
      rest := rest[1..];
    }
    AfterAll(done, rest);
    assert ReadMask(rest, 0) == Read([], rest) by { NoMask(rest); }
    return Read(avail, rest);
  }

  /** A sequence of which the first elements have been read. */
  function After<T>(done: seq<T>, r: Read<seq<T>>): Read<seq<T>> {
    match r
    case Short => Short
    case Read(more, rest) => Read(done + more, rest)
  }

  lemma AfterNone<T>(r: Read<seq<T>>)
    ensures After([], r) == r
  {
    if r.Read? { assert [] + r.value == r.value; }
  }

  lemma AfterNext<T>(done: seq<T>, x: T, r: Read<seq<T>>)
    ensures r.Read? ==> done + ([x] + r.value) == done + [x] + r.value
  {
  }

  lemma AfterAll<T>(done: seq<T>, rest: Bytes)
    ensures After(done, Read([], rest)) == Read(done, rest)
  {
    assert done + [] == done;
  }

  lemma NextMaskByte(done: Bytes, s: Bytes, n: nat)
    requires n > 0
    ensures After(done, ReadMask(s, n)) ==
            if s == [] then Short else After(done + [s[0]], ReadMask(s[1..], if s[0] != 0 then n - 1 else n))
  {
    if s != [] { AfterNext(done, s[0], ReadMask(s[1..], if s[0] != 0 then n - 1 else n)); }
  }

  lemma NoFlags(first: bool, second: bool)
    ensures Flags(first, second, []) == [first, second]
  {
  }

  lemma NoMask(s: Bytes)
    ensures ReadMask(s, 0) == Read([], s)
  {
  }

  lemma MoreFlags(first: bool, second: bool, mask: Bytes, b: Byte)
    ensures Flags(first, second, mask + [b]) == Flags(first, second, mask) + seq(8, p requires p >= 0 => NthBit(b, p))
  {
    hide NthBit;
  }

  /** Reads the outputs that the flags announce. */
  method UnserializeOuts(c: Curve, flags: seq<bool>, s: Bytes) returns (r: Read<seq<TxOut>>)
    ensures r == ReadOuts(c, flags, s)
  {
    hide ReadOut;
    var vout: seq<TxOut>, rest := [], s;
    AfterNone(ReadOuts(c, flags, s));
    assert flags[0..] == flags;
    for i := 0 to |flags|
      invariant ReadOuts(c, flags, s) == After(vout, ReadOuts(c, flags[i..], rest))
    {
      assert flags[i..][1..] == flags[i + 1..];
      var next := if flags[i] then ReadOut(c, rest) else Read(SPENT, rest);
      match next
      case Short => return Short;
      case Read(o, t) =>
        AfterNext(vout, o, ReadOuts(c, flags[i + 1..], t));
        vout, rest := vout + [o], t;
    }
    AfterAll(vout, rest);
    return Read(vout, rest);
  }

  method Unserialize(c: Curve, s: Bytes) returns (r: Read<Coins>)
    ensures r == ReadCoins(c, s)
  {
    hide Flags, ReadMask, ReadOuts, VarIntFrom, Cleanup;
    var version := ReadVarInt(s, W32);
    if version.Short? { return Short; }
    var nCode := ReadVarInt(version.rest, W32);
    if nCode.Short? { return Short; }
    var code := nCode.value;
    var flags := UnserializeMask(nCode.rest, code / 2 % 2 == 1, code / 4 % 2 == 1, code / 8 + if code % 8 / 2 != 0 then 0 else 1);
    if flags.Short? { return Short; }
    var vout := UnserializeOuts(c, flags.value, flags.rest);
    if vout.Short? { return Short; }
    var height := ReadVarInt(vout.rest, W32);
    if height.Short? { return Short; }
    return Read(Cleanup(Coins(code % 2 == 1, vout.value, ToSigned(height.value, W32), ToSigned(version.value, W32))), height.rest);
  }
}
