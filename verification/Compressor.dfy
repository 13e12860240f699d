/** Compact scripts (src/compressor.cpp, src/compressor.h). */
module Compressor {
  import opened Streams

  const MAX_SCRIPT_SIZE: nat := 10000

  const OP_RETURN: Byte := 0x6a
  const OP_DUP: Byte := 0x76
  const OP_EQUAL: Byte := 0x87
  const OP_EQUALVERIFY: Byte := 0x88
  const OP_HASH160: Byte := 0xa9
  const OP_CHECKSIG: Byte := 0xac
  const SPECIAL_SCRIPTS: nat := 6

  /** The curve: which keys of 65 bytes are valid, and the key of 65 bytes for one of 33. */
  datatype Curve = Curve(valid: Bytes -> bool, expand: Bytes -> Option<Bytes>)

  /** A valid key is determined by its first coordinate and the parity of the second. */
  ghost predicate Sound(c: Curve) {
    forall p: Bytes | |p| == 65 && p[0] == 4 && c.valid(p) :: c.expand([2 + p[64] % 2] + p[1..33]) == Some(p)
  }

  predicate IsToKeyID(s: Bytes) {
    |s| == 25 && s[0] == OP_DUP && s[1] == OP_HASH160 && s[2] == 20 && s[23] == OP_EQUALVERIFY && s[24] == OP_CHECKSIG
  }

  predicate IsToScriptID(s: Bytes) { |s| == 23 && s[0] == OP_HASH160 && s[1] == 20 && s[22] == OP_EQUAL }

  predicate IsToShortKey(s: Bytes) { |s| == 35 && s[0] == 33 && s[34] == OP_CHECKSIG && (s[1] == 2 || s[1] == 3) }

  predicate IsToLongKey(c: Curve, s: Bytes) {
    |s| == 67 && s[0] == 65 && s[66] == OP_CHECKSIG && s[1] == 4 && c.valid(s[1..66])
  }

  /** The short form of the special scripts. */
  function ShortForm(c: Curve, s: Bytes): Option<Bytes> {
    if IsToKeyID(s) then Some([0] + s[3..23])
    else if IsToScriptID(s) then Some([1] + s[2..22])
    else if IsToShortKey(s) then Some([s[1]] + s[2..34])
    else if IsToLongKey(c, s) then Some([4 + s[65] % 2] + s[2..34])
    else None
  }

  function SpecialSize(n: nat): nat { if n <= 1 then 20 else if n <= 5 then 32 else 0 }

  /** The script of a special form; none if the key does not exist. */
  function Expand(c: Curve, n: nat, data: Bytes): Option<Bytes>
    requires n < SPECIAL_SCRIPTS && |data| == SpecialSize(n)
  {
    if n == 0 then Some([OP_DUP, OP_HASH160, 20] + data + [OP_EQUALVERIFY, OP_CHECKSIG])
    else if n == 1 then Some([OP_HASH160, 20] + data + [OP_EQUAL])
    else if n <= 3 then Some([33, n] + data + [OP_CHECKSIG])
    else match c.expand([n - 2] + data)
         case None => None
         case Some(key) => Some([65] + key + [OP_CHECKSIG])
  }

  function WriteScript(c: Curve, s: Bytes): Bytes {
    match ShortForm(c, s)
    case Some(short) => short
    case None => VarInt(|s| + SPECIAL_SCRIPTS) + s
  }

  /** Reads into an empty script.  One that is too long is skipped, and a short invalid one stands
      in for it; a size of 2^31 or more cannot be skipped. */
  function ReadScript(c: Curve, s: Bytes): Read<Bytes> {
    match VarIntFrom(0, s, W32)
    case Short => Read.Short
    case Read(n, rest) =>
      if n < SPECIAL_SCRIPTS then
        var size := SpecialSize(n);
        if |rest| < size then Read.Short
        else Read(match Expand(c, n, rest[..size]) case None => [] case Some(script) => script, rest[size..])
      else
        var size := n - SPECIAL_SCRIPTS;
        if |rest| < size || size >= W32 / 2 then Read.Short
        else Read(if size > MAX_SCRIPT_SIZE then [OP_RETURN] else rest[..size], rest[size..])
  }

  lemma ReadSpecial(c: Curve, n: Byte, data: Bytes, rest: Bytes)
    requires n < SPECIAL_SCRIPTS && |data| == SpecialSize(n)
    ensures ReadScript(c, [n] + data + rest) == Read(match Expand(c, n, data) case None => [] case Some(script) => script, rest)
  {
    hide Shifted, Bumped, Expand;
    var s := [n] + data + rest;
    assert s[1..] == data + rest;
    NoWrap(n as nat, n, W32);
    assert VarIntFrom(0, s, W32) == Read(n as nat, data + rest);
    assert (data + rest)[..|data|] == data && (data + rest)[|data|..] == rest;
  }

  /** The special forms are undone. */
  lemma ShortRoundTrip(c: Curve, s: Bytes)
    requires Sound(c) && ShortForm(c, s).Some?
    ensures var t := ShortForm(c, s).value;
            t != [] && t[0] < SPECIAL_SCRIPTS && |t| == 1 + SpecialSize(t[0]) && Expand(c, t[0], t[1..]) == Some(s)
  {
    var t := ShortForm(c, s).value;
    if IsToKeyID(s) {
      assert t[1..] == s[3..23];
      assert s == [OP_DUP, OP_HASH160, 20] + s[3..23] + [OP_EQUALVERIFY, OP_CHECKSIG];
    } else if IsToScriptID(s) {
      assert t[1..] == s[2..22];
      assert s == [OP_HASH160, 20] + s[2..22] + [OP_EQUAL];
    } else if IsToShortKey(s) {
      assert t[1..] == s[2..34];
      assert s == [33, s[1]] + s[2..34] + [OP_CHECKSIG];
    } else {
      LongKey(c, s, t);
    }
  }

  lemma LongKey(c: Curve, s: Bytes, t: Bytes)
    requires Sound(c) && IsToLongKey(c, s) && t == [4 + s[65] % 2] + s[2..34]
    ensures Expand(c, t[0], t[1..]) == Some(s)
  {
    var key := s[1..66];
    assert t[1..] == s[2..34] == key[1..33] && key[64] == s[65];
    assert c.expand([2 + key[64] % 2] + key[1..33]) == Some(key);
    assert s == [65] + key + [OP_CHECKSIG];
  }

  lemma Sizes(c: Curve, s: Bytes)
    requires ShortForm(c, s).Some?
    ensures |s| <= MAX_SCRIPT_SIZE
  {
  }

  /** A script is read back just as it was, unless it is longer than any that can be spent. */
  lemma ScriptRoundTrip(c: Curve, s: Bytes, rest: Bytes)
    requires Sound(c) && |s| < W32 / 2
    ensures ReadScript(c, WriteScript(c, s) + rest) == Read(if |s| <= MAX_SCRIPT_SIZE then s else [OP_RETURN], rest)
  {
    hide Sound, ShortForm, Expand, VarInt, VarIntFrom;
    match ShortForm(c, s)
    case Some(t) =>
      ShortRoundTrip(c, s);
      Sizes(c, s);
      assert t + rest == [t[0]] + t[1..] + rest;
      ReadSpecial(c, t[0], t[1..], rest);
    case None =>
      var n := |s| + SPECIAL_SCRIPTS;
      assert WriteScript(c, s) + rest == VarInt(n) + (s + rest);
      VarIntRoundTrip(n, s + rest, W32);
      assert (s + rest)[..|s|] == s && (s + rest)[|s|..] == rest;
  }
}
