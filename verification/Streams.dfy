/** Bytes, and the variable-length integers of src/serialize.h: base 128, most significant digit
    first, with one subtracted at each step so that every number has one form. */
module Streams {

  datatype Option<T> = None | Some(value: T)

  type Byte = b: nat | b < 256

  type Bytes = seq<Byte>

  /** The outcome of reading from a stream: it ends too soon, or there is a value and the rest. */
  datatype Read<T> = Short | Read(value: T, rest: Bytes)

  /** The bytes before the last one. */
  function Cont(m: nat): Bytes { (if m < 128 then [] else Cont(m / 128 - 1)) + [m % 128 + 128] }

  /** A negative number is taken for one that fits the last byte. */
  function VarInt(n: int): Bytes { if n <= 127 then [n % 128] else Cont(n / 128 - 1) + [n % 128] }

  const W32: nat := 0x1_0000_0000
  const W64: nat := 0x1_0000_0000_0000_0000

  /** One more byte in an unsigned integer of m values, which wraps around. */
  function Shifted(acc: nat, b: Byte, m: nat): nat
    requires m > 0
  {
    (acc * 128 + b as nat % 128) % m
  }

  function Bumped(n: nat, m: nat): nat
    requires m > 0
  {
    (n + 1) % m
  }

  function VarIntFrom(acc: nat, s: Bytes, m: nat): Read<nat>
    requires m > 0
    decreases |s|
  {
    if s == [] then Short
    else if s[0] >= 128 then VarIntFrom(Bumped(Shifted(acc, s[0], m), m), s[1..], m)
    else Read(Shifted(acc, s[0], m), s[1..])
  }

  lemma NoWrap(n: nat, b: Byte, m: nat)
    requires n < m && b as nat % 128 == n % 128
    ensures Shifted(n / 128, b, m) == n && (n + 1 < m ==> Bumped(n, m) == n + 1)
  {
    SmallMod(n, m);
    SmallMod(n + 1, m);
    assert n / 128 * 128 + b as nat % 128 == n;
  }

  lemma SmallMod(n: nat, m: nat)
    ensures n < m ==> n % m == n
  {
  }

  lemma {:induction false} ContRead(k: nat, rest: Bytes, m: nat)
    requires k + 1 < m
    ensures VarIntFrom(0, Cont(k) + rest, m) == VarIntFrom(k + 1, rest, m)
    decreases k
  {
    hide Shifted, Bumped;
    var last: Byte := k % 128 + 128;
    NoWrap(k, last, m);
    if k < 128 {
      assert (Cont(k) + rest)[1..] == rest;
    } else {
      assert Cont(k) + rest == Cont(k / 128 - 1) + ([last] + rest);
      ContRead(k / 128 - 1, [last] + rest, m);
      assert ([last] + rest)[1..] == rest;
    }
  }

  /** What is written is read back, unless it is negative. */
  lemma VarIntRoundTrip(n: int, rest: Bytes, m: nat)
    requires m >= 128 && n < m
    ensures VarIntFrom(0, VarInt(n) + rest, m) == Read(if n >= 0 then n else n % 128, rest)
  {
    hide Shifted, Bumped;
    var last: Byte := n % 128;
    if n <= 127 {
      assert (VarInt(n) + rest)[1..] == rest;
      NoWrap(n % 128, last, m);
    } else {
      assert VarInt(n) + rest == Cont(n / 128 - 1) + ([last] + rest);
      ContRead(n / 128 - 1, [last] + rest, m);
      assert ([last] + rest)[1..] == rest;
      NoWrap(n, last, m);
    }
  }

  /** A number that the reader cannot hold comes back changed: the five bytes of 2^32 are read as 0
      into 32 bits. */
  lemma VarIntWraps(rest: Bytes)
    ensures VarIntFrom(0, VarInt(W32) + rest, W32) == Read(0, rest)
  {
    hide Cont, Shifted, Bumped;
    var k := W32 / 128 - 1;
    assert Shifted(k + 1, 0, W32) == 0 by { AllGone(); }
    assert VarInt(W32) + rest == Cont(k) + ([0] + rest);
    ContRead(k, [0] + rest, W32);
    assert ([0] + rest)[1..] == rest;
  }

  lemma AllGone()
    ensures Shifted(W32 / 128, 0, W32) == 0
  {
  }

  /** The digits are found from the last to the first. */
  method WriteVarInt(n: int) returns (out: Bytes)
    ensures out == VarInt(n)
  {
    hide Cont;
    out := [n % 128];
    var m := n;
    while m > 127
      invariant m >= 0 || m == n
      invariant VarInt(n) == Before(m) + out
    {
      Digit(m, out);
      m := m / 128 - 1;
      out := [m % 128 + 128] + out;
    }
  }

  function Before(m: int): Bytes { if m < 128 then [] else Cont(m / 128 - 1) }

  lemma Digit(m: int, out: Bytes)
    requires m > 127
    ensures var k := m / 128 - 1; Before(m) + out == Before(k) + ([k % 128 + 128] + out)
  {
  }

  method ReadVarInt(s: Bytes, m: nat) returns (r: Read<nat>)
    requires m > 0
    ensures r == VarIntFrom(0, s, m)
  {
    var n: nat, i: nat := 0, 0;
    while i < |s|
      invariant i <= |s| && VarIntFrom(n, s[i..], m) == VarIntFrom(0, s, m)
    {
      var ch := s[i];
      assert s[i..][1..] == s[i + 1..];
      n := Shifted(n, ch, m);
      i := i + 1;
      if ch >= 128 { n := Bumped(n, m); } else { return Read(n, s[i..]); }
    }
    return Short;
  }
}
