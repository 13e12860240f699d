/** Base58 text for bytes (src/base58.cpp). */
module Base58 {
  import opened Powers
  import opened Radix
  import opened Streams

  // ------------------------------------------------------------------- alphabet

  const ALPHABET := "123456789ABCDEFGHJKLMN" + "PQRSTUVWXYZ" + "abcdefghijkmnopqrstuvwxyz"

  /** All digits and letters except 0, I, O and l, in ranges. */
  function Symbol(d: nat): char
    requires d < 58
  {
    if d < 9 then '1' + d as char
    else if d < 17 then 'A' + (d - 9) as char
    else if d < 22 then 'J' + (d - 17) as char
    else if d < 33 then 'P' + (d - 22) as char
    else if d < 44 then 'a' + (d - 33) as char
    else 'm' + (d - 44) as char
  }

  lemma Alphabet(d: nat)
    requires d < 58
    ensures |ALPHABET| == 58 && ALPHABET[d] == Symbol(d)
  {
    if d < 22 {
      assert ALPHABET[d] == "123456789ABCDEFGHJKLMN"[d];
    } else if d < 33 {
      assert ALPHABET[d] == "PQRSTUVWXYZ"[d - 22];
    } else {
      assert ALPHABET[d] == "abcdefghijkmnopqrstuvwxyz"[d - 33];
    }
  }

  ghost predicate IsSymbol(c: char) { exists d: nat | d < 58 :: Symbol(d) == c }

  ghost function Digit(c: char): (d: nat)
    requires IsSymbol(c)
    ensures d < 58 && Symbol(d) == c
  {
    var d: nat :| d < 58 && Symbol(d) == c; d
  }

  lemma SymbolOnce(d: nat, e: nat)
    requires d < 58 && e < 58 && Symbol(d) == Symbol(e)
    ensures d == e
  {
  }

  predicate IsSpace(c: char) { c == ' ' || '\t' <= c <= '\r' }

  lemma SymbolsAreNotSpaces(c: char)
    requires IsSymbol(c)
    ensures !IsSpace(c)
  {
  }

  /** strchr: the position of a character in the alphabet, or -1. */
  method Strchr(c: char) returns (r: int)
    ensures IsSymbol(c) ==> r == Digit(c)
    ensures !IsSymbol(c) ==> r == -1
  {
    hide Symbol;
    for i := 0 to 58
      invariant forall d: nat | d < i :: Symbol(d) != c
    {
      Alphabet(i);
      if ALPHABET[i] == c {
        SymbolOnce(i, Digit(c));
        return i;
      }
    }
    return -1;
  }

  // ----------------------------------------------------------------------- text

  function Text(s: seq<nat>): (r: string)
    requires InBase(58, s)
    ensures |r| == |s|
  {
    seq(|s|, i requires 0 <= i < |s| => Symbol(s[i]))
  }

  ghost predicate Symbols(w: string) { forall i | 0 <= i < |w| :: IsSymbol(w[i]) }

  predicate Spaces(w: string) { forall i | 0 <= i < |w| :: IsSpace(w[i]) }

  ghost function DigitsOf(w: string): (r: seq<nat>)
    requires Symbols(w)
    ensures |r| == |w| && InBase(58, r)
  {
    seq(|w|, i requires 0 <= i < |w| => Digit(w[i]))
  }

  /** The text of some bytes. */
  ghost function Encode(b: seq<nat>): (r: string)
    requires InBase(256, b)
  {
    RoundTrip(256, 58, b);
    Text(Recode(256, 58, b))
  }

  /** The number of characters before the first that is, or is not, a space. */
  function Run(s: string, spaces: bool): (n: nat)
    ensures n <= |s|
  {
    if s != [] && IsSpace(s[0]) == spaces then 1 + Run(s[1..], spaces) else 0
  }

  /** What a text stands for: one word of symbols, with spaces around it. */
  ghost function Decode(s: string): Option<seq<nat>> {
    var t := s[Run(s, true)..];
    var w := t[..Run(t, false)];
    if Symbols(w) && Spaces(t[|w|..]) then Some(Recode(58, 256, DigitsOf(w))) else None
  }

  // ---------------------------------------------------------------- round trips

  lemma TextDigits(s: seq<nat>)
    requires InBase(58, s)
    ensures Symbols(Text(s)) && DigitsOf(Text(s)) == s
  {
    hide Symbol;
    forall i | 0 <= i < |s| ensures IsSymbol(Text(s)[i]) && Digit(Text(s)[i]) == s[i] {
      assert Symbol(s[i]) == Text(s)[i];
      SymbolOnce(s[i], Digit(Text(s)[i]));
    }
  }

  lemma DigitsText(w: string)
    requires Symbols(w)
    ensures Text(DigitsOf(w)) == w
  {
  }

  lemma {:induction false} RunIs(lead: string, t: string, spaces: bool)
    requires forall i | 0 <= i < |lead| :: IsSpace(lead[i]) == spaces
    requires t != [] ==> IsSpace(t[0]) != spaces
    ensures Run(lead + t, spaces) == |lead|
  {
    if lead == [] {
      assert lead + t == t;
    } else {
      assert (lead + t)[1..] == lead[1..] + t;
      RunIs(lead[1..], t, spaces);
    }
  }

  lemma {:induction false} RunSplit(s: string, spaces: bool)
    ensures var n := Run(s, spaces);
            (forall i | 0 <= i < n :: IsSpace(s[i]) == spaces) && (n < |s| ==> IsSpace(s[n]) != spaces)
  {
    if s != [] && IsSpace(s[0]) == spaces {
      RunSplit(s[1..], spaces);
      var n := Run(s, spaces);
      forall i | 0 <= i < n ensures IsSpace(s[i]) == spaces { if i > 0 { assert s[i] == s[1..][i - 1]; } }
    }
  }

  /** A word of symbols between spaces is what is decoded. */
  lemma DecodeWord(lead: string, w: string, trail: string)
    requires Spaces(lead) && Symbols(w) && Spaces(trail)
    ensures Decode(lead + w + trail) == Some(Recode(58, 256, DigitsOf(w)))
  {
    forall i | 0 <= i < |w| ensures !IsSpace(w[i]) { SymbolsAreNotSpaces(w[i]); }
    hide IsSpace, IsSymbol, Recode;
    var s := lead + w + trail;
    if w == [] {
      assert s == lead + trail + [];
      RunIs(lead + trail, [], true);
      assert s[|s|..] == [];
      assert w == s[|s|..][..0];
    } else {
      var t := w + trail;
      assert s == lead + t;
      RunIs(lead, t, true);
      assert s[|lead|..] == t;
      RunIs(w, trail, false);
      assert t[..|w|] == w && t[|w|..] == trail;
    }
  }

  /** Decoding undoes encoding, and succeeds exactly on encoded text with spaces around it. */
  lemma DecodeEncode(lead: string, b: seq<nat>, trail: string)
    requires InBase(256, b) && Spaces(lead) && Spaces(trail)
    ensures Decode(lead + Encode(b) + trail) == Some(b)
  {
    hide Recode;
    RoundTrip(256, 58, b);
    TextDigits(Recode(256, 58, b));
    DecodeWord(lead, Encode(b), trail);
  }

  lemma EncodeDecode(s: string) returns (lead: string, trail: string)
    requires Decode(s).Some?
    ensures Spaces(lead) && Spaces(trail) && InBase(256, Decode(s).value) && s == lead + Encode(Decode(s).value) + trail
  {
    hide Recode;
    var n := Run(s, true);
    var t := s[n..];
    var k := Run(t, false);
    var w := t[..k];
    RunSplit(s, true);
    lead, trail := s[..n], t[k..];
    RoundTrip(58, 256, DigitsOf(w));
    DigitsText(w);
    assert s == lead + w + trail;
  }

  // -------------------------------------------------------------------- buffers

  /** Only the last `length` digits of the buffer are in use. */
  ghost predicate Buffer(c: nat, b: seq<nat>, length: nat) {
    length <= |b| && InBase(c, b) && forall i | 0 <= i < |b| - length :: b[i] == 0
  }

  /** The digits from position j on have been updated. */
  ghost predicate Partial(x: seq<nat>, y: seq<nat>, a: nat, c: nat, digit: nat, i: nat, carry: nat) {
    && |x| == |y| && i <= |x| && InBase(c, y) && carry < a && y[..|x| - i] == x[..|x| - i]
    && Num(c, y[|x| - i..]) + carry * Pow(c, i) == Num(c, x[|x| - i..]) * a + digit
  }

  lemma NumFront(c: nat, s: seq<nat>, j: nat)
    requires j < |s|
    ensures Num(c, s[j..]) == s[j] * Pow(c, |s| - j - 1) + Num(c, s[j + 1..])
  {
    assert s[j..] == [s[j]] + s[j + 1..];
    NumConcat(c, [s[j]], s[j + 1..]);
    assert [s[j]][..0] == [];
  }

  lemma CarryOn(x: seq<nat>, y: seq<nat>, y': seq<nat>, a: nat, c: nat, digit: nat, i: nat, carry: nat, n: nat)
    requires c >= 2 && InBase(c, x) && Partial(x, y, a, c, digit, i, carry) && i < |x|
    requires n == carry + a * x[|x| - i - 1] && y' == y[|x| - i - 1 := n % c]
    ensures Partial(x, y', a, c, digit, i + 1, n / c)
  {
    hide Num, Pow;
    var j := |x| - i - 1;
    NumFront(c, x, j);
    NumFront(c, y', j);
    assert y'[j + 1..] == y[j + 1..] && y'[..j] == x[..j];
    CarryTerm(n, c, Pow(c, i), carry, a, x[j]);
    NextPow(c, i);
    MulDistrib(x[j] * Pow(c, i), Num(c, x[j + 1..]), a);
    SmallCarry(n, carry, a, c, x[j]);
  }

  lemma NextPow(c: nat, i: nat)
    ensures Pow(c, i + 1) == c * Pow(c, i)
  {
  }

  lemma CarryTerm(n: nat, c: nat, p: nat, carry: nat, a: nat, d: nat)
    requires c >= 2 && n == carry + a * d
    ensures n % c * p + n / c * (c * p) == carry * p + d * p * a
  {
    Quotient(n, c);
    MulAssoc(n / c, c, p);
    MulDistrib(n / c * c, n % c, p);
    MulDistrib(carry, a * d, p);
    assert a * d * p == d * p * a;
  }

  lemma SmallCarry(n: nat, carry: nat, a: nat, c: nat, d: nat)
    requires c >= 2 && n == carry + a * d && carry < a && d < c
    ensures n / c < a && n % c < c
  {
    Quotient(n, c);
    MulMono(a, d, c - 1);
    if n / c >= a { MulMono(c, a, n / c); }
  }

  /** The inner loop of both conversions: the number in the buffer times a, plus a digit. */
  method MulAdd(buf: array<nat>, length: nat, a: nat, c: nat, digit: nat) returns (used: nat)
    requires 2 <= c && digit < a && Buffer(c, buf[..], length) && Num(c, buf[..]) * a + digit < Pow(c, buf.Length)
    modifies buf
    ensures Buffer(c, buf[..], used) && Num(c, buf[..]) == old(Num(c, buf[..])) * a + digit
  {
    hide Num, Pow;
    ghost var x := buf[..];
    var carry: nat, i: nat := digit, 0;
    NoDigits(x, a, c, digit);
    hide Partial;
    while (carry != 0 || i < length) && i < buf.Length
      invariant i <= buf.Length && Partial(x, buf[..], a, c, digit, i, carry)
      decreases buf.Length - i
    {
      carry := CarryDigit(buf, x, a, c, digit, i, carry);
      i := i + 1;
    }
    Finished(x, buf[..], length, a, c, digit, i, carry);
    assert carry == 0;
    used := i;
  }

  /** One digit of the buffer. */
  method CarryDigit(buf: array<nat>, ghost x: seq<nat>, a: nat, c: nat, ghost digit: nat, i: nat, carry: nat) returns (carry': nat)
    requires c >= 2 && InBase(c, x) && i < buf.Length && Partial(x, buf[..], a, c, digit, i, carry)
    modifies buf
    ensures Partial(x, buf[..], a, c, digit, i + 1, carry')
  {
    hide Num, Pow;
    ghost var y := buf[..];
    var j := buf.Length - 1 - i;
    assert y[j] == y[..|x| - i][j] == x[..|x| - i][j];
    var n := carry + a * buf[j];
    buf[j] := n % c;
    carry' := n / c;
    assert buf[..] == y[j := n % c];
    CarryOn(x, y, buf[..], a, c, digit, i, carry, n);
  }

  lemma NoDigits(x: seq<nat>, a: nat, c: nat, digit: nat)
    requires InBase(c, x) && digit < a
    ensures Partial(x, x, a, c, digit, 0, digit)
  {
    assert x[|x|..] == [];
  }

  /** The loop stops with no carry left over. */
  lemma Finished(x: seq<nat>, y: seq<nat>, length: nat, a: nat, c: nat, digit: nat, i: nat, carry: nat)
    requires Buffer(c, x, length) && Partial(x, y, a, c, digit, i, carry) && i <= |x|
    requires i == |x| || (carry == 0 && i >= length)
    requires Num(c, x) * a + digit < Pow(c, |x|)
    ensures carry == 0 && Buffer(c, y, i) && Num(c, y) == Num(c, x) * a + digit
  {
    hide Num, Pow;
    if i == |x| {
      FinishedFull(x, y, a, c, digit, carry);
    } else {
      hide Partial;
      FinishedEarly(x, y, a, c, digit, i);
    }
  }

  lemma FinishedFull(x: seq<nat>, y: seq<nat>, a: nat, c: nat, digit: nat, carry: nat)
    requires Partial(x, y, a, c, digit, |x|, carry) && Num(c, x) * a + digit < Pow(c, |x|)
    ensures carry == 0 && Buffer(c, y, |x|) && Num(c, y) == Num(c, x) * a + digit
  {
    hide Num, Pow;
    assert x[0..] == x && y[0..] == y;
    NoCarry(Num(c, y), carry, Pow(c, |x|), Num(c, x) * a + digit);
  }

  lemma FinishedEarly(x: seq<nat>, y: seq<nat>, a: nat, c: nat, digit: nat, i: nat)
    requires Buffer(c, x, i) && Partial(x, y, a, c, digit, i, 0)
    ensures Buffer(c, y, i) && Num(c, y) == Num(c, x) * a + digit
  {
    hide Num, Pow;
    Untouched(x, y, |x| - i);
    Unused(c, x, i);
    Unused(c, y, i);
  }

  lemma NoCarry(y: nat, carry: nat, p: nat, total: nat)
    requires y + carry * p == total < p
    ensures carry == 0 && y == total
  {
    if carry > 0 { MulMono(p, 1, carry); }
  }

  /** The digits that are not in use do not count. */
  lemma Unused(c: nat, x: seq<nat>, i: nat)
    requires i <= |x| && forall k | 0 <= k < |x| - i :: x[k] == 0
    ensures Num(c, x) == Num(c, x[|x| - i..])
  {
    hide Num;
    var j := |x| - i;
    assert x == Radix.Zeros(j) + x[j..];
    NumPadded(c, j, x[j..]);
  }

  lemma Untouched(x: seq<nat>, y: seq<nat>, j: nat)
    requires j <= |x| == |y| && x[..j] == y[..j]
    ensures forall k | 0 <= k < j :: y[k] == x[k]
  {
    forall k | 0 <= k < j ensures y[k] == x[k] { assert y[..j][k] == x[..j][k]; }
  }

  /** Skips the leading zeros of the part in use. */
  method Significant(buf: array<nat>, length: nat, c: nat) returns (r: seq<nat>)
    requires 2 <= c && Buffer(c, buf[..], length)
    ensures r == Digits(c, Num(c, buf[..])) && InBase(c, r)
  {
    hide Num, Digits;
    var p := buf.Length - length;
    while p < buf.Length && buf[p] == 0
      invariant p <= buf.Length && forall i | 0 <= i < p :: buf[i] == 0
    {
      p := p + 1;
    }
    r := buf[p..];
    assert buf[..] == Radix.Zeros(p) + r;
    NumPadded(c, p, r);
    NumDigits(c, r);
  }

  /** Capacity for the digits read so far is capacity for one of them less. */
  lemma Room(s: seq<nat>, j: nat, a: nat, c: nat, size: nat)
    requires j < |s| && a >= 1 && InBase(a, s) && Pow(a, |s|) <= Pow(c, size)
    ensures Num(a, s[..j]) * a + s[j] == Num(a, s[..j + 1]) < Pow(c, size)
  {
    NumNext(a, s, j);
    NumBound(a, s[..j + 1]);
    PowMono(a, j + 1, |s|);
  }

  // ---------------------------------------------------------------- the methods

  method EncodeBase58(bytes: seq<nat>) returns (r: string)
    requires InBase(256, bytes)
    ensures r == Encode(bytes)
  {
    hide Num, Digits, Pow, Symbol;
    var zeroes: nat := 0;
    while zeroes < |bytes| && bytes[zeroes] == 0
      invariant zeroes <= |bytes| && forall i | 0 <= i < zeroes :: bytes[i] == 0
    {
      zeroes := zeroes + 1;
    }
    var rest := bytes[zeroes..];
    var size := |rest| * 138 / 100 + 1;
    RoomFor58(|rest|);
    var b58 := new nat[size](i => 0);
    EmptyBuffer(b58[..], 58);
    var length := 0;
    assert rest[..0] == [];
    for j := 0 to |rest|
      invariant Buffer(58, b58[..], length) && Num(58, b58[..]) == Num(256, rest[..j])
    {
      Room(rest, j, 256, 58, size);
      length := MulAdd(b58, length, 256, 58, rest[j]);
    }
    assert rest[..|rest|] == rest;
    var digits := Significant(b58, length, 58);
    Split(256, 58, zeroes, rest);
    assert bytes == Radix.Zeros(zeroes) + rest;
    r := Text(Radix.Zeros(zeroes)) + Text(digits);
  }

  lemma EmptyBuffer(b: seq<nat>, c: nat)
    requires c >= 2 && forall i | 0 <= i < |b| :: b[i] == 0
    ensures Buffer(c, b, 0) && forall a :: Num(c, b) == Num(a, [])
  {
    NumZeros(c, |b|);
    assert b == Radix.Zeros(|b|);
  }

  /** Leading zeros and the rest are converted separately. */
  lemma Split(a: nat, c: nat, k: nat, rest: seq<nat>)
    requires c >= 2 && (rest != [] ==> rest[0] != 0)
    ensures Recode(a, c, Radix.Zeros(k) + rest) == Radix.Zeros(k) + Digits(c, Num(a, rest))
  {
    LeadingPadded(k, rest);
    NumPadded(a, k, rest);
  }

  /** s[p..q] is the word of the text. */
  ghost predicate WordAt(s: string, p: nat, q: nat) {
    && p <= q <= |s|
    && (forall i | 0 <= i < p :: IsSpace(s[i])) && (p < |s| ==> !IsSpace(s[p]))
    && (forall i | p <= i < q :: !IsSpace(s[i])) && (q < |s| ==> IsSpace(s[q]))
  }

  lemma DecodeIs(s: string, p: nat, q: nat)
    requires WordAt(s, p, q)
    ensures Decode(s) == if Symbols(s[p..q]) && Spaces(s[q..]) then Some(Recode(58, 256, DigitsOf(s[p..q]))) else None
  {
    hide IsSpace, IsSymbol, Recode;
    assert s == s[..p] + s[p..];
    RunIs(s[..p], s[p..], true);
    var t := s[p..];
    assert t == s[p..q] + s[q..];
    RunIs(s[p..q], s[q..], false);
    assert t[..q - p] == s[p..q] && t[q - p..] == s[q..];
  }

  /** A character of the word that is no symbol. */
  lemma DecodeFails(s: string, p: nat, q: nat)
    requires p <= q < |s| && (forall i | 0 <= i < p :: IsSpace(s[i])) && (forall i | p <= i <= q :: !IsSpace(s[i]))
    requires !IsSymbol(s[q])
    ensures Decode(s) == None
  {
    hide IsSpace, IsSymbol, Recode;
    var t := s[p..];
    RunSplit(t, false);
    var n := Run(t, false);
    forall i | p <= i < p + n ensures !IsSpace(s[i]) { assert s[i] == t[i - p]; }
    assert p + n < |s| ==> s[p + n] == t[n];
    DecodeIs(s, p, p + n);
    assert s[p..p + n][q - p] == s[q];
  }

  /** The digits of the word after its leading ones. */
  lemma WordDigits(s: string, p: nat, mid: nat, q: nat)
    requires p <= mid <= q <= |s| && Symbols(s[mid..q]) && (forall i | p <= i < mid :: s[i] == '1') && (mid < q ==> s[mid] != '1')
    ensures Symbols(s[p..q]) && DigitsOf(s[p..q]) == Radix.Zeros(mid - p) + DigitsOf(s[mid..q])
    ensures mid < q ==> DigitsOf(s[mid..q])[0] != 0
  {
    assert Symbol(0) == '1';
    SymbolOnce(0, Digit('1'));
    hide Symbol;
    var w, v := s[p..q], s[mid..q];
    forall i | 0 <= i < |w| ensures IsSymbol(w[i]) { if i >= mid - p { assert w[i] == v[i - (mid - p)]; } }
    forall i | 0 <= i < |w| ensures DigitsOf(w)[i] == (Radix.Zeros(mid - p) + DigitsOf(v))[i] {
      if i >= mid - p { assert w[i] == v[i - (mid - p)]; }
    }
  }

  lemma RoomForWord(v: seq<nat>, d: nat, n: nat, size: nat)
    requires InBase(58, v) && d < 58 && |v| < n && Pow(58, n) <= Pow(256, size)
    ensures Num(58, v) * 58 + d == Num(58, v + [d]) < Pow(256, size)
  {
    assert (v + [d])[..|v|] == v;
    NumBound(58, v + [d]);
    PowMono(58, |v| + 1, n);
  }

  /** Reads the symbols of the word from mid on; fails at the first other character. */
  method ReadWord(s: string, mid: nat) returns (ok: bool, q: nat, out: seq<nat>)
    requires mid <= |s|
    ensures mid <= q <= |s| && forall i | mid <= i < q :: !IsSpace(s[i])
    ensures !ok ==> q < |s| && !IsSpace(s[q]) && !IsSymbol(s[q])
    ensures ok ==> (q < |s| ==> IsSpace(s[q])) && Symbols(s[mid..q]) && out == Digits(256, Num(58, DigitsOf(s[mid..q]))) && InBase(256, out)
  {
    hide Num, Digits, Pow, IsSpace, IsSymbol;
    var size := (|s| - mid) * 733 / 1000 + 1;
    RoomFor256(|s| - mid);
    var b256 := new nat[size](i => 0);
    EmptyBuffer(b256[..], 256);
    var length := 0;
    q, out := mid, [];
    assert DigitsOf(s[mid..mid]) == [];
    while q < |s| && !IsSpace(s[q])
      invariant mid <= q <= |s| && (forall i | mid <= i < q :: !IsSpace(s[i])) && Symbols(s[mid..q])
      invariant Buffer(256, b256[..], length) && Num(256, b256[..]) == Num(58, DigitsOf(s[mid..q]))
      decreases |s| - q
    {
      var d := Strchr(s[q]);
      if d < 0 { return false, q, []; }
      assert s[mid..q + 1] == s[mid..q] + [s[q]];
      assert DigitsOf(s[mid..q + 1]) == DigitsOf(s[mid..q]) + [d];
      RoomForWord(DigitsOf(s[mid..q]), d, |s| - mid, size);
      length := MulAdd(b256, length, 58, 256, d);
      q := q + 1;
    }
    ok := true;
    out := Significant(b256, length, 256);
  }

  /** DecodeBase58 of a C string. */
  method DecodeBase58(s: string) returns (r: Option<seq<nat>>)
    requires '\0' !in s
    ensures r == Decode(s)
  {
    hide Num, Digits, IsSpace, IsSymbol, Recode, Decode;
    var p := SkipSpaces(s, 0);
    var zeroes := CountOnes(s, p);
    OneIsNoSpace();
    var ok, q, digits := ReadWord(s, p + zeroes);
    if !ok {
      DecodeFails(s, p, q);
      return None;
    }
    DecodeIs(s, p, q);
    WordDigits(s, p, p + zeroes, q);
    var end := SkipSpaces(s, q);
    if end != |s| {
      assert s[q..][end - q] == s[end];
      return None;
    }
    Split(58, 256, zeroes, DigitsOf(s[p + zeroes..q]));
    return Some(Radix.Zeros(zeroes) + digits);
  }

  method SkipSpaces(s: string, start: nat) returns (p: nat)
    requires start <= |s|
    ensures start <= p <= |s| && (forall i | start <= i < p :: IsSpace(s[i])) && (p < |s| ==> !IsSpace(s[p]))
  {
    p := start;
    while p < |s| && IsSpace(s[p])
      invariant start <= p <= |s| && forall i | start <= i < p :: IsSpace(s[i])
    {
      p := p + 1;
    }
  }

  method CountOnes(s: string, p: nat) returns (zeroes: nat)
    requires p <= |s|
    ensures p + zeroes <= |s| && (forall i | p <= i < p + zeroes :: s[i] == '1') && (p + zeroes < |s| ==> s[p + zeroes] != '1')
  {
    zeroes := 0;
    while p + zeroes < |s| && s[p + zeroes] == '1'
      invariant p + zeroes <= |s| && forall i | p <= i < p + zeroes :: s[i] == '1'
    {
      zeroes := zeroes + 1;
    }
  }

  lemma OneIsNoSpace()
    ensures !IsSpace('1')
  {
  }

  /** DecodeBase58 of a string object, which is read up to its first null character. */
  method DecodeString(str: string) returns (r: Option<seq<nat>>)
    ensures exists n | 0 <= n <= |str| && '\0' !in str[..n] && (n < |str| ==> str[n] == '\0') :: r == Decode(str[..n])
  {
    var n: nat := 0;
    while n < |str| && str[n] != '\0'
      invariant n <= |str| && '\0' !in str[..n]
    {
      assert str[..n + 1] == str[..n] + [str[n]];
      n := n + 1;
    }
    r := DecodeBase58(str[..n]);
  }
}
