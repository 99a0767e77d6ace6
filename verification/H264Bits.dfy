/**
 * Reading an H.264 bitstream: fixed-length, unsigned and signed Exp-Golomb codes
 * (sections 7.2, 9.1 and 9.1.1 of ITU-T H.264), and the codes they undo.
 */
module H264Bits {
  import opened Bytes

  type Bits = seq<bool>

  const UINT32 := 0x1_0000_0000

  // ----- bytes as bits -----

  /** Bit `i` of a byte, counted from the most significant. */
  function BitAt(b: Byte, i: nat): bool
    requires i < 8
  {
    b / Pow2(7 - i) % 2 == 1
  }

  function ByteBits(b: Byte): (s: Bits)
    ensures |s| == 8
  {
    seq(8, i requires 0 <= i < 8 => BitAt(b, i))
  }

  function BitsOf(data: Text): (s: Bits)
    ensures |s| == 8 * |data|
  {
    if data == [] then [] else ByteBits(data[0]) + BitsOf(data[1..])
  }

  // ----- what the readers answer -----

  datatype Read<+T> = Read(value: T, rest: Bits)

  function Bit(b: bool): nat {
    if b then 1 else 0
  }

  /** The number whose binary digits are `s`. */
  function Value(s: Bits): nat {
    if s == [] then 0 else 2 * Value(s[..|s| - 1]) + Bit(s[|s| - 1])
  }

  function Taken(s: Bits, n: nat): nat {
    if n <= |s| then n else |s|
  }

  /** Up to `n` bits, fewer when the data ends. */
  function ReadU(s: Bits, n: nat): Read<nat> {
    Read(Value(s[..Taken(s, n)]), s[Taken(s, n)..])
  }

  /** One bit, or 0 when the data has ended. */
  function ReadFlag(s: Bits): Read<bool> {
    if s == [] then Read(false, s) else Read(s[0], s[1..])
  }

  /** Zeros before the first one; the one is read too.  Gives up after 33 zeros. */
  function LeadingZeros(s: Bits, seen: nat): (r: Read<nat>)
    requires seen <= 32
    ensures r.value <= 33 && |r.rest| <= |s|
    decreases |s|
  {
    if s == [] then Read(seen, s)
    else if s[0] then Read(seen, s[1..])
    else if seen == 32 then Read(33, s[1..])
    else LeadingZeros(s[1..], seen + 1)
  }

  /** `1U << n`; C leaves a shift by 32 undefined, the target then shifts by 0. */
  function ShiftedOne(n: nat): nat
    requires n <= 32
  {
    if n == 32 then 1 else Pow2(n)
  }

  function ReadUe(s: Bits): (r: Read<nat>)
    ensures r.value < UINT32
  {
    AfterZeros(LeadingZeros(s, 0))
  }

  /** `(1U << zeros) - 1 + suffix` in 32 bits. */
  function CodeNumber(zeros: nat, suffix: nat): (v: nat)
    requires zeros <= 32
    ensures v < UINT32
  {
    (ShiftedOne(zeros) - 1 + suffix) % UINT32
  }

  /** The code number, once its leading zeros and the one behind them have been read. */
  function AfterZeros(z: Read<nat>): (r: Read<nat>)
    ensures r.value < UINT32
  {
    if z.value > 32 || z.value == 0 then Read(0, z.rest)
    else
      var suffix := ReadU(z.rest, z.value);
      Read(CodeNumber(z.value, suffix.value), suffix.rest)
  }

  function ReadSe(s: Bits): Read<int> {
    var k := ReadUe(s);
    Read(if k.value % 2 == 0 then -(k.value / 2) else (k.value + 1) % UINT32 / 2, k.rest)
  }

  // ----- the codes -----

  /** Binary digits of `n`, most significant first and without leading zeros. */
  function Binary(n: nat): (s: Bits)
    requires n > 0
    ensures s != [] && s[0]
  {
    if n == 1 then [true] else Binary(n / 2) + [n % 2 == 1]
  }

  /** u(n): `v` in `n` binary digits. */
  function UBits(v: nat, n: nat): (s: Bits)
    ensures |s| == n
  {
    if n == 0 then [] else UBits(v / 2, n - 1) + [v % 2 == 1]
  }

  function Zeros(n: nat): (s: Bits)
    ensures |s| == n
  {
    if n == 0 then [] else [false] + Zeros(n - 1)
  }

  /** ue(v): code number `v` as in section 9.1. */
  function UeBits(v: nat): Bits {
    Zeros(|Binary(v + 1)| - 1) + Binary(v + 1)
  }

  /** se(v): section 9.1.1 maps k to code number 2|k|, less one when k is positive. */
  function SeBits(k: int): Bits {
    UeBits(if k > 0 then 2 * k - 1 else -2 * k)
  }

  // ----- each reader undoes its code and reads nothing more -----

  lemma {:induction false} ValueOfBinary(n: nat)
    requires n > 0
    ensures Value(Binary(n)) == n
    ensures Pow2(|Binary(n)| - 1) <= n < Pow2(|Binary(n)|)
  {
    if n > 1 {
      ValueOfBinary(n / 2);
      assert Binary(n)[..|Binary(n)| - 1] == Binary(n / 2);
    } else {
      assert [true][..0] == [];
    }
  }

  lemma {:induction false} ValueOfU(v: nat, n: nat)
    requires v < Pow2(n)
    ensures Value(UBits(v, n)) == v
  {
    if n > 0 {
      ValueOfU(v / 2, n - 1);
      assert UBits(v, n)[..n - 1] == UBits(v / 2, n - 1);
    }
  }

  lemma {:induction false} ValueAfterOne(s: Bits)
    ensures Value([true] + s) == Pow2(|s|) + Value(s)
  {
    if s == [] {
      assert [true] + s == [true] && [true][..0] == [];
    } else {
      var t := [true] + s;
      assert t[..|t| - 1] == [true] + s[..|s| - 1];
      ValueAfterOne(s[..|s| - 1]);
    }
  }

  lemma ValueOfNothing()
    ensures Value([]) == 0
  {
  }

  lemma ValueExtends(s: Bits, i: nat)
    requires i < |s|
    ensures Value(s[..i + 1]) == 2 * Value(s[..i]) + Bit(s[i])
  {
    assert s[..i + 1][..i] == s[..i];
  }

  lemma ReadUPrefix(s: Bits, rest: Bits)
    ensures ReadU(s + rest, |s|) == Read(Value(s), rest)
  {
    assert (s + rest)[..|s|] == s && (s + rest)[|s|..] == rest;
  }

  lemma URoundTrip(v: nat, n: nat, rest: Bits)
    requires v < Pow2(n)
    ensures ReadU(UBits(v, n) + rest, n) == Read(v, rest)
  {
    ReadUPrefix(UBits(v, n), rest);
    ValueOfU(v, n);
  }

  lemma FlagRoundTrip(b: bool, rest: Bits)
    ensures ReadFlag([b] + rest) == Read(b, rest)
  {
    assert ([b] + rest)[1..] == rest;
  }

  lemma {:induction false} LeadingZerosOf(n: nat, seen: nat, s: Bits)
    requires seen + n <= 32 && s != [] && s[0]
    ensures LeadingZeros(Zeros(n) + s, seen) == Read(seen + n, s[1..])
  {
    if n == 0 {
      assert Zeros(0) + s == s;
    } else {
      assert (Zeros(n) + s)[1..] == Zeros(n - 1) + s;
      LeadingZerosOf(n - 1, seen + 1, s);
    }
  }

  lemma Pow2Of32()
    ensures Pow2(31) == 0x8000_0000 && Pow2(32) == UINT32
  {
    assert Pow2(8) == 256 && Pow2(16) == 65536 && Pow2(24) == 65536 * 256;
  }

  lemma BinaryWidth(n: nat)
    requires 0 < n < UINT32
    ensures |Binary(n)| <= 32
  {
    ValueOfBinary(n);
    Pow2Of32();
    if |Binary(n)| > 32 {
      Pow2Grows(32, |Binary(n)| - 1);
    }
  }

  lemma SuffixReads(suffix: Bits, rest: Bits)
    requires |suffix| <= 31 && Pow2(|suffix|) + Value(suffix) < UINT32
    ensures AfterZeros(Read(|suffix|, suffix + rest)) == Read(Pow2(|suffix|) - 1 + Value(suffix), rest)
  {
    ReadUPrefix(suffix, rest);
    NoWrap(|suffix|, Value(suffix));
    if suffix == [] {
      assert suffix + rest == rest;
    }
  }

  lemma NoWrap(n: nat, suffix: nat)
    requires n <= 31 && Pow2(n) + suffix < UINT32
    ensures CodeNumber(n, suffix) == Pow2(n) - 1 + suffix
  {
  }

  /** Every code number up to 2^32 - 2 is read back; that is the whole range of ue(v). */
  lemma UeRoundTrip(v: nat, rest: Bits)
    requires v <= UINT32 - 2
    ensures ReadUe(UeBits(v) + rest) == Read(v, rest)
  {
    var b := Binary(v + 1);
    var suffix := b[1..];
    BinaryWidth(v + 1);
    ValueOfBinary(v + 1);
    assert b == [true] + suffix;
    ValueAfterOne(suffix);
    assert UeBits(v) + rest == Zeros(|suffix|) + (b + rest);
    LeadingZerosOf(|suffix|, 0, b + rest);
    assert (b + rest)[1..] == suffix + rest;
    SuffixReads(suffix, rest);
  }

  lemma SeRoundTrip(k: int, rest: Bits)
    requires -0x7FFF_FFFF <= k <= 0x7FFF_FFFF
    ensures ReadSe(SeBits(k) + rest) == Read(k, rest)
  {
    var code := if k > 0 then 2 * k - 1 else -2 * k;
    UeRoundTrip(code, rest);
    assert ReadUe(SeBits(k) + rest).value == code;
  }

  // ----- any sequence of fields -----

  datatype Field = U(value: nat, width: nat) | Ue(code: nat) | Se(number: int)

  predicate Encodable(f: Field) {
    match f
    case U(v, n) => v < Pow2(n)
    case Ue(v) => v <= UINT32 - 2
    case Se(k) => -0x7FFF_FFFF <= k <= 0x7FFF_FFFF
  }

  function FieldBits(f: Field): Bits {
    match f
    case U(v, n) => UBits(v, n)
    case Ue(v) => UeBits(v)
    case Se(k) => SeBits(k)
  }

  function Encode(fs: seq<Field>, rest: Bits): Bits {
    if fs == [] then rest else FieldBits(fs[0]) + Encode(fs[1..], rest)
  }

  /** Reads fields of the kinds and widths of `like`. */
  function Decode(like: seq<Field>, s: Bits): Read<seq<Field>> {
    if like == [] then Read([], s) else
    var first: Read<Field> := match like[0]
      case U(_, n) => var r := ReadU(s, n); Read(U(r.value, n), r.rest)
      case Ue(_) => var r := ReadUe(s); Read(Ue(r.value), r.rest)
      case Se(_) => var r := ReadSe(s); Read(Se(r.value), r.rest);
    var others := Decode(like[1..], first.rest);
    Read([first.value] + others.value, others.rest)
  }

  /** Whatever fields follow one another, each is read back and not a bit more is consumed. */
  lemma {:induction false} FieldsRoundTrip(fs: seq<Field>, rest: Bits)
    requires forall f :: f in fs ==> Encodable(f)
    ensures Decode(fs, Encode(fs, rest)) == Read(fs, rest)
  {
    if fs != [] {
      var tail := Encode(fs[1..], rest);
      assert Encodable(fs[0]);
      match fs[0] {
        case U(v, n) => URoundTrip(v, n, tail);
        case Ue(v) => UeRoundTrip(v, tail);
        case Se(k) => SeRoundTrip(k, tail);
      }
      FieldsRoundTrip(fs[1..], rest);
      assert fs == [fs[0]] + fs[1..];
    }
  }

  // ----- the reader itself -----

  class Bitstream {
    const data: Text
    var bytePos: nat
    var bitPos: nat

    ghost predicate Valid()
      reads this
    {
      bitPos < 8 && bytePos <= |data| && (bytePos == |data| ==> bitPos == 0)
    }

    /** The bits not read yet. */
    ghost function Rest(): Bits
      reads this
      requires Valid()
    {
      BitsOf(data[bytePos..])[bitPos..]
    }

    constructor (data: Text)
      ensures Valid() && this.data == data && Rest() == BitsOf(data)
    {
      this.data, bytePos, bitPos := data, 0, 0;
      new;
      assert data[0..] == data;
    }

    predicate Eof()
      reads this
    {
      bytePos >= |data|
    }

    lemma EofMeansNoBits()
      requires Valid()
      ensures Eof() <==> Rest() == []
    {
      assert |BitsOf(data[bytePos..])| == 8 * (|data| - bytePos);
    }

    method ReadBit() returns (bit: nat)
      requires Valid()
      modifies this
      ensures Valid()
      ensures var r := ReadFlag(old(Rest())); bit == Bit(r.value) && Rest() == r.rest
    {
      EofMeansNoBits();
      if Eof() {
        return 0;
      }
      ghost var before := BitsOf(data[bytePos..]);
      assert before == ByteBits(data[bytePos]) + BitsOf(data[bytePos + 1..]) by {
        assert data[bytePos..][1..] == data[bytePos + 1..];
      }
      assert before[bitPos] == BitAt(data[bytePos], bitPos);
      bit := data[bytePos] / Pow2(7 - bitPos) % 2;
      bitPos := bitPos + 1;
      if bitPos >= 8 {
        bitPos := 0;
        bytePos := bytePos + 1;
        assert before[8..] == BitsOf(data[bytePos..]);
      }
    }

    method ReadBits(n: nat) returns (val: nat)
      requires Valid()
      modifies this
      ensures Valid()
      ensures var r := ReadU(old(Rest()), n); val == r.value && Rest() == r.rest
    {
      hide Value;
      hide BitsOf;
      val := 0;
      ghost var s := Rest();
      var i := 0;
      EofMeansNoBits();
      ValueOfNothing();
      while i < n && !Eof()
        invariant Valid() && i <= n && i <= |s|
        invariant Rest() == s[i..] && val == Value(s[..i])
        invariant Eof() <==> Rest() == []
      {
        var bit := ReadBit();
        ValueExtends(s, i);
        val := 2 * val + bit;
        i := i + 1;
        EofMeansNoBits();
      }
    }

    method ReadUnsigned() returns (val: nat)
      requires Valid()
      modifies this
      ensures Valid()
      ensures var r := ReadUe(old(Rest())); val == r.value && Rest() == r.rest
    {
      ghost var s := Rest();
      var zeros := 0;
      EofMeansNoBits();
      while !Eof()
        invariant Valid() && zeros <= 32
        invariant LeadingZeros(s, 0) == LeadingZeros(Rest(), zeros)
        invariant Eof() <==> Rest() == []
        decreases |Rest()|
      {
        var bit := ReadBit();
        EofMeansNoBits();
        if bit != 0 {
          break;
        }
        zeros := zeros + 1;
        if zeros > 32 {
          return 0;
        }
      }
      if zeros == 0 {
        return 0;
      }
      var suffix := ReadBits(zeros);
      return CodeNumber(zeros, suffix);
    }

    method ReadSigned() returns (val: int)
      requires Valid()
      modifies this
      ensures Valid()
      ensures var r := ReadSe(old(Rest())); val == r.value && Rest() == r.rest
    {
      var k := ReadUnsigned();
      if k % 2 == 0 {
        return -(k / 2);
      }
      return (k + 1) % UINT32 / 2;
    }
  }
}
