/** A section's bytes and the values that start at a given offset of it.  These functions
    are the specification of the cursor's methods: the value, and the offset after it. */
module Sections {
  import opened Outcomes
  import opened Words
  import Leb128

  datatype Order = Lsb | Msb

  datatype Format = Unknown | Dwarf32 | Dwarf64

  datatype Section = Section(data: seq<byte>, ord: Order, fmt: Format, addrSize: nat)

  function Rest(s: Section, pos: nat): seq<byte> {
    if pos <= |s.data| then s.data[pos..] else []
  }

  /** Base-256 number, least significant byte first. */
  function LsbNumber(bs: seq<byte>): nat {
    if bs == [] then 0 else bs[0] + 256 * LsbNumber(bs[1..])
  }

  function Reverse(bs: seq<byte>): seq<byte> {
    if bs == [] then [] else Reverse(bs[1..]) + [bs[0]]
  }

  function FixedNumber(ord: Order, bs: seq<byte>): nat {
    match ord
    case Lsb => LsbNumber(bs)
    case Msb => LsbNumber(Reverse(bs))
  }

  function EncodeLsb(n: nat, v: nat): (bs: seq<byte>)
    ensures |bs| == n
  {
    if n == 0 then [] else [v % 256] + EncodeLsb(n - 1, v / 256)
  }

  function EncodeFixed(ord: Order, n: nat, v: nat): seq<byte> {
    match ord
    case Lsb => EncodeLsb(n, v)
    case Msb => Reverse(EncodeLsb(n, v))
  }

  function ReadFixed(s: Section, n: nat, pos: nat): (r: Outcome<(u64, nat)>)
    requires n <= 8
  {
    if pos >= |s.data| || |s.data| - pos < n then Throw(Underflow)
    else
      FixedNumberBound(s.ord, s.data[pos..pos + n]);
      Value((FixedNumber(s.ord, s.data[pos..pos + n]), pos + n))
  }

  /** The signed reading of an n-byte field. */
  function ReadFixedSigned(s: Section, n: nat, pos: nat): Outcome<(int, nat)>
    requires 0 < n <= 8
  {
    var (v, next) :- ReadFixed(s, n, pos);
    Value((Words.Signed(8 * n, v), next))
  }

  function ReadUleb(s: Section, pos: nat): (r: Outcome<(u64, nat)>)
    ensures r.Value? ==> pos < r.value.1 <= |s.data|
  {
    var (v, n) :- Leb128.Unsigned(Rest(s, pos));
    Value((v, pos + n))
  }

  function ReadSleb(s: Section, pos: nat): (r: Outcome<(int, nat)>)
    ensures r.Value? ==> pos < r.value.1 <= |s.data|
  {
    var (v, n) :- Leb128.Signed(Rest(s, pos));
    Value((v, pos + n))
  }

  function ReadAddress(s: Section, pos: nat): Outcome<(u64, nat)> {
    if s.addrSize in {1, 2, 4, 8} then ReadFixed(s, s.addrSize, pos) else Throw(Runtime)
  }

  function OffsetSize(s: Section): Outcome<nat> {
    match s.fmt
    case Dwarf32 => Value(4)
    case Dwarf64 => Value(8)
    case Unknown => Throw(Logic)
  }

  function ReadOffset(s: Section, pos: nat): Outcome<(u64, nat)> {
    match s.fmt
    case Dwarf32 => ReadFixed(s, 4, pos)
    case Dwarf64 => ReadFixed(s, 8, pos)
    case Unknown => Throw(Logic)
  }

  /** Bytes before the first zero byte, or all of them. */
  function ZeroAt(bs: seq<byte>): (n: nat)
    ensures n <= |bs|
  {
    if bs == [] || bs[0] == 0 then 0 else 1 + ZeroAt(bs[1..])
  }

  /** A NUL-terminated string.  A cursor already past the end reads an empty one. */
  function ReadCstr(s: Section, pos: nat): (r: Outcome<(seq<byte>, nat)>)
    ensures r.Value? ==> pos < r.value.1
  {
    if pos > |s.data| then Value(([], pos + 1))
    else
      var n := ZeroAt(s.data[pos..]);
      if pos + n == |s.data| then Throw(Format)
      else Value((s.data[pos..pos + n], pos + n + 1))
  }

  /** `bs` lies in `d` at offset `pos`. */
  ghost predicate At(d: seq<byte>, pos: nat, bs: seq<byte>) {
    pos + |bs| <= |d| && d[pos..pos + |bs|] == bs
  }

  lemma AtAppend(d: seq<byte>, pos: nat, a: seq<byte>, b: seq<byte>)
    requires At(d, pos, a + b)
    ensures At(d, pos, a) && At(d, pos + |a|, b)
  {
    var w := d[pos..pos + |a + b|];
    assert w[..|a|] == a && w[|a|..] == b;
    assert d[pos..pos + |a|] == w[..|a|];
    assert d[pos + |a|..pos + |a| + |b|] == w[|a|..];
  }

  lemma AtBound(d: seq<byte>, pos: nat, bs: seq<byte>)
    requires At(d, pos, bs)
    ensures pos + |bs| <= |d|
  {
  }

  lemma AtAppendFour(d: seq<byte>, pos: nat, a: seq<byte>, b: seq<byte>, c: seq<byte>, e: seq<byte>)
    requires At(d, pos, a + b + c + e)
    ensures At(d, pos, a) && At(d, pos + |a|, b) && At(d, pos + |a| + |b|, c)
    ensures At(d, pos + |a| + |b| + |c|, e)
  {
    hide At;
    AtAppend(d, pos, a + b + c, e);
    AtAppend(d, pos, a + b, c);
    AtAppend(d, pos, a, b);
  }

  lemma AtSuffix(d: seq<byte>, pos: nat, bs: seq<byte>)
    requires At(d, pos, bs)
    ensures d[pos..] == bs + d[pos + |bs|..]
  {
    assert d[pos..] == d[pos..pos + |bs|] + d[pos + |bs|..];
  }

  lemma {:induction false} LsbNumberBound(bs: seq<byte>)
    ensures LsbNumber(bs) < Pow2(8 * |bs|)
  {
    if bs != [] {
      LsbNumberBound(bs[1..]);
      Pow2Of64();
      Pow2Add(8, 8 * |bs| - 8);
    }
  }

  lemma {:induction false} ReverseLength(bs: seq<byte>)
    ensures |Reverse(bs)| == |bs|
  {
    if bs != [] {
      ReverseLength(bs[1..]);
    }
  }

  lemma {:induction false} ReverseSnoc(bs: seq<byte>, b: byte)
    ensures Reverse(bs + [b]) == [b] + Reverse(bs)
  {
    if bs == [] {
      assert bs + [b] == [b];
      assert Reverse([b][1..]) == [];
    } else {
      assert (bs + [b])[1..] == bs[1..] + [b];
      ReverseSnoc(bs[1..], b);
    }
  }

  lemma {:induction false} ReverseTwice(bs: seq<byte>)
    ensures Reverse(Reverse(bs)) == bs
  {
    if bs != [] {
      ReverseTwice(bs[1..]);
      ReverseSnoc(Reverse(bs[1..]), bs[0]);
    }
  }

  lemma FixedNumberBound(ord: Order, bs: seq<byte>)
    ensures FixedNumber(ord, bs) < Pow2(8 * |bs|)
    ensures |bs| <= 8 ==> FixedNumber(ord, bs) < B64
  {
    LsbNumberBound(bs);
    LsbNumberBound(Reverse(bs));
    ReverseLength(bs);
    Pow2Of64();
    if |bs| <= 8 {
      Pow2Mono(8 * |bs|, 64);
    }
  }

  lemma {:induction false} LsbRoundTrip(n: nat, v: nat)
    requires v < Pow2(8 * n)
    ensures LsbNumber(EncodeLsb(n, v)) == v
  {
    if n > 0 {
      Pow2Of64();
      Pow2Add(8, 8 * n - 8);
      LsbRoundTrip(n - 1, v / 256);
      assert EncodeLsb(n, v)[1..] == EncodeLsb(n - 1, v / 256);
    }
  }

  lemma EncodeFixedLength(ord: Order, n: nat, v: nat)
    ensures |EncodeFixed(ord, n, v)| == n
  {
    ReverseLength(EncodeLsb(n, v));
  }

  /** A field of n bytes in either byte order reads back the number written. */
  lemma FixedRoundTrip(s: Section, n: nat, v: nat, pos: nat)
    requires 0 < n <= 8 && v < Pow2(8 * n)
    requires At(s.data, pos, EncodeFixed(s.ord, n, v))
    ensures v < B64
    ensures ReadFixed(s, n, pos) == Value((v, pos + n))
  {
    EncodeFixedLength(s.ord, n, v);
    LsbRoundTrip(n, v);
    ReverseTwice(EncodeLsb(n, v));
    FixedNumberBound(s.ord, EncodeFixed(s.ord, n, v));
  }

  /** A number in two's complement is read back with its sign. */
  lemma FixedSignedRoundTrip(s: Section, n: nat, i: int, pos: nat)
    requires 0 < n <= 8 && 0 - Pow2(8 * n - 1) <= i < Pow2(8 * n - 1)
    requires At(s.data, pos, EncodeFixed(s.ord, n, i % Pow2(8 * n)))
    ensures ReadFixedSigned(s, n, pos) == Value((i, pos + n))
  {
    hide ReadFixed, At, EncodeFixed;
    var p := Pow2(8 * n);
    assert p == 2 * Pow2(8 * n - 1);
    if i < 0 {
      ModShift(i, 1, p);
      SmallMod(i + p, p);
    } else {
      SmallMod(i, p);
    }
    FixedRoundTrip(s, n, i % p, pos);
  }

  lemma UlebRoundTrip(s: Section, v: u64, pad: nat, pos: nat)
    requires At(s.data, pos, Leb128.EncodeUnsigned(v, pad))
    ensures ReadUleb(s, pos) == Value((v, pos + |Leb128.EncodeUnsigned(v, pad)|))
  {
    hide Leb128.Unsigned;
    var bs := Leb128.EncodeUnsigned(v, pad);
    AtSuffix(s.data, pos, bs);
    Leb128.UnsignedRoundTrip(v, pad, s.data[pos + |bs|..]);
  }

  lemma SlebRoundTrip(s: Section, v: int, pad: nat, pos: nat)
    requires -B63 <= v < B63
    requires At(s.data, pos, Leb128.EncodeSigned(v, pad))
    ensures ReadSleb(s, pos) == Value((v, pos + |Leb128.EncodeSigned(v, pad)|))
  {
    hide Leb128.Signed, At;
    var bs := Leb128.EncodeSigned(v, pad);
    AtBound(s.data, pos, bs);
    AtSuffix(s.data, pos, bs);
    Leb128.SignedRoundTrip(v, pad, s.data[pos + |bs|..]);
    SlebOf(s, pos, bs, v);
  }

  lemma SlebOf(s: Section, pos: nat, bs: seq<byte>, v: int)
    requires pos + |bs| <= |s.data| && Leb128.Signed(s.data[pos..]) == Value((v, |bs|))
    ensures ReadSleb(s, pos) == Value((v, pos + |bs|))
  {
    hide Leb128.Signed;
  }

  lemma {:induction false} ZeroAtIs(bs: seq<byte>, n: nat)
    requires n <= |bs|
    requires forall i :: 0 <= i < n ==> bs[i] != 0
    requires n < |bs| ==> bs[n] == 0
    ensures ZeroAt(bs) == n
  {
    if n > 0 {
      ZeroAtIs(bs[1..], n - 1);
    }
  }

  lemma CstrRoundTrip(s: Section, text: seq<byte>, pos: nat)
    requires forall i :: 0 <= i < |text| ==> text[i] != 0
    requires At(s.data, pos, text + [0])
    ensures ReadCstr(s, pos) == Value((text, pos + |text| + 1))
  {
    AtSuffix(s.data, pos, text + [0]);
    ZeroAtIs(s.data[pos..], |text|);
    AtAppend(s.data, pos, text, [0]);
  }

  lemma OneByte(s: Section, pos: nat, b: byte)
    requires At(s.data, pos, [b])
    ensures ReadFixed(s, 1, pos) == Value((b, pos + 1))
  {
    assert EncodeLsb(1, b) == [b] + EncodeLsb(0, b / 256) == [b];
    assert Reverse([b]) == Reverse([b][1..]) + [b];
    assert Pow2(8) == 256;
    FixedRoundTrip(s, 1, b, pos);
  }

  /** A one-byte field is the byte. */
  lemma ReadsByte(s: Section, pos: nat)
    ensures ReadFixed(s, 1, pos) == if pos < |s.data| then Value((s.data[pos], pos + 1)) else Throw(Underflow)
  {
    if pos < |s.data| {
      assert s.data[pos..pos + 1] == [s.data[pos]];
      OneByte(s, pos, s.data[pos]);
    }
  }

  // The readers in plain terms.

  /** Two bytes, low or high first. */
  lemma TwoBytes(s: Section, pos: nat)
    requires pos + 2 <= |s.data|
    ensures var a: int, b: int := s.data[pos], s.data[pos + 1];
            var r := ReadFixed(s, 2, pos);
            r.Value? && r.value.1 == pos + 2 && r.value.0 == if s.ord == Lsb then a + 256 * b else 256 * a + b
  {
    var a, b := s.data[pos], s.data[pos + 1];
    assert s.data[pos..pos + 2] == [a, b];
    TwoDigits(a, b);
    TwoDigits(b, a);
  }

  lemma TwoDigits(a: byte, b: byte)
    ensures Reverse([a, b]) == [b, a]
    ensures LsbNumber([a, b]) == a as int + 256 * (b as int)
  {
    assert [a, b][1..] == [b] && [b][1..] == [];
    assert Reverse([]) == [] && LsbNumber([]) == 0;
    assert Reverse([b]) == [] + [b];
    assert LsbNumber([b]) == b as int + 256 * 0;
  }

  /** A field is read exactly when all its bytes, and at least one, are there. */
  lemma FixedThrows(s: Section, n: nat, pos: nat)
    requires n <= 8
    ensures ReadFixed(s, n, pos).Value? <==> pos < |s.data| && pos + n <= |s.data|
    ensures ReadFixed(s, n, pos).Throw? ==> ReadFixed(s, n, pos) == Throw(Underflow)
    ensures ReadFixed(s, n, pos).Value? ==> ReadFixed(s, n, pos).value.1 == pos + n
  {
  }

  /** An address has 1, 2, 4 or 8 bytes, or is a runtime error; an offset has 4 or 8, or is a
      logic error. */
  lemma SizedReaders(s: Section, pos: nat)
    ensures s.addrSize in {1, 2, 4, 8} ==> ReadAddress(s, pos) == ReadFixed(s, s.addrSize, pos)
    ensures s.addrSize !in {1, 2, 4, 8} ==> ReadAddress(s, pos) == Throw(Runtime)
    ensures s.fmt == Dwarf32 ==> ReadOffset(s, pos) == ReadFixed(s, 4, pos)
    ensures s.fmt == Dwarf64 ==> ReadOffset(s, pos) == ReadFixed(s, 8, pos)
    ensures s.fmt == Unknown ==> ReadOffset(s, pos) == Throw(Logic)
  {
  }

  /** A string is the bytes up to the first zero byte, which is stepped over; without one it is
      a format error - except from beyond the end, where it is empty. */
  lemma CstrIs(s: Section, pos: nat, n: nat)
    ensures pos > |s.data| ==> ReadCstr(s, pos) == Value(([], pos + 1))
    ensures pos + n < |s.data| && s.data[pos + n] == 0 && 0 !in s.data[pos..pos + n] ==>
      ReadCstr(s, pos) == Value((s.data[pos..pos + n], pos + n + 1))
    ensures pos <= |s.data| && 0 !in s.data[pos..] ==> ReadCstr(s, pos) == Throw(Format)
  {
    if pos + n < |s.data| && s.data[pos + n] == 0 && 0 !in s.data[pos..pos + n] {
      var bs := s.data[pos..];
      assert bs[n] == 0;
      forall i | 0 <= i < n ensures bs[i] != 0 {
        assert bs[i] == s.data[pos..pos + n][i];
      }
      ZeroAtIs(bs, n);
    } else if pos <= |s.data| && 0 !in s.data[pos..] {
      NoZero(s.data[pos..]);
    }
  }

  lemma {:induction false} NoZero(bs: seq<byte>)
    requires 0 !in bs
    ensures ZeroAt(bs) == |bs|
  {
    if bs != [] {
      NoZero(bs[1..]);
    }
  }
}
