/** The cursor: a position in a section that every read moves. */
module Cursors {
  import opened Outcomes
  import opened Words
  import opened Sections
  import opened Forms
  import Leb128

  /** A method's result r, with the cursor left at `pos`, is what the reader says.  After a
      throw the position is not specified. */
  ghost predicate Follows<T(!new)>(r: Outcome<T>, pos: nat, spec: Outcome<(T, nat)>) {
    match spec
    case Throw(e) => r == Throw(e)
    case Value((v, next)) => r == Value(v) && pos == next
  }

  /** Section 7.4: an initial length, and the section it delimits, which starts at the
      length field itself.  The sum wraps as the 64-bit arithmetic does.  A length that
      reaches past the enclosing section makes an invalid pointer. */
  function ReadSubsection(s: Section, pos: nat): (r: Outcome<(Section, nat)>)
    ensures r.Value? ==> r.value.0.fmt in {Dwarf32, Dwarf64}
  {
    var (length, p) :- ReadFixed(s, 4, pos);
    if length < 0xfffffff0 then
      Delimited(s, pos, length + 4, Dwarf32)
    else if length == 0xffffffff then
      var (long, _) :- ReadFixed(s, 8, p);
      Delimited(s, pos, Wrap64(long + 12), Dwarf64)
    else Throw(Format)
  }

  function Delimited(s: Section, pos: nat, length: nat, fmt: Format): Outcome<(Section, nat)> {
    if pos + length > |s.data| then Throw(Undefined)
    else Value((Section(s.data[pos..pos + length], s.ord, fmt, 0), pos + length))
  }

  /** The least significant byte comes first. */
  method LsbValue(p: seq<byte>) returns (val: u64)
    requires |p| <= 8
    ensures val == LsbNumber(p)
  {
    val := 0;
    for i := 0 to |p|
      invariant val == LsbNumber(p[..i])
    {
      var b: byte := p[i];
      assert p[..i + 1] == p[..i] + [b];
      OrByteAbove(p[..i], b);
      val := Bits(Or, val, Shl64(b, i * 8));
    }
    assert p[..|p|] == p;
  }

  /** The most significant byte comes first. */
  method MsbValue(p: seq<byte>) returns (val: u64)
    requires |p| <= 8
    ensures val == LsbNumber(Reverse(p))
  {
    val := 0;
    for i := 0 to |p|
      invariant val == LsbNumber(Reverse(p[..i]))
    {
      var b: byte := p[i];
      assert p[..i + 1] == p[..i] + [b];
      OrByteBelow(p[..i], b);
      val := Bits(Or, Shl64(val, 8), b);
    }
    assert p[..|p|] == p;
  }

  class Cursor {
    const sec: Section
    var pos: nat

    constructor (sec: Section, offset: nat)
      ensures this.sec == sec && pos == offset
    {
      this.sec := sec;
      pos := offset;
    }

    predicate End()
      reads this
    {
      pos >= |sec.data|
    }

    method Ensure(bytes: nat) returns (r: Outcome<()>)
      ensures r == if pos >= |sec.data| || |sec.data| - pos < bytes then Throw(Underflow) else Value(())
    {
      if pos >= |sec.data| || |sec.data| - pos < bytes {
        return Throw(Underflow);
      }
      return Value(());
    }

    method Fixed(n: nat) returns (r: Outcome<u64>)
      requires n in {1, 2, 4, 8}
      modifies this`pos
      ensures Follows(r, pos, ReadFixed(sec, n, old(pos)))
    {
      var _ :- Ensure(n);
      var val: u64;
      if sec.ord == Lsb {
        val := LsbValue(sec.data[pos..pos + n]);
      } else {
        val := MsbValue(sec.data[pos..pos + n]);
      }
      pos := pos + n;
      return Value(val);
    }

    method FixedSigned(n: nat) returns (r: Outcome<int>)
      requires n in {1, 2, 4, 8}
      modifies this`pos
      ensures Follows(r, pos, ReadFixedSigned(sec, n, old(pos)))
    {
      var v :- Fixed(n);
      return Value(Signed(8 * n, v));
    }

    method Uleb128() returns (r: Outcome<u64>)
      modifies this`pos
      ensures Follows(r, pos, ReadUleb(sec, old(pos)))
    {
      var result: u64 := 0;
      var shift := 0;
      ghost var bs := Rest(sec, pos);
      ghost var start := pos;
      ghost var i := 0;
      while pos < |sec.data|
        invariant pos == start + i && shift == 7 * i && (i <= |bs|)
        invariant forall k :: 0 <= k < i ==> bs[k] >= 128
        invariant result == Groups(bs, i)
      {
        var b := sec.data[pos];
        pos := pos + 1;
        GroupsStep(bs, i, b);
        BitsBound64(Or, result, Shl64(b % 128, shift));
        result := Bits(Or, result, Shl64(b % 128, shift));
        if b < 128 {
          Leb128.LengthIs(bs, i + 1);
          return Value(result);
        }
        shift := shift + 7;
        i := i + 1;
      }
      Leb128.LengthFails(bs);
      return Throw(Underflow);
    }

    method Sleb128() returns (r: Outcome<int>)
      modifies this`pos
      ensures Follows(r, pos, ReadSleb(sec, old(pos)))
    {
      hide SignExtended, Signed64, Leb128.Signed, Groups, Shl64;
      NoGroups(Rest(sec, pos));
      var result: u64 := 0;
      var shift := 0;
      ghost var bs := Rest(sec, pos);
      ghost var start := pos;
      ghost var i := 0;
      while pos < |sec.data|
        invariant pos == start + i && shift == 7 * i && (i <= |bs|)
        invariant forall k :: 0 <= k < i ==> bs[k] >= 128
        invariant result == Groups(bs, i)
      {
        var b := sec.data[pos];
        pos := pos + 1;
        GroupsStep(bs, i, b);
        BitsBound64(Or, result, Shl64(b % 128, shift));
        result := Bits(Or, result, Shl64(b % 128, shift));
        shift := shift + 7;
        if b < 128 {
          SignedEnds(bs, i, b, result);
          return Value(Signed64(SignExtended(result, shift, b)));
        }
        i := i + 1;
      }
      return Throw(Underflow);
    }

    method Address() returns (r: Outcome<u64>)
      modifies this`pos
      ensures Follows(r, pos, ReadAddress(sec, old(pos)))
    {
      match sec.addrSize
      case 1 => r := Fixed(1);
      case 2 => r := Fixed(2);
      case 4 => r := Fixed(4);
      case 8 => r := Fixed(8);
      case _ => r := Throw(Runtime);
    }

    method Offset() returns (r: Outcome<u64>)
      modifies this`pos
      ensures Follows(r, pos, ReadOffset(sec, old(pos)))
    {
      match sec.fmt
      case Dwarf32 => r := Fixed(4);
      case Dwarf64 => r := Fixed(8);
      case Unknown => r := Throw(Logic);
    }

    method Cstr() returns (r: Outcome<seq<byte>>)
      modifies this`pos
      ensures Follows(r, pos, ReadCstr(sec, old(pos)))
    {
      var p := pos;
      while pos < |sec.data| && sec.data[pos] != 0
        invariant p <= pos && (p <= |sec.data| ==> pos <= |sec.data|) && (p > |sec.data| ==> pos == p)
        invariant forall k :: p <= k < pos ==> k < |sec.data| && sec.data[k] != 0
        decreases |sec.data| - pos
      {
        pos := pos + 1;
      }
      if p <= |sec.data| {
        ZeroAtIs(sec.data[p..], pos - p);
      }
      if pos == |sec.data| {
        return Throw(Format);
      }
      r := Value(if p <= |sec.data| then sec.data[p..pos] else []);
      pos := pos + 1;
    }

    method Subsection() returns (r: Outcome<Section>)
      modifies this`pos
      ensures Follows(r, pos, ReadSubsection(sec, old(pos)))
    {
      var begin := pos;
      var length: int :- Fixed(4);
      var fmt;
      if length < 0xfffffff0 {
        fmt := Dwarf32;
        length := length + 4;
      } else if length == 0xffffffff {
        length :- Fixed(8);
        fmt := Dwarf64;
        length := Wrap64(length + 12);
      } else {
        return Throw(Format);
      }
      if begin + length > |sec.data| {
        return Throw(Undefined);
      }
      pos := begin + length;
      return Value(Section(sec.data[begin..pos], sec.ord, fmt, 0));
    }

    method SkipInitialLength() returns (r: Outcome<()>)
      modifies this`pos
      ensures Follows(r, pos,
                      match sec.fmt
                      case Dwarf32 => Value(((), old(pos) + 4))
                      case Dwarf64 => Value(((), old(pos) + 12))
                      case Unknown => Throw(Logic))
    {
      match sec.fmt
      case Dwarf32 => pos := pos + 4; r := Value(());
      case Dwarf64 => pos := pos + 12; r := Value(());
      case Unknown => r := Throw(Logic);
    }

    /** Skip an attribute value of the given form. */
    method Skip(form: Form) returns (r: Outcome<()>)
      modifies this`pos
      ensures match SkipForm(sec, form, old(pos))
              case Throw(e) => r == Throw(e)
              case Value(next) => r == Value(()) && pos == next
      decreases |sec.data| - pos
    {
      match form {
        case Addr => pos := pos + sec.addrSize;
        case SecOffset | RefAddr | Strp =>
          if sec.fmt == Unknown {
            return Throw(Logic);
          }
          pos := pos + if sec.fmt == Dwarf32 then 4 else 8;
        case Block1 =>
          var n :- Fixed(1);
          pos := pos + n;
        case Block2 =>
          var n :- Fixed(2);
          pos := pos + n;
        case Block4 =>
          var n :- Fixed(4);
          pos := pos + n;
        case Block | Exprloc =>
          var n :- Uleb128();
          pos := pos + n;
        case FlagPresent =>
        case Flag | Data1 | Ref1 => pos := pos + 1;
        case Data2 | Ref2 => pos := pos + 2;
        case Data4 | Ref4 => pos := pos + 4;
        case Data8 | RefSig8 => pos := pos + 8;
        case Sdata | Udata | RefUdata => SkipLeb();
        case String => SkipString();
        case Indirect =>
          var code :- Uleb128();
          var _ :- Skip(FormOf(code));
        case Ref8 | Other(_) => return Throw(Format);
      }
      return Value(());
    }

    method SkipLeb()
      modifies this`pos
      ensures pos == SkipGroups(sec.data, old(pos))
    {
      while pos < |sec.data| && sec.data[pos] >= 128
        invariant SkipGroups(sec.data, pos) == SkipGroups(sec.data, old(pos))
        decreases |sec.data| - pos
      {
        pos := pos + 1;
      }
      pos := pos + 1;
    }

    method SkipString()
      modifies this`pos
      ensures pos == SkipText(sec.data, old(pos))
    {
      while pos < |sec.data| && sec.data[pos] != 0
        invariant SkipText(sec.data, pos) == SkipText(sec.data, old(pos))
        decreases |sec.data| - pos
      {
        pos := pos + 1;
      }
      pos := pos + 1;
    }
  }

  /** The first n groups, as a 64-bit word. */
  ghost function Groups(bs: seq<byte>, n: nat): u64
    requires n <= |bs|
  {
    Wrap64(Leb128.Groups(bs[..n]))
  }

  lemma NoGroups(bs: seq<byte>)
    ensures Groups(bs, 0) == 0
    ensures (forall i :: 0 <= i < |bs| ==> bs[i] >= 128) ==> Leb128.Signed(bs) == Throw(Underflow)
  {
    if forall i :: 0 <= i < |bs| ==> bs[i] >= 128 {
      Leb128.LengthFails(bs);
    }
  }

  lemma SignedEnds(bs: seq<byte>, i: nat, b: byte, result: u64)
    requires i < |bs| && b == bs[i] < 128 && result == Groups(bs, i + 1)
    requires forall k :: 0 <= k < i ==> bs[k] >= 128
    ensures Leb128.Signed(bs) == Value((Signed64(SignExtended(result, 7 * i + 7, b)), i + 1))
  {
    hide SignExtended, Signed64;
    Leb128.LengthIs(bs, i + 1);
    SignExtension(bs[..i + 1], result);
  }

  lemma GroupsStep(bs: seq<byte>, i: nat, b: byte)
    requires i < |bs| && b == bs[i]
    ensures Bits(Or, Groups(bs, i), Shl64(b % 128, 7 * i)) == Groups(bs, i + 1)
  {
    assert bs[..i + 1] == bs[..i] + [b];
    Leb128.GroupsSnoc(bs[..i], b);
    Leb128.GroupsBound(bs[..i]);
    OrGroup(Leb128.Groups(bs[..i]), b % 128, 7 * i);
  }

  lemma OrGroup(low: nat, group: nat, shift: nat)
    requires low < Pow2(shift) && shift % 7 == 0
    ensures Bits(Or, Wrap64(low), Shl64(group, shift)) == Wrap64(low + group * Pow2(shift))
  {
    if shift < 64 {
      OrGroupBelow(low, group, shift);
    } else {
      OrGroupPast(low, group, shift);
    }
  }

  lemma OrGroupBelow(low: nat, group: nat, shift: nat)
    requires low < Pow2(shift) && shift % 7 == 0 && shift < 64
    ensures Bits(Or, Wrap64(low), Shl64(group, shift)) == Wrap64(low + group * Pow2(shift))
  {
    hide Shl64, Bits, Pow2;
    Below64(low, shift);
    OrShifted(low, group, shift);
  }

  lemma OrGroupPast(low: nat, group: nat, shift: nat)
    requires shift >= 64
    ensures Bits(Or, Wrap64(low), Shl64(group, shift)) == Wrap64(low + group * Pow2(shift))
  {
    hide Shl64, Bits, Pow2;
    ShlPast(group, shift);
    OrZero(Wrap64(low));
    AddsNothing(low, group * Pow2(shift));
  }

  lemma AddsNothing(low: int, x: int)
    requires x % B64 == 0
    ensures Wrap64(low + x) == Wrap64(low) == Wrap64(low - x)
  {
    ModAdd(low, x, B64);
  }

  lemma Below64(low: nat, n: nat)
    requires low < Pow2(n) && n < 64 && n % 7 == 0
    ensures low < B64 && Wrap64(low) == low && Pow2(n) <= B63
  {
    Pow2Of64();
    Pow2Mono(n, 63);
    SmallMod(low, B64);
  }

  lemma NegativeMod(x: int)
    requires -B64 <= x < 0
    ensures Wrap64(x) == x + B64
  {
    ModShift(x, 1, B64);
    SmallMod(x + B64, B64);
  }

  /** Or-ing in -(1 << n) above n bits is subtracting 1 << n. */
  lemma SignExtend(low: nat, n: nat)
    requires low < Pow2(n) && n < 64 && n % 7 == 0
    ensures Bits(Or, low, Wrap64(0 - Pow2(n))) == Wrap64(low - Pow2(n))
  {
    Below64(low, n);
    NegativeMod(0 - Pow2(n));
    NegativeMod(low - Pow2(n));
    TopBits(n);
    OrIsAdd(low, Pow2(64 - n) - 1, n);
  }

  lemma TopBits(n: nat)
    requires n < 64
    ensures (Pow2(64 - n) - 1) * Pow2(n) == B64 - Pow2(n)
  {
    var a, p := Pow2(64 - n), Pow2(n);
    assert Pow2(64) == B64 by { Pow2Of64(); }
    Pow2Add(64 - n, n);
    MinusOne(a, p);
  }

  lemma MinusOne(a: int, p: int)
    ensures (a - 1) * p == a * p - p
  {
  }

  /** The last step of signed decoding: fill the bits above those read, if the last byte's
      sign bit is set and any are left. */
  function SignExtended(result: u64, shift: nat, last: byte): u64 {
    if shift < 64 && (last / 64) % 2 == 1 then
      BitsBound64(Or, result, Wrap64(0 - Pow2(shift)));
      Bits(Or, result, Wrap64(0 - Pow2(shift)))
    else result
  }

  /** The loop's last step turns the groups into their signed reading, modulo 2^64. */
  lemma SignExtension(bs: seq<byte>, result: u64)
    requires bs != [] && result == Wrap64(Leb128.Groups(bs))
    ensures Wrap64(Leb128.SignedGroups(bs)) == SignExtended(result, 7 * |bs|, bs[|bs| - 1])
  {
    hide Wrap64, Bits, Pow2;
    var n := 7 * |bs|;
    Leb128.GroupsBound(bs);
    if n < 64 {
      Below64(Leb128.Groups(bs), n);
      SignExtend(Leb128.Groups(bs), n);
    } else {
      SubtractPast(Leb128.Groups(bs), n);
    }
  }

  lemma SubtractPast(low: nat, n: nat)
    requires n >= 64
    ensures Wrap64(low - Pow2(n)) == Wrap64(low)
  {
    hide Pow2, Shl64;
    ShlPast(1, n);
    AddsNothing(low, Pow2(n));
  }

  lemma OrNoOverflow(low: nat, high: nat, k: nat)
    requires low < Pow2(k) && low + high * Pow2(k) < B64
    ensures Bits(Or, low, Shl64(high, k)) == low + high * Pow2(k)
  {
    SmallMod(high * Pow2(k), B64);
    OrIsAdd(low, high, k);
  }

  lemma AppendedByte(bs: seq<byte>, b: byte)
    requires |bs| < 8
    ensures LsbNumber(bs) < Pow2(|bs| * 8)
    ensures LsbNumber(bs) + b * Pow2(|bs| * 8) == LsbNumber(bs + [b]) < B64
  {
    LsbSnoc(bs, b);
    LsbNumberBound(bs);
    FixedNumberBound(Lsb, bs + [b]);
  }

  lemma OrByteAbove(bs: seq<byte>, b: byte)
    requires |bs| < 8
    ensures Bits(Or, LsbNumber(bs), Shl64(b, |bs| * 8)) == LsbNumber(bs + [b]) < B64
  {
    AppendedByte(bs, b);
    OrNoOverflow(LsbNumber(bs), b, |bs| * 8);
  }

  lemma OrByteBelow(bs: seq<byte>, b: byte)
    requires |bs| < 8
    ensures Bits(Or, Shl64(LsbNumber(Reverse(bs)), 8), b) == LsbNumber(Reverse(bs + [b])) < B64
  {
    ReverseSnoc(bs, b);
    MsbStep(bs, b);
    FixedNumberBound(Msb, bs + [b]);
    OrBelow(LsbNumber(Reverse(bs)), b);
  }

  lemma OrBelow(high: nat, b: byte)
    requires b + 256 * high < B64
    ensures Bits(Or, Shl64(high, 8), b) == b + 256 * high
  {
    Pow2Of64();
    SmallMod(high * 256, B64);
    OrIsAdd(b, high, 8);
  }

  lemma {:induction false} LsbSnoc(bs: seq<byte>, b: byte)
    ensures LsbNumber(bs + [b]) == LsbNumber(bs) + b * Pow2(8 * |bs|)
  {
    if bs == [] {
      assert bs + [b] == [b];
      assert [b][1..] == [];
    } else {
      assert (bs + [b])[1..] == bs[1..] + [b];
      LsbSnoc(bs[1..], b);
      Pow2Of64();
      Pow2Add(8, 8 * |bs| - 8);
      MulAssoc(256, b, Pow2(8 * |bs| - 8));
      MulAssoc(b, 256, Pow2(8 * |bs| - 8));
    }
  }

  lemma MsbStep(bs: seq<byte>, b: byte)
    ensures LsbNumber([b] + Reverse(bs)) == b + 256 * LsbNumber(Reverse(bs))
  {
    assert ([b] + Reverse(bs))[1..] == Reverse(bs);
  }

  /** Lengths from 0xfffffff0 on are reserved, but for the one that announces 64 bits. */
  lemma ReservedLength(s: Section, pos: nat)
    ensures var first := ReadFixed(s, 4, pos);
            first.Value? && 0xfffffff0 <= first.value.0 < 0xffffffff ==> ReadSubsection(s, pos) == Throw(Format)
  {
    hide ReadFixed;
  }
}
