/** The operations as bytes (section 7.7.1 of DWARF Version 4). */
module ExprEncode {
  import opened Outcomes
  import opened Words
  import opened Sections
  import opened Exprs
  import Leb128

  function UnaryCode(op: UnaryOp): byte {
    match op case Abs => 0x19 case Neg => 0x1f case Not => 0x20
  }

  function BinaryCode(op: BinaryOp): byte {
    match op
    case AndOp => 0x1a case DivOp => 0x1b case MinusOp => 0x1c case ModOp => 0x1d
    case MulOp => 0x1e case OrOp => 0x21 case PlusOp => 0x22 case ShlOp => 0x24
    case ShrOp => 0x25 case ShraOp => 0x26 case XorOp => 0x27
  }

  function RelationCode(rel: Relation): byte {
    match rel
    case Eq => 0x29 case Ge => 0x2a case Gt => 0x2b case Le => 0x2c case Lt => 0x2d case Ne => 0x2e
  }

  function NumCode(n: int): seq<byte> {
    if 0 <= n < 32 then [0x30 + n]
    else if -B63 <= n < 0 then [0x11] + Leb128.EncodeSigned(n, 0)
    else [0x10] + Leb128.EncodeUnsigned(Wrap64(n), 0)
  }

  function SizedOp(size: nat, signed: bool): byte {
    (if size == 1 then 0x08 else if size == 2 then 0x0a else if size == 4 then 0x0c else 0x0e)
    + if signed then 1 else 0
  }

  function SizedCode(ord: Order, size: nat, signed: bool, n: int): seq<byte> {
    [SizedOp(size, signed)] + EncodeFixed(ord, size, n % Pow2(8 * size))
  }

  ghost predicate SizedFits(size: nat, signed: bool, n: int) {
    size in {1, 2, 4, 8} &&
    if signed then 0 - Pow2(8 * size - 1) <= n < Pow2(8 * size - 1) else 0 <= n < Pow2(8 * size)
  }

  function RegCode(r: u32, offset: int): seq<byte> {
    if r < 32 then [0x70 + r] + Leb128.EncodeSigned(offset, 0)
    else [0x92] + Leb128.EncodeUnsigned(r, 0) + Leb128.EncodeSigned(offset, 0)
  }

  /** A jump over n bytes. */
  function Jump(ord: Order, op: byte, n: nat): seq<byte> {
    [op] + EncodeFixed(ord, 2, n)
  }

  /** The opcode of an operation without operands. */
  function PlainCode(i: Instr): byte {
    match i
    case Dup => 0x12 case Drop => 0x13 case Over => 0x14 case Swap => 0x16 case Rot => 0x17
    case Unary(op) => UnaryCode(op)
    case Binary(op) => BinaryCode(op)
    case Compare(rel) => RelationCode(rel)
    case Tls => 0x9b case StackValue => 0x9f
    case _ => 0x96
  }

  predicate HasNoOperands(i: Instr) {
    i.Dup? || i.Drop? || i.Over? || i.Swap? || i.Rot? || i.Unary? || i.Binary? || i.Compare? || i.Tls? ||
    i.StackValue? || i.Nop?
  }

  function EncodeSize(addrSize: nat, plain: byte, sized: byte, size: nat): seq<byte> {
    if size == addrSize then [plain] else [sized] + [AsByte(Wrap64(size))]
  }

  function EncodeInstr(s: Section, i: Instr): seq<byte> {
    match i
    case Const(v) => [0x10] + Leb128.EncodeUnsigned(v, 0)
    case RegOffset(r, offset) => RegCode(r, offset)
    case Pick(n) => [0x15] + [AsByte(Wrap64(n))]
    case Load(size) => EncodeSize(s.addrSize, 0x06, 0x94, size)
    case LoadSpace(size) => EncodeSize(s.addrSize, 0x18, 0x95, size)
    case PlusConst(u) => [0x23] + Leb128.EncodeUnsigned(u, 0)
    case Skip(d) => [0x2f] + EncodeFixed(s.ord, 2, d % 0x1_0000)
    case Bra(d) => [0x28] + EncodeFixed(s.ord, 2, d % 0x1_0000)
    case Register(v) => if v < 32 then [0x50 + v] else [0x90] + Leb128.EncodeUnsigned(v, 0)
    case ImplicitValue(_, len) => [0x9e] + Leb128.EncodeUnsigned(len, 0)
    case _ => [PlainCode(i)]
  }

  /** Operands within their fields; an implicit value's block starts right after its length,
      and is there. */
  ghost predicate Encodable(s: Section, i: Instr, pos: nat) {
    match i
    case RegOffset(_, offset) => -B63 <= offset < B63
    case Pick(n) => n < 256
    case Load(size) => size <= s.addrSize && size < 256
    case LoadSpace(size) => size <= s.addrSize && size < 256
    case Skip(d) => -0x8000 <= d < 0x8000
    case Bra(d) => -0x8000 <= d < 0x8000
    case ImplicitValue(start, len) =>
      start == pos + |EncodeInstr(s, i)| && start < |s.data| && start + len <= |s.data|
    case _ => true
  }

  lemma OpByte(s: Section, pos: nat, op: byte)
    requires At(s.data, pos, [op])
    ensures Decode(s, pos) == DecodeOp(s, op, pos + 1)
  {
    hide ReadFixed, DecodeOp;
    OneByte(s, pos, op);
    SmallMod(op, 256);
  }

  lemma PlainDecodes(s: Section, pos: nat, op: byte, i: Instr)
    requires At(s.data, pos, [op]) && Plain(s.addrSize, op) == Some(i)
    ensures Decode(s, pos) == Value((i, pos + 1))
  {
    hide Decode;
    OpByte(s, pos, op);
  }

  lemma CodesArePlain(addrSize: nat, unary: UnaryOp, binary: BinaryOp, rel: Relation)
    ensures Plain(addrSize, UnaryCode(unary)) == Some(Unary(unary))
    ensures Plain(addrSize, BinaryCode(binary)) == Some(Binary(binary))
    ensures Plain(addrSize, RelationCode(rel)) == Some(Compare(rel))
  {
  }

  lemma NumDecodes(s: Section, pos: nat, n: int)
    requires At(s.data, pos, NumCode(n))
    ensures Decode(s, pos) == Value((Const(Wrap64(n)), pos + |NumCode(n)|))
  {
    hide Decode, At, ReadUleb, ReadSleb, Plain;
    if 0 <= n < 32 {
      SmallMod(n, B64);
      OpByte(s, pos, 0x30 + n);
    } else if -B63 <= n < 0 {
      AtAppend(s.data, pos, [0x11], Leb128.EncodeSigned(n, 0));
      OpByte(s, pos, 0x11);
      SlebRoundTrip(s, n, 0, pos + 1);
    } else {
      AtAppend(s.data, pos, [0x10], Leb128.EncodeUnsigned(Wrap64(n), 0));
      OpByte(s, pos, 0x10);
      UlebRoundTrip(s, Wrap64(n), 0, pos + 1);
    }
  }

  lemma SizedOperand(s: Section, size: nat, signed: bool, n: int, p: nat)
    requires SizedFits(size, signed, n) && At(s.data, p, EncodeFixed(s.ord, size, n % Pow2(8 * size)))
    ensures |EncodeFixed(s.ord, size, n % Pow2(8 * size))| == size
    ensures ReadConst(s, SizedOp(size, signed), p) == Value((Wrap64(n), p + size))
  {
    hide ReadFixed, At, EncodeFixed, Pow2, ReadFixedSigned;
    EncodeFixedLength(s.ord, size, n % Pow2(8 * size));
    if signed {
      FixedSignedRoundTrip(s, size, n, p);
    } else {
      SmallMod(n, Pow2(8 * size));
      FixedRoundTrip(s, size, n, p);
      SmallMod(n, B64);
    }
  }

  lemma SizedDecodes(s: Section, pos: nat, size: nat, signed: bool, n: int)
    requires SizedFits(size, signed, n) && At(s.data, pos, SizedCode(s.ord, size, signed, n))
    ensures Decode(s, pos) == Value((Const(Wrap64(n)), pos + |SizedCode(s.ord, size, signed, n)|))
  {
    hide Decode, At, EncodeFixed, Pow2, ReadConst, Plain;
    AtAppend(s.data, pos, [SizedOp(size, signed)], EncodeFixed(s.ord, size, n % Pow2(8 * size)));
    OpByte(s, pos, SizedOp(size, signed));
    SizedOperand(s, size, signed, n, pos + 1);
  }

  lemma RegDecodes(s: Section, pos: nat, r: u32, offset: int)
    requires At(s.data, pos, RegCode(r, offset)) && -B63 <= offset < B63
    ensures Decode(s, pos) == Value((RegOffset(r, offset), pos + |RegCode(r, offset)|))
  {
    hide Decode, DecodeOp, At, ReadSleb;
    if r < 32 {
      AtAppend(s.data, pos, [0x70 + r], Leb128.EncodeSigned(offset, 0));
      OpByte(s, pos, 0x70 + r);
      SlebRoundTrip(s, offset, 0, pos + 1);
      BregOp(s, 0x70 + r, pos + 1);
    } else {
      BregxDecodes(s, pos, r, offset);
    }
  }

  lemma BregOp(s: Section, op: byte, p: nat)
    requires 0x70 <= op <= 0x8f && ReadSleb(s, p).Value?
    ensures DecodeOp(s, op, p) == Value((RegOffset(op - 0x70, ReadSleb(s, p).value.0), ReadSleb(s, p).value.1))
  {
    hide ReadSleb;
  }

  lemma BregxDecodes(s: Section, pos: nat, r: u32, offset: int)
    requires -B63 <= offset < B63
    requires At(s.data, pos, [0x92] + Leb128.EncodeUnsigned(r, 0) + Leb128.EncodeSigned(offset, 0))
    ensures Decode(s, pos) == Value((RegOffset(r, offset),
                                     pos + 1 + |Leb128.EncodeUnsigned(r, 0)| + |Leb128.EncodeSigned(offset, 0)|))
  {
    hide Decode, DecodeOp, At, ReadUleb, ReadSleb;
    var n, o := Leb128.EncodeUnsigned(r, 0), Leb128.EncodeSigned(offset, 0);
    AtAppend(s.data, pos, [0x92] + n, o);
    AtAppend(s.data, pos, [0x92], n);
    OpByte(s, pos, 0x92);
    UlebRoundTrip(s, r, 0, pos + 1);
    SlebRoundTrip(s, offset, 0, pos + 1 + |n|);
    BregxOp(s, pos + 1, r, pos + 1 + |n|, offset, pos + 1 + |n| + |o|);
  }

  lemma BregxOp(s: Section, p: nat, r: u32, q: nat, offset: int, next: nat)
    requires ReadUleb(s, p) == Value((r, q)) && ReadSleb(s, q) == Value((offset, next))
    ensures DecodeOp(s, 0x92, p) == Value((RegOffset(r, offset), next))
  {
    hide ReadUleb, ReadSleb, Plain, Wrap32;
    WrapSmall(r);
    PlainNot(s.addrSize, 0x92);
  }

  lemma PlainNot(addrSize: nat, op: byte)
    requires op in {0x10, 0x15, 0x23, 0x28, 0x2f, 0x90, 0x92, 0x9e}
    ensures Plain(addrSize, op) == None
  {
  }

  lemma PowersOfTwo()
    ensures Pow2(16) == 0x1_0000 && Pow2(15) == 0x8000
  {
    Pow2Of64();
    assert Pow2(16) == 2 * Pow2(15);
  }

  lemma PlainCodes(addrSize: nat, i: Instr)
    requires HasNoOperands(i)
    ensures Plain(addrSize, PlainCode(i)) == Some(i)
  {
    match i
    case Unary(op) => CodesArePlain(addrSize, op, AndOp, Eq);
    case Binary(op) => CodesArePlain(addrSize, Abs, op, Eq);
    case Compare(rel) => CodesArePlain(addrSize, Abs, AndOp, rel);
    case _ =>
  }

  /** An opcode and a one-byte operand. */
  lemma ByteOperand(s: Section, pos: nat, op: byte, n: nat)
    requires n < 256 && At(s.data, pos, [op] + [AsByte(Wrap64(n))])
    ensures Decode(s, pos) == DecodeOp(s, op, pos + 1)
    ensures ReadFixed(s, 1, pos + 1) == Value((n, pos + 2))
  {
    hide Decode, DecodeOp, ReadFixed, At;
    SmallMod(n, B64);
    SmallMod(n, 256);
    AtAppend(s.data, pos, [op], [AsByte(Wrap64(n))]);
    OpByte(s, pos, op);
    OneByte(s, pos + 1, n);
  }

  lemma SizeDecodes(s: Section, pos: nat, i: Instr)
    requires (i.Load? || i.LoadSpace?) && Encodable(s, i, pos) && At(s.data, pos, EncodeInstr(s, i))
    ensures Decode(s, pos) == Value((i, pos + |EncodeInstr(s, i)|))
  {
    hide Decode, ReadFixed, At;
    var plain, sized := if i.Load? then 0x06 else 0x18, if i.Load? then 0x94 else 0x95;
    if i.size == s.addrSize {
      OpByte(s, pos, plain);
    } else {
      ByteOperand(s, pos, sized, i.size);
    }
  }

  lemma BranchDecodes(s: Section, pos: nat, i: Instr)
    requires (i.Skip? || i.Bra?) && Encodable(s, i, pos) && At(s.data, pos, EncodeInstr(s, i))
    ensures Decode(s, pos) == Value((i, pos + |EncodeInstr(s, i)|))
  {
    hide Decode, At, ReadFixedSigned, EncodeFixed, Plain, Pow2;
    var op: byte := if i.Bra? then 0x28 else 0x2f;
    var bytes := EncodeFixed(s.ord, 2, i.distance % 0x1_0000);
    AtAppend(s.data, pos, [op], bytes);
    OpByte(s, pos, op);
    EncodeFixedLength(s.ord, 2, i.distance % 0x1_0000);
    PowersOfTwo();
    FixedSignedRoundTrip(s, 2, i.distance, pos + 1);
    PlainNot(s.addrSize, op);
  }

  /** An opcode and a LEB128 operand. */
  lemma LebOperand(s: Section, pos: nat, op: byte, v: u64)
    requires At(s.data, pos, [op] + Leb128.EncodeUnsigned(v, 0))
    ensures Decode(s, pos) == DecodeOp(s, op, pos + 1)
    ensures ReadUleb(s, pos + 1) == Value((v, pos + 1 + |Leb128.EncodeUnsigned(v, 0)|))
  {
    hide Decode, DecodeOp, At, ReadUleb;
    AtAppend(s.data, pos, [op], Leb128.EncodeUnsigned(v, 0));
    OpByte(s, pos, op);
    UlebRoundTrip(s, v, 0, pos + 1);
  }

  lemma ConstDecodes(s: Section, pos: nat, v: u64)
    requires At(s.data, pos, [0x10] + Leb128.EncodeUnsigned(v, 0))
    ensures Decode(s, pos) == Value((Const(v), pos + 1 + |Leb128.EncodeUnsigned(v, 0)|))
  {
    hide Decode, At, ReadUleb, Plain;
    LebOperand(s, pos, 0x10, v);
  }

  lemma AddDecodes(s: Section, pos: nat, u: u64)
    requires At(s.data, pos, [0x23] + Leb128.EncodeUnsigned(u, 0))
    ensures Decode(s, pos) == Value((PlusConst(u), pos + 1 + |Leb128.EncodeUnsigned(u, 0)|))
  {
    hide Decode, At, ReadUleb, Plain;
    LebOperand(s, pos, 0x23, u);
    PlainNot(s.addrSize, 0x23);
  }

  lemma RegisterDecodes(s: Section, pos: nat, r: u64)
    requires At(s.data, pos, EncodeInstr(s, Register(r)))
    ensures Decode(s, pos) == Value((Register(r), pos + |EncodeInstr(s, Register(r))|))
  {
    hide Decode, At, ReadUleb, Plain;
    if r < 32 {
      OpByte(s, pos, 0x50 + r);
    } else {
      LebOperand(s, pos, 0x90, r);
      PlainNot(s.addrSize, 0x90);
    }
  }

  lemma ValueDecodes(s: Section, pos: nat, i: Instr)
    requires i.ImplicitValue? && Encodable(s, i, pos) && At(s.data, pos, EncodeInstr(s, i))
    ensures Decode(s, pos) == Value((i, pos + |EncodeInstr(s, i)|))
  {
    hide Decode, At, ReadUleb, Plain;
    LebOperand(s, pos, 0x9e, i.len);
    PlainNot(s.addrSize, 0x9e);
  }

  lemma JumpDecodes(s: Section, pos: nat, op: byte, n: nat)
    requires op in {0x28, 0x2f} && n < 0x8000 && At(s.data, pos, Jump(s.ord, op, n))
    ensures |Jump(s.ord, op, n)| == 3
    ensures Decode(s, pos) == Value((if op == 0x28 then Bra(n) else Skip(n), pos + 3))
  {
    hide Decode, At, EncodeFixed;
    SmallMod(n, 0x1_0000);
    EncodeFixedLength(s.ord, 2, n);
    BranchDecodes(s, pos, if op == 0x28 then Bra(n) else Skip(n));
  }

  /** Decoding inverts encoding for every operation the machine has. */
  lemma InstrRoundTrip(s: Section, i: Instr, pos: nat)
    requires Encodable(s, i, pos) && At(s.data, pos, EncodeInstr(s, i))
    ensures Decode(s, pos) == Value((i, pos + |EncodeInstr(s, i)|))
  {
    hide Decode, At, Plain, PlainCode;
    match i
    case Const(v) => ConstDecodes(s, pos, v);
    case PlusConst(u) => AddDecodes(s, pos, u);
    case Register(r) => RegisterDecodes(s, pos, r);
    case ImplicitValue(_, _) => ValueDecodes(s, pos, i);
    case RegOffset(r, offset) => RegDecodes(s, pos, r, offset);
    case Pick(n) => PickDecodes(s, pos, n);
    case Load(_) | LoadSpace(_) => SizeDecodes(s, pos, i);
    case Skip(_) | Bra(_) => BranchDecodes(s, pos, i);
    case _ =>
      PlainCodes(s.addrSize, i);
      PlainDecodes(s, pos, PlainCode(i), i);
  }

  lemma PickDecodes(s: Section, pos: nat, n: nat)
    requires n < 256 && At(s.data, pos, [0x15] + [AsByte(Wrap64(n))])
    ensures Decode(s, pos) == Value((Pick(n), pos + 2))
  {
    hide Decode, ReadFixed, At, Plain;
    ByteOperand(s, pos, 0x15, n);
    PlainNot(s.addrSize, 0x15);
  }
}
