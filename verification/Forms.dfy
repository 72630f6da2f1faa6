/** Attribute forms (section 7.5.4 of DWARF Version 4): how each is encoded, and how the
    cursor skips one without decoding it. */
module Forms {
  import opened Outcomes
  import opened Words
  import opened Sections
  import Leb128

  datatype Form =
    | Addr | Block1 | Block2 | Block4 | Block | Exprloc
    | Data1 | Data2 | Data4 | Data8 | Sdata | Udata
    | String | Strp | Flag | FlagPresent
    | RefAddr | Ref1 | Ref2 | Ref4 | Ref8 | RefUdata | RefSig8
    | SecOffset | Indirect
    | Other(code: u32)

  /** The cast of a decoded number to the 32-bit enumeration. */
  function FormOf(code: u64): Form {
    match Wrap32(code)
    case 0x01 => Addr case 0x03 => Block2 case 0x04 => Block4 case 0x05 => Data2
    case 0x06 => Data4 case 0x07 => Data8 case 0x08 => String case 0x09 => Block
    case 0x0a => Block1 case 0x0b => Data1 case 0x0c => Flag case 0x0d => Sdata
    case 0x0e => Strp case 0x0f => Udata case 0x10 => RefAddr case 0x11 => Ref1
    case 0x12 => Ref2 case 0x13 => Ref4 case 0x14 => Ref8 case 0x15 => RefUdata
    case 0x16 => Indirect case 0x17 => SecOffset case 0x18 => Exprloc
    case 0x19 => FlagPresent case 0x20 => RefSig8
    case c => Other(c)
  }

  function CodeOf(f: Form): u32 {
    match f
    case Addr => 0x01 case Block2 => 0x03 case Block4 => 0x04 case Data2 => 0x05
    case Data4 => 0x06 case Data8 => 0x07 case String => 0x08 case Block => 0x09
    case Block1 => 0x0a case Data1 => 0x0b case Flag => 0x0c case Sdata => 0x0d
    case Strp => 0x0e case Udata => 0x0f case RefAddr => 0x10 case Ref1 => 0x11
    case Ref2 => 0x12 case Ref4 => 0x13 case Ref8 => 0x14 case RefUdata => 0x15
    case Indirect => 0x16 case SecOffset => 0x17 case Exprloc => 0x18
    case FlagPresent => 0x19 case RefSig8 => 0x20
    case Other(c) => c
  }

  /** Past the first byte with bit 7 clear; past the end if there is none. */
  function SkipGroups(d: seq<byte>, pos: nat): (next: nat)
    ensures next > pos
    decreases |d| - pos
  {
    if pos < |d| && d[pos] >= 128 then SkipGroups(d, pos + 1) else pos + 1
  }

  function SkipText(d: seq<byte>, pos: nat): (next: nat)
    ensures next > pos
    decreases |d| - pos
  {
    if pos < |d| && d[pos] != 0 then SkipText(d, pos + 1) else pos + 1
  }

  /** A length read by one of the block forms, then that many bytes. */
  function SkipCounted(count: Outcome<(u64, nat)>): Outcome<nat> {
    var (n, next) :- count;
    Value(next + n)
  }

  /** The length field of a block form. */
  function ReadCount(s: Section, form: Form, pos: nat): Outcome<(u64, nat)> {
    match form
    case Block1 => ReadFixed(s, 1, pos)
    case Block2 => ReadFixed(s, 2, pos)
    case Block4 => ReadFixed(s, 4, pos)
    case _ => ReadUleb(s, pos)
  }

  /** The offset after an attribute of the given form, found without decoding it.
      There is no case for DW_FORM_ref8. */
  function SkipForm(s: Section, form: Form, pos: nat): Outcome<nat>
    decreases |s.data| - pos
  {
    match form
    case Addr => Value(pos + s.addrSize)
    case SecOffset | RefAddr | Strp =>
      var n :- OffsetSize(s);
      Value(pos + n)
    case Block1 | Block2 | Block4 | Block | Exprloc => SkipCounted(ReadCount(s, form, pos))
    case FlagPresent => Value(pos)
    case Flag | Data1 | Ref1 => Value(pos + 1)
    case Data2 | Ref2 => Value(pos + 2)
    case Data4 | Ref4 => Value(pos + 4)
    case Data8 | RefSig8 => Value(pos + 8)
    case Sdata | Udata | RefUdata => Value(SkipGroups(s.data, pos))
    case String => Value(SkipText(s.data, pos))
    case Indirect =>
      var (code, next) :- ReadUleb(s, pos);
      SkipForm(s, FormOf(code), next)
    case Ref8 | Other(_) => Throw(Format)
  }

  /** An attribute's payload as it is laid out in the unit. */
  datatype Attr =
    | Number(n: u64)                                 // fixed-width forms, addresses, offsets
    | Uleb(u: u64, pad: nat)                         // udata, ref_udata
    | Sleb(i: int, pad: nat)                         // sdata
    | Bytes(bytes: seq<byte>, pad: nat)              // blocks and expressions
    | Text(text: seq<byte>)                          // inline string
    | Present                                        // flag_present
    | Via(form: Form, codePad: nat, inner: Attr)     // indirect: the form is part of the value

  /** Width of the forms whose size does not depend on their content. */
  function Width(s: Section, form: Form): nat {
    match form
    case Addr => if s.addrSize in {1, 2, 4, 8} then s.addrSize else 0
    case SecOffset | RefAddr | Strp => if s.fmt.Dwarf32? then 4 else if s.fmt.Dwarf64? then 8 else 0
    case Block1 | Flag | Data1 | Ref1 => 1
    case Block2 | Data2 | Ref2 => 2
    case Block4 | Data4 | Ref4 => 4
    case Data8 | Ref8 | RefSig8 => 8
    case _ => 0
  }

  /** The payload can be written in the given form of the given section. */
  ghost predicate Writable(s: Section, form: Form, a: Attr)
    decreases a
  {
    match form
    case Block1 | Block2 | Block4 =>
      a.Bytes? && |a.bytes| < Pow2(8 * Width(s, form)) && a.pad == 0
    case Block | Exprloc => a.Bytes? && |a.bytes| < B64
    case Udata | RefUdata => a.Uleb?
    case Sdata => a.Sleb? && -B63 <= a.i < B63
    case String => a.Text? && forall i :: 0 <= i < |a.text| ==> a.text[i] != 0
    case FlagPresent => a.Present?
    case Indirect => a.Via? && Writable(s, a.form, a.inner)
    case Other(_) => false
    case _ => a.Number? && Width(s, form) > 0 && a.n < Pow2(8 * Width(s, form))
  }

  ghost function Encode(s: Section, form: Form, a: Attr): seq<byte>
    decreases a
  {
    match a
    case Number(n) => EncodeFixed(s.ord, Width(s, form), n)
    case Uleb(u, pad) => Leb128.EncodeUnsigned(u, pad)
    case Sleb(i, pad) => Leb128.EncodeSigned(i, pad)
    case Bytes(bytes, pad) => EncodeCount(s, form, |bytes|, pad) + bytes
    case Text(text) => text + [0]
    case Present => []
    case Via(f, codePad, inner) =>
      Leb128.EncodeUnsigned(CodeOf(f), codePad) + Encode(s, f, inner)
  }

  ghost function EncodeCount(s: Section, form: Form, n: nat, pad: nat): seq<byte> {
    if form == Block || form == Exprloc then Leb128.EncodeUnsigned(n, pad)
    else EncodeFixed(s.ord, Width(s, form), n)
  }

  /** The form reached through any chain of indirections. */
  ghost function Innermost(form: Form, a: Attr): Form
    decreases a
  {
    if form == Indirect && a.Via? then Innermost(a.form, a.inner) else form
  }

  lemma FormRoundTrip(f: Form)
    requires !f.Other?
    ensures FormOf(CodeOf(f)) == f
  {
    hide Wrap32;
    WrapSmall(CodeOf(f));
  }

  lemma {:induction false} SkipGroupsIs(d: seq<byte>, pos: nat, n: nat)
    requires pos + n <= |d| && Leb128.Length(d[pos..]) == Value(n)
    ensures SkipGroups(d, pos) == pos + n
    decreases n
  {
    if d[pos] >= 128 {
      assert d[pos..][1..] == d[pos + 1..];
      SkipGroupsIs(d, pos + 1, n - 1);
    }
  }

  lemma {:induction false} SkipGroupsPastEnd(d: seq<byte>, pos: nat)
    requires pos <= |d| && Leb128.Length(d[pos..]).Throw?
    ensures SkipGroups(d, pos) == |d| + 1
    decreases |d| - pos
  {
    if pos < |d| {
      assert d[pos..][1..] == d[pos + 1..];
      SkipGroupsPastEnd(d, pos + 1);
    }
  }

  /** The skip loop stops where the decoder stops; where the decoder throws for want of a
      final byte, the loop runs past the end without throwing. */
  lemma SkipMatchesLeb(s: Section, pos: nat)
    requires pos <= |s.data|
    ensures match ReadUleb(s, pos)
            case Value((_, next)) => SkipGroups(s.data, pos) == next
            case Throw(e) => e == Underflow && SkipGroups(s.data, pos) == |s.data| + 1
    ensures match ReadSleb(s, pos)
            case Value((_, next)) => SkipGroups(s.data, pos) == next
            case Throw(e) => e == Underflow && SkipGroups(s.data, pos) == |s.data| + 1
  {
    var n := Leb128.Length(s.data[pos..]);
    LengthThrows(s.data[pos..]);
    if n.Value? {
      SkipGroupsIs(s.data, pos, n.value);
    } else {
      SkipGroupsPastEnd(s.data, pos);
    }
  }

  lemma {:induction false} LengthThrows(bs: seq<byte>)
    ensures Leb128.Length(bs).Throw? ==> Leb128.Length(bs) == Throw(Underflow)
  {
    if bs != [] {
      LengthThrows(bs[1..]);
    }
  }

  lemma {:induction false} SkipTextIs(d: seq<byte>, pos: nat)
    requires pos <= |d|
    ensures SkipText(d, pos) == pos + ZeroAt(d[pos..]) + 1
    decreases |d| - pos
  {
    if pos < |d| && d[pos] != 0 {
      assert d[pos..][1..] == d[pos + 1..];
      SkipTextIs(d, pos + 1);
    }
  }

  lemma SkipMatchesCstr(s: Section, pos: nat)
    requires pos <= |s.data|
    ensures match ReadCstr(s, pos)
            case Value((_, next)) => SkipText(s.data, pos) == next
            case Throw(e) => e == Format && SkipText(s.data, pos) == |s.data| + 1
  {
    SkipTextIs(s.data, pos);
  }

  lemma SkipCountedBlock(s: Section, form: Form, a: Attr, pos: nat)
    requires form in {Block1, Block2, Block4, Block, Exprloc} && Writable(s, form, a)
    requires At(s.data, pos, Encode(s, form, a))
    ensures SkipForm(s, form, pos) == Value(pos + |Encode(s, form, a)|)
  {
    hide Writable, ReadUleb, ReadFixed, At, EncodeCount;
    CountIs(s, form, a);
    var count := EncodeCount(s, form, |a.bytes|, a.pad);
    AtAppend(s.data, pos, count, a.bytes);
    CountRoundTrip(s, form, |a.bytes|, a.pad, pos);
  }

  ghost predicate Countable(s: Section, form: Form, n: nat) {
    match form
    case Block1 => n < 0x100
    case Block2 => n < 0x1_0000
    case Block4 => n < B32
    case _ => n < B64
  }

  lemma CountIs(s: Section, form: Form, a: Attr)
    requires form in {Block1, Block2, Block4, Block, Exprloc} && Writable(s, form, a)
    ensures a.Bytes? && Countable(s, form, |a.bytes|)
    ensures Encode(s, form, a) == EncodeCount(s, form, |a.bytes|, a.pad) + a.bytes
  {
    Pow2Of64();
  }

  lemma CountRoundTrip(s: Section, form: Form, n: nat, pad: nat, pos: nat)
    requires form in {Block1, Block2, Block4, Block, Exprloc} && Countable(s, form, n)
    requires At(s.data, pos, EncodeCount(s, form, n, pad))
    ensures n < B64
    ensures ReadCount(s, form, pos) == Value((n, pos + |EncodeCount(s, form, n, pad)|))
  {
    hide ReadUleb, ReadFixed, At, EncodeFixed, Pow2;
    if form == Block || form == Exprloc {
      UlebRoundTrip(s, n, pad, pos);
    } else {
      CountFits(s, form, n);
      EncodeFixedLength(s.ord, Width(s, form), n);
      FixedRoundTrip(s, Width(s, form), n, pos);
    }
  }

  lemma CountFits(s: Section, form: Form, n: nat)
    requires form in {Block1, Block2, Block4} && Countable(s, form, n)
    ensures n < Pow2(8 * Width(s, form)) && n < B64
  {
    Pow2Of64();
  }

  lemma SkipVariable(s: Section, form: Form, a: Attr, pos: nat)
    requires form in {Udata, RefUdata, Sdata, String} && Writable(s, form, a)
    requires At(s.data, pos, Encode(s, form, a))
    ensures SkipForm(s, form, pos) == Value(pos + |Encode(s, form, a)|)
  {
    hide ReadUleb, ReadSleb, ReadCstr, At;
    assert pos <= |s.data| by { AtBound(s.data, pos, Encode(s, form, a)); }
    if form == Sdata {
      SlebRoundTrip(s, a.i, a.pad, pos);
      SkipMatchesLeb(s, pos);
    } else if form == String {
      CstrRoundTrip(s, a.text, pos);
      SkipMatchesCstr(s, pos);
    } else {
      UlebRoundTrip(s, a.u, a.pad, pos);
      SkipMatchesLeb(s, pos);
    }
  }

  lemma SkipFixedWidth(s: Section, form: Form, a: Attr, pos: nat)
    requires a.Number? && Writable(s, form, a)
    ensures SkipForm(s, form, pos) ==
            if form == Ref8 then Throw(Format) else Value(pos + |Encode(s, form, a)|)
  {
    EncodeFixedLength(s.ord, Width(s, form), a.n);
  }

  /** An indirect value is its inner form's code, then the inner value. */
  lemma IndirectStep(s: Section, a: Attr, pos: nat) returns (inner: nat)
    requires a.Via? && !a.form.Other? && At(s.data, pos, Encode(s, Indirect, a))
    ensures pos < inner && inner + |Encode(s, a.form, a.inner)| == pos + |Encode(s, Indirect, a)|
    ensures ReadUleb(s, pos) == Value((CodeOf(a.form), inner)) && FormOf(CodeOf(a.form)) == a.form
    ensures At(s.data, inner, Encode(s, a.form, a.inner))
  {
    var code := Leb128.EncodeUnsigned(CodeOf(a.form), a.codePad);
    AtAppend(s.data, pos, code, Encode(s, a.form, a.inner));
    UlebRoundTrip(s, CodeOf(a.form), a.codePad, pos);
    FormRoundTrip(a.form);
    inner := pos + |code|;
  }

  lemma WritableInner(s: Section, a: Attr)
    requires Writable(s, Indirect, a)
    ensures a.Via? && Writable(s, a.form, a.inner)
  {
  }

  lemma WritableShape(s: Section, form: Form, a: Attr)
    requires Writable(s, form, a)
    ensures !form.Other? && (a.Via? <==> form == Indirect)
    ensures a.Bytes? <==> form in {Block1, Block2, Block4, Block, Exprloc}
    ensures a.Present? <==> form == FlagPresent
    ensures a.Uleb? || a.Sleb? || a.Text? <==> form in {Udata, RefUdata, Sdata, String}
  {
  }

  /** Skipping advances over exactly the encoded bytes, through any nesting of
      DW_FORM_indirect - except that DW_FORM_ref8, however it is reached, is rejected. */
  lemma {:induction false} SkipMatchesEncoding(s: Section, form: Form, a: Attr, pos: nat)
    requires Writable(s, form, a) && At(s.data, pos, Encode(s, form, a))
    ensures SkipForm(s, form, pos) ==
            if Innermost(form, a) == Ref8 then Throw(Format)
            else Value(pos + |Encode(s, form, a)|)
    decreases a
  {
    hide Writable, ReadUleb, ReadCount, At;
    WritableShape(s, form, a);
    if form == Indirect {
      WritableInner(s, a);
      WritableShape(s, a.form, a.inner);
      var inner := IndirectStep(s, a, pos);
      SkipMatchesEncoding(s, a.form, a.inner, inner);
    } else if a.Bytes? {
      SkipCountedBlock(s, form, a, pos);
    } else if a.Number? {
      SkipFixedWidth(s, form, a, pos);
    } else if a != Present {
      SkipVariable(s, form, a, pos);
    }
  }

  /** A form that is not known cannot be skipped. */
  lemma UnknownForm(s: Section, code: u64, pos: nat)
    requires code % 0x1_0000_0000 !in {0x01, 0x03, 0x04, 0x05, 0x06, 0x07, 0x08, 0x09, 0x0a, 0x0b, 0x0c, 0x0d, 0x0e,
                                       0x0f, 0x10, 0x11, 0x12, 0x13, 0x14, 0x15, 0x16, 0x17, 0x18, 0x19, 0x20}
    ensures SkipForm(s, FormOf(code), pos) == Throw(Format)
  {
  }

  /** The forms by number (section 7.5.4). */
  lemma FormNumbers()
    ensures FormOf(0x01) == Addr && FormOf(0x03) == Block2 && FormOf(0x04) == Block4 && FormOf(0x05) == Data2
    ensures FormOf(0x06) == Data4 && FormOf(0x07) == Data8 && FormOf(0x08) == String && FormOf(0x09) == Block
    ensures FormOf(0x0a) == Block1 && FormOf(0x0b) == Data1 && FormOf(0x0c) == Flag && FormOf(0x0d) == Sdata
    ensures FormOf(0x0e) == Strp && FormOf(0x0f) == Udata && FormOf(0x10) == RefAddr && FormOf(0x11) == Ref1
  {
  }

  lemma MoreFormNumbers()
    ensures FormOf(0x12) == Ref2 && FormOf(0x13) == Ref4 && FormOf(0x14) == Ref8 && FormOf(0x15) == RefUdata
    ensures FormOf(0x16) == Indirect && FormOf(0x17) == SecOffset && FormOf(0x18) == Exprloc
    ensures FormOf(0x19) == FlagPresent && FormOf(0x20) == RefSig8
  {
  }
}
