/** Attribute values: their types, the typed readers, and resolution of DW_FORM_indirect. */
module Values {
  import opened Outcomes
  import opened Words
  import opened Sections
  import opened Forms
  import opened Cursors

  datatype Type =
    | Invalid | AddressType | BlockType | Constant | Uconstant | Sconstant | ExprlocType
    | FlagType | Line | Loclist | Mac | Rangelist | Reference | StringType

  const SIBLING: u32 := 0x01
  const STMT_LIST: u32 := 0x10
  const MACRO_INFO: u32 := 0x43

  // location, byte_size, bit_offset, bit_size, string_length, lower_bound, return_addr,
  // bit_stride, upper_bound, count, data_member_location, frame_base, segment, static_link,
  // use_location, vtable_elem_location, allocated, associated, data_location, byte_stride
  const EXPRESSION_NAMES: set<int> :=
    {0x02, 0x0b, 0x0c, 0x0d, 0x19, 0x22, 0x2a, 0x2e, 0x2f, 0x37, 0x38, 0x40, 0x46, 0x48,
     0x4a, 0x4d, 0x4e, 0x4f, 0x50, 0x51}

  // location, string_length, return_addr, data_member_location, frame_base, segment,
  // static_link, use_location, vtable_elem_location
  const LOCLIST_NAMES: set<int> := {0x02, 0x19, 0x2a, 0x38, 0x40, 0x46, 0x48, 0x4a, 0x4d}

  // start_scope, ranges
  const RANGE_NAMES: set<int> := {0x2c, 0x55}

  /** The names whose data4 and data8 values were section offsets before DWARF 4. */
  const OFFSET_NAMES: set<int> := LOCLIST_NAMES + RANGE_NAMES + {0x10, 0x43}

  function SecOffsetType(name: u32): Outcome<Type> {
    if name == STMT_LIST then Value(Line)
    else if name in LOCLIST_NAMES then Value(Loclist)
    else if name == MACRO_INFO then Value(Mac)
    else if name in RANGE_NAMES then Value(Rangelist)
    else if 0x2000 <= name <= 0x3fff then Value(Invalid)
    else Throw(Format)
  }

  function ResolveType(name: u32, form: Form): Outcome<Type> {
    match form
    case Addr => Value(AddressType)
    case Block | Block1 | Block2 | Block4 =>
      Value(if name in EXPRESSION_NAMES then ExprlocType else BlockType)
    case Data4 | Data8 => if name in OFFSET_NAMES then SecOffsetType(name) else Value(Constant)
    case Data1 | Data2 => Value(Constant)
    case Udata => Value(Uconstant)
    case Sdata => Value(Sconstant)
    case Exprloc => Value(ExprlocType)
    case Flag | FlagPresent => Value(FlagType)
    case Ref1 | Ref2 | Ref4 | Ref8 | RefAddr | RefSig8 | RefUdata => Value(Reference)
    case String | Strp => Value(StringType)
    case Indirect => Value(Invalid)
    case SecOffset => SecOffsetType(name)
    case Other(_) => Throw(Format)
  }

  /** A type is missing only for an unknown form, or for DW_FORM_sec_offset on a standard
      attribute that takes no section offset: the older data4 and data8 never fail. */
  lemma ResolveTypeThrows(name: u32, form: Form)
    ensures ResolveType(name, form).Throw? <==>
            form.Other? || (form == SecOffset && name !in OFFSET_NAMES && !(0x2000 <= name <= 0x3fff))
  {
  }

  // The typed readers: `form` is the value's stored form, `off` its offset in the unit.

  function AsAddress(s: Section, form: Form, off: nat): Outcome<u64> {
    if form != Addr then Throw(TypeMismatch)
    else
      var (a, _) :- ReadAddress(s, off);
      Value(a)
  }

  function BlockSize(s: Section, form: Form, off: nat): Outcome<(u64, nat)> {
    match form
    case Block1 => ReadFixed(s, 1, off)
    case Block2 => ReadFixed(s, 2, off)
    case Block4 => ReadFixed(s, 4, off)
    case Block | Exprloc => ReadUleb(s, off)
    case _ => Throw(TypeMismatch)
  }

  /** The block's bytes.  The final bounds check fails at the very end of the section even
      when no byte is asked for. */
  function AsBlock(s: Section, form: Form, off: nat): Outcome<seq<byte>> {
    var (size, p) :- BlockSize(s, form, off);
    if p >= |s.data| || |s.data| - p < size then Throw(Underflow)
    else Value(s.data[p..p + size])
  }

  /** Where the expression starts and how long it claims to be; not checked here. */
  function AsExprloc(s: Section, form: Form, off: nat): Outcome<(nat, u64)> {
    var (size, p) :- BlockSize(s, form, off);
    Value((p, size))
  }

  function AsUconstant(s: Section, form: Form, off: nat): Outcome<u64> {
    var (v, _) :-
      match form
      case Data1 => ReadFixed(s, 1, off)
      case Data2 => ReadFixed(s, 2, off)
      case Data4 => ReadFixed(s, 4, off)
      case Data8 => ReadFixed(s, 8, off)
      case Udata => ReadUleb(s, off)
      case _ => Throw(TypeMismatch);
    Value(v)
  }

  function AsSconstant(s: Section, form: Form, off: nat): Outcome<int> {
    var (v, _) :-
      match form
      case Data1 => ReadFixedSigned(s, 1, off)
      case Data2 => ReadFixedSigned(s, 2, off)
      case Data4 => ReadFixedSigned(s, 4, off)
      case Data8 => ReadFixedSigned(s, 8, off)
      case Sdata => ReadSleb(s, off)
      case _ => Throw(TypeMismatch);
    Value(v)
  }

  function AsFlag(s: Section, form: Form, off: nat): Outcome<bool> {
    match form
    case Flag =>
      var (v, _) :- ReadFixed(s, 1, off);
      Value(v != 0)
    case FlagPresent => Value(true)
    case _ => Throw(TypeMismatch)
  }

  /** An inline string, or the one at an offset of the string section `strs`. */
  function AsCstr(s: Section, strs: Section, form: Form, off: nat): Outcome<seq<byte>> {
    match form
    case String =>
      var (t, _) :- ReadCstr(s, off);
      Value(t)
    case Strp =>
      var (o, _) :- ReadOffset(s, off);
      var (t, _) :- ReadCstr(strs, o);
      Value(t)
    case _ => Throw(TypeMismatch)
  }

  function AsSecOffset(s: Section, form: Form, off: nat): Outcome<u64> {
    var (v, _) :-
      match form
      case Data4 => ReadFixed(s, 4, off)
      case Data8 => ReadFixed(s, 8, off)
      case SecOffset => ReadOffset(s, off)
      case _ => Throw(TypeMismatch);
    Value(v)
  }

  /** The number stored by a reference form, before it is turned into a DIE. */
  function ReferenceOperand(s: Section, form: Form, off: nat): Outcome<u64> {
    var (v, _) :-
      match form
      case Ref1 => ReadFixed(s, 1, off)
      case Ref2 => ReadFixed(s, 2, off)
      case Ref4 => ReadFixed(s, 4, off)
      case Ref8 | RefSig8 => ReadFixed(s, 8, off)
      case RefUdata => ReadUleb(s, off)
      case RefAddr => ReadOffset(s, off)
      case _ => Throw(TypeMismatch);
    Value(v)
  }

  /** What a reader returns. */
  datatype Datum =
    | DAddress(a: u64)
    | DUnsigned(u: u64)
    | DSigned(i: int)
    | DBlock(bytes: seq<byte>)
    | DFlag(b: bool)
    | DString(text: seq<byte>)
    | DReference(target: u64)
    | DOffset(offset: u64)

  /** Read a value with the reader made for its form. */
  function ReadDatum(s: Section, strs: Section, form: Form, off: nat): Outcome<Datum> {
    match form
    case Addr => var v :- AsAddress(s, form, off); Value(DAddress(v))
    case Block1 | Block2 | Block4 | Block | Exprloc =>
      var v :- AsBlock(s, form, off); Value(DBlock(v))
    case Data1 | Data2 | Data4 | Data8 | Udata =>
      var v :- AsUconstant(s, form, off); Value(DUnsigned(v))
    case Sdata => var v :- AsSconstant(s, form, off); Value(DSigned(v))
    case String | Strp => var v :- AsCstr(s, strs, form, off); Value(DString(v))
    case Flag | FlagPresent => var v :- AsFlag(s, form, off); Value(DFlag(v))
    case SecOffset => var v :- AsSecOffset(s, form, off); Value(DOffset(v))
    case _ => var v :- ReferenceOperand(s, form, off); Value(DReference(v))
  }

  lemma LebsThrow(s: Section, pos: nat)
    ensures ReadUleb(s, pos) != Throw(TypeMismatch)
    ensures ReadSleb(s, pos) != Throw(TypeMismatch)
  {
    LengthThrows(Rest(s, pos));
  }

  lemma FieldsThrow(s: Section, pos: nat)
    ensures ReadFixed(s, 1, pos) != Throw(TypeMismatch) && ReadFixed(s, 2, pos) != Throw(TypeMismatch)
    ensures ReadFixed(s, 4, pos) != Throw(TypeMismatch) && ReadFixed(s, 8, pos) != Throw(TypeMismatch)
    ensures ReadAddress(s, pos) != Throw(TypeMismatch) && ReadOffset(s, pos) != Throw(TypeMismatch)
    ensures ReadCstr(s, pos) != Throw(TypeMismatch)
  {
  }

  lemma TypeTellsPlain(s: Section, name: u32, form: Form, off: nat)
    requires ResolveType(name, form).Value?
    ensures AsAddress(s, form, off) == Throw(TypeMismatch) <==> ResolveType(name, form).value != AddressType
    ensures AsFlag(s, form, off) == Throw(TypeMismatch) <==> ResolveType(name, form).value != FlagType
  {
    hide ReadFixed, ReadAddress, SecOffsetType;
    FieldsThrow(s, off);
    SecOffsetTypes(name);
  }

  lemma TypeTellsString(s: Section, strs: Section, name: u32, form: Form, off: nat)
    requires ResolveType(name, form).Value?
    ensures AsCstr(s, strs, form, off) == Throw(TypeMismatch) <==> ResolveType(name, form).value != StringType
  {
    hide ReadOffset, ReadCstr, SecOffsetType;
    FieldsThrow(s, off);
    if ReadOffset(s, off).Value? {
      FieldsThrow(strs, ReadOffset(s, off).value.0);
    }
    SecOffsetTypes(name);
  }

  lemma TypeTellsReference(s: Section, name: u32, form: Form, off: nat)
    requires ResolveType(name, form).Value?
    ensures ReferenceOperand(s, form, off) == Throw(TypeMismatch) <==> ResolveType(name, form).value != Reference
  {
    hide ReadUleb, ReadFixed, ReadOffset, SecOffsetType;
    LebsThrow(s, off);
    FieldsThrow(s, off);
    SecOffsetTypes(name);
  }

  lemma TypeTellsBlocks(s: Section, name: u32, form: Form, off: nat)
    requires ResolveType(name, form).Value?
    ensures var t := ResolveType(name, form).value;
            && (AsBlock(s, form, off) == Throw(TypeMismatch) <==> t != BlockType && t != ExprlocType)
            && (AsExprloc(s, form, off) == Throw(TypeMismatch) <==> t != BlockType && t != ExprlocType)
  {
    hide ReadUleb, ReadFixed, SecOffsetType;
    LebsThrow(s, off);
    FieldsThrow(s, off);
    SecOffsetTypes(name);
  }

  lemma TypeTellsUnsigned(s: Section, name: u32, form: Form, off: nat)
    requires ResolveType(name, form).Value?
    ensures AsUconstant(s, form, off) == Throw(TypeMismatch) <==>
            ResolveType(name, form).value !in {Constant, Uconstant} && form != Data4 && form != Data8
  {
    hide ReadUleb, ReadFixed, SecOffsetType;
    LebsThrow(s, off);
    FieldsThrow(s, off);
    SecOffsetTypes(name);
  }

  lemma TypeTellsSigned(s: Section, name: u32, form: Form, off: nat)
    requires ResolveType(name, form).Value?
    ensures AsSconstant(s, form, off) == Throw(TypeMismatch) <==>
            ResolveType(name, form).value !in {Constant, Sconstant} && form != Data4 && form != Data8
  {
    hide ReadSleb, ReadFixed, SecOffsetType;
    LebsThrow(s, off);
    FieldsThrow(s, off);
    SecOffsetTypes(name);
  }

  lemma TypeTellsOffset(s: Section, name: u32, form: Form, off: nat)
    requires ResolveType(name, form).Value?
    ensures AsSecOffset(s, form, off) == Throw(TypeMismatch) <==>
            ResolveType(name, form).value !in {Line, Loclist, Mac, Rangelist} &&
            form != Data4 && form != Data8 && form != SecOffset
  {
    hide ReadFixed, ReadOffset, SecOffsetType;
    FieldsThrow(s, off);
    SecOffsetTypes(name);
  }

  /** A value's type tells which readers accept it, for any bytes: the type mismatch is thrown
      by exactly the others - except that data4 and data8, which older producers used both for
      constants and for section offsets, are accepted as either whatever their type, and
      sec_offset as an offset even if a vendor's attribute has no type. */
  lemma TypeTellsReader(s: Section, strs: Section, name: u32, form: Form, off: nat)
    requires ResolveType(name, form).Value?
    ensures var t := ResolveType(name, form).value;
            var either := form == Data4 || form == Data8;
            && (AsAddress(s, form, off) == Throw(TypeMismatch) <==> t != AddressType)
            && (AsFlag(s, form, off) == Throw(TypeMismatch) <==> t != FlagType)
            && (AsCstr(s, strs, form, off) == Throw(TypeMismatch) <==> t != StringType)
            && (ReferenceOperand(s, form, off) == Throw(TypeMismatch) <==> t != Reference)
            && (AsBlock(s, form, off) == Throw(TypeMismatch) <==> t != BlockType && t != ExprlocType)
            && (AsExprloc(s, form, off) == Throw(TypeMismatch) <==> t != BlockType && t != ExprlocType)
            && (AsUconstant(s, form, off) == Throw(TypeMismatch) <==> t !in {Constant, Uconstant} && !either)
            && (AsSconstant(s, form, off) == Throw(TypeMismatch) <==> t !in {Constant, Sconstant} && !either)
            && (AsSecOffset(s, form, off) == Throw(TypeMismatch) <==>
                t !in {Line, Loclist, Mac, Rangelist} && !either && form != SecOffset)
  {
    hide *;
    TypeTellsPlain(s, name, form, off);
    TypeTellsString(s, strs, name, form, off);
    TypeTellsReference(s, name, form, off);
    TypeTellsBlocks(s, name, form, off);
    TypeTellsUnsigned(s, name, form, off);
    TypeTellsSigned(s, name, form, off);
    TypeTellsOffset(s, name, form, off);
  }

  lemma SecOffsetTypes(name: u32)
    ensures SecOffsetType(name).Value? ==> SecOffsetType(name).value in {Line, Loclist, Mac, Rangelist, Invalid}
  {
  }

  /** What an encoded payload stands for.  A DW_FORM_strp value stands for the text of the
      string section at its offset. */
  ghost function Denotes(strs: Section, form: Form, a: Attr): Outcome<Datum> {
    match a
    case Number(n) =>
      (match form
       case Addr => Value(DAddress(n))
       case Flag => Value(DFlag(n != 0))
       case Strp => (match ReadCstr(strs, n)
                     case Value((t, _)) => Value(DString(t))
                     case Throw(e) => Throw(e))
       case SecOffset => Value(DOffset(n))
       case Data1 | Data2 | Data4 | Data8 => Value(DUnsigned(n))
       case _ => Value(DReference(n)))
    case Uleb(u, _) => Value(if form == Udata then DUnsigned(u) else DReference(u))
    case Sleb(i, _) => Value(DSigned(i))
    case Bytes(bytes, _) => Value(DBlock(bytes))
    case Text(text) => Value(DString(text))
    case Present => Value(DFlag(true))
    case Via(_, _, _) => Throw(TypeMismatch)
  }

  lemma BlockSizeRoundTrip(s: Section, form: Form, a: Attr, off: nat)
    requires a.Bytes? && Writable(s, form, a) && At(s.data, off, Encode(s, form, a))
    ensures var start := off + |Encode(s, form, a)| - |a.bytes|;
            BlockSize(s, form, off) == Value((|a.bytes|, start)) && At(s.data, start, a.bytes)
  {
    hide Forms.Writable, ReadUleb, ReadFixed, At, EncodeCount;
    assert form in {Block1, Block2, Block4, Block, Exprloc} by { WritableShape(s, form, a); }
    CountIs(s, form, a);
    AtAppend(s.data, off, EncodeCount(s, form, |a.bytes|, a.pad), a.bytes);
    CountRoundTrip(s, form, |a.bytes|, a.pad, off);
  }

  lemma BlockRoundTrip(s: Section, form: Form, a: Attr, off: nat)
    requires a.Bytes? && Writable(s, form, a) && At(s.data, off, Encode(s, form, a))
    ensures var end := off + |Encode(s, form, a)|;
            AsExprloc(s, form, off) == Value((end - |a.bytes|, |a.bytes|)) &&
            AsBlock(s, form, off) ==
            if a.bytes == [] && end == |s.data| then Throw(Underflow) else Value(a.bytes)
  {
    hide BlockSize, Forms.Writable, Forms.Encode;
    BlockSizeRoundTrip(s, form, a, off);
    WritableShape(s, form, a);
    EncodedBytes(s, form, a);
  }

  lemma EncodedBytes(s: Section, form: Form, a: Attr)
    requires a.Bytes?
    ensures |Forms.Encode(s, form, a)| >= |a.bytes|
  {
  }

  lemma NumberRoundTrip(s: Section, strs: Section, form: Form, a: Attr, off: nat)
    requires a.Number? && Writable(s, form, a) && At(s.data, off, Encode(s, form, a))
    ensures ReadDatum(s, strs, form, off) == Denotes(strs, form, a)
  {
    FixedRoundTrip(s, Width(s, form), a.n, off);
  }

  /** Every reader returns what was encoded in its form.  An indirect value is rejected by
      all of them, and an empty block at the very end of the unit is not readable. */
  lemma ReadersInvertEncoding(s: Section, strs: Section, form: Form, a: Attr, off: nat)
    requires Writable(s, form, a) && At(s.data, off, Encode(s, form, a))
    ensures ReadDatum(s, strs, form, off) ==
            if a.Bytes? && a.bytes == [] && off + |Encode(s, form, a)| == |s.data|
            then Throw(Underflow) else Denotes(strs, form, a)
  {
    WritableShape(s, form, a);
    match a
    case Number(_) => NumberRoundTrip(s, strs, form, a, off);
    case Uleb(u, pad) => UlebRoundTrip(s, u, pad, off);
    case Sleb(i, pad) => SlebRoundTrip(s, i, pad, off);
    case Bytes(_, _) => BlockRoundTrip(s, form, a, off);
    case Text(text) => CstrRoundTrip(s, text, off);
    case Present =>
    case Via(_, _, _) =>
  }

  /** The same fixed-size constant read as signed is its two's complement reading. */
  lemma SignedConstant(s: Section, form: Form, n: u64, off: nat)
    requires form in {Data1, Data2, Data4, Data8} && Writable(s, form, Number(n))
    requires At(s.data, off, Encode(s, form, Number(n)))
    ensures AsSconstant(s, form, off) == Value(Signed(8 * Width(s, form), n))
  {
    FixedRoundTrip(s, Width(s, form), n, off);
  }

  /** The form that ends a chain of indirections, and where its payload starts. */
  function ResolveIndirect(s: Section, off: nat): (r: Outcome<(Form, nat)>)
    ensures r.Value? ==> r.value.0 != Indirect && off < r.value.1 <= |s.data|
    decreases |s.data| - off
  {
    var (code, next) :- ReadUleb(s, off);
    if FormOf(code) == Indirect then ResolveIndirect(s, next) else Value((FormOf(code), next))
  }

  /** On any bytes, resolving and then skipping is the same as skipping. */
  lemma {:induction false} ResolveAgreesWithSkip(s: Section, off: nat)
    ensures SkipForm(s, Indirect, off) ==
            match ResolveIndirect(s, off)
            case Throw(e) => Throw(e)
            case Value((form, p)) => SkipForm(s, form, p)
    decreases |s.data| - off
  {
    var r := ReadUleb(s, off);
    if r.Value? && FormOf(r.value.0) == Indirect {
      ResolveAgreesWithSkip(s, r.value.1);
    }
  }

  /** The payload at the end of the chain. */
  ghost function InnermostAttr(form: Form, a: Attr): Attr
    decreases a
  {
    if form == Indirect && a.Via? then InnermostAttr(a.form, a.inner) else a
  }

  /** Resolution ends at the innermost payload, which runs to the end of the whole value;
      the reader for the innermost form would return it. */
  lemma {:induction false} ResolveFindsPayload(s: Section, a: Attr, off: nat) returns (p: nat)
    requires Writable(s, Indirect, a) && At(s.data, off, Encode(s, Indirect, a))
    ensures ResolveIndirect(s, off) == Value((Innermost(Indirect, a), p))
    ensures Writable(s, Innermost(Indirect, a), InnermostAttr(Indirect, a))
    ensures At(s.data, p, Encode(s, Innermost(Indirect, a), InnermostAttr(Indirect, a)))
    ensures p + |Encode(s, Innermost(Indirect, a), InnermostAttr(Indirect, a))| ==
            off + |Encode(s, Indirect, a)|
    decreases a
  {
    WritableShape(s, a.form, a.inner);
    p := IndirectStep(s, a, off);
    if a.form == Indirect {
      p := ResolveFindsPayload(s, a.inner, p);
    }
  }

  /** A value object: where an attribute's value lies and how it is to be read. */
  datatype View = View(form: Form, typ: Type, offset: nat)

  /** Construction of a value.  Resolving an indirection replaces the type and the offset,
      but not the form. */
  function MakeValue(s: Section, name: u32, form: Form, typ: Type, off: nat): Outcome<View> {
    if form != Indirect then Value(View(form, typ, off))
    else
      var (f, p) :- ResolveIndirect(s, off);
      var t :- ResolveType(name, f);
      Value(View(Indirect, t, p))
  }

  /** However it was resolved, a value whose attribute is indirect cannot be read. */
  lemma IndirectIsUnreadable(s: Section, strs: Section, name: u32, typ: Type, off: nat)
    ensures var r := MakeValue(s, name, Indirect, typ, off);
            r.Value? ==>
              && r.value.form == Indirect
              && ReadDatum(s, strs, r.value.form, r.value.offset) == Throw(TypeMismatch)
              && AsAddress(s, r.value.form, r.value.offset) == Throw(TypeMismatch)
              && AsFlag(s, r.value.form, r.value.offset) == Throw(TypeMismatch)
              && AsExprloc(s, r.value.form, r.value.offset) == Throw(TypeMismatch)
              && AsSecOffset(s, r.value.form, r.value.offset) == Throw(TypeMismatch)
              && ReferenceOperand(s, r.value.form, r.value.offset) == Throw(TypeMismatch)
              && AsBlock(s, r.value.form, r.value.offset) == Throw(TypeMismatch)
              && AsUconstant(s, r.value.form, r.value.offset) == Throw(TypeMismatch)
              && AsSconstant(s, r.value.form, r.value.offset) == Throw(TypeMismatch)
              && AsCstr(s, strs, r.value.form, r.value.offset) == Throw(TypeMismatch)
  {
  }

  class AttributeValue {
    const sec: Section
    const form: Form
    var typ: Type
    var offset: nat

    constructor (sec: Section, form: Form, typ: Type, offset: nat)
      ensures this.sec == sec && this.form == form && this.typ == typ && this.offset == offset
    {
      this.sec, this.form := sec, form;
      this.typ, this.offset := typ, offset;
    }

    /** Replace the type and offset by those of the innermost value.  The stored form is
        left as it was: the loop assigns a local variable of the same name. */
    method Resolve(name: u32) returns (r: Outcome<()>)
      modifies this
      ensures match MakeValue(sec, name, form, old(typ), old(offset))
              case Throw(e) => r == Throw(e)
              case Value(v) => r == Value(()) && View(form, typ, offset) == v
    {
      if form != Indirect {
        return Value(());
      }
      var c := new Cursor(sec, offset);
      var f := Indirect;
      while true
        invariant f == Indirect && c.sec == sec
        invariant ResolveIndirect(sec, c.pos) == ResolveIndirect(sec, old(offset))
        decreases |sec.data| - c.pos
      {
        var code :- c.Uleb128();
        f := FormOf(code);
        if f != Indirect {
          break;
        }
      }
      typ :- ResolveType(name, f);
      offset := c.pos;
      return Value(());
    }
  }

  /** The classes of the attributes (section 7.5.4 of DWARF Version 4): a block is a location
      expression for location, byte_size, bit_offset, bit_size, string_length, lower_bound,
      return_addr, bit_stride, upper_bound, count, data_member_location, frame_base, segment,
      static_link, use_location, vtable_elem_location, allocated, associated, data_location and
      byte_stride. */
  lemma BlockTypes(name: u32, form: Form)
    requires form in {Block, Block1, Block2, Block4}
    ensures ResolveType(name, form) == Value(ExprlocType) <==>
            name in {0x02, 0x0b, 0x0c, 0x0d, 0x19, 0x22, 0x2a, 0x2e, 0x2f, 0x37, 0x38, 0x40, 0x46, 0x48, 0x4a, 0x4d,
                     0x4e, 0x4f, 0x50, 0x51}
    ensures ResolveType(name, form) != Value(ExprlocType) ==> ResolveType(name, form) == Value(BlockType)
  {
  }

  /** A section offset points into the line table for stmt_list, a location list for location,
      string_length, return_addr, data_member_location, frame_base, segment, static_link,
      use_location and vtable_elem_location, macro information for macro_info, and a range list for
      start_scope and ranges.  So do the older data4 and data8, which are constants for all other
      names. */
  lemma OffsetTypes(name: u32, form: Form)
    requires form in {SecOffset, Data4, Data8}
    ensures ResolveType(name, form) == Value(Line) <==> name == 0x10
    ensures ResolveType(name, form) == Value(Loclist) <==>
            name in {0x02, 0x19, 0x2a, 0x38, 0x40, 0x46, 0x48, 0x4a, 0x4d}
    ensures ResolveType(name, form) == Value(Mac) <==> name == 0x43
    ensures ResolveType(name, form) == Value(Rangelist) <==> name in {0x2c, 0x55}
    ensures ResolveType(name, form) == Value(Invalid) <==> form == SecOffset && 0x2000 <= name <= 0x3fff
    ensures ResolveType(name, form) == Throw(Format) <==>
            form == SecOffset && !(0x2000 <= name <= 0x3fff) &&
            name !in {0x02, 0x10, 0x19, 0x2a, 0x2c, 0x38, 0x40, 0x43, 0x46, 0x48, 0x4a, 0x4d, 0x55}
    ensures ResolveType(name, form) == Value(Constant) <==>
            form != SecOffset &&
            name !in {0x02, 0x10, 0x19, 0x2a, 0x2c, 0x38, 0x40, 0x43, 0x46, 0x48, 0x4a, 0x4d, 0x55}
  {
  }

  /** A number stored in any form that can hold a section offset is read back as one. */
  lemma SecOffsetReads(s: Section, form: Form, n: u64, pos: nat)
    requires form in {Data4, Data8, SecOffset} && Forms.Writable(s, form, Number(n))
    requires At(s.data, pos, Forms.Encode(s, form, Number(n)))
    ensures AsSecOffset(s, form, pos) == Value(n)
  {
    hide ReadFixed, At, EncodeFixed, Pow2;
    FixedRoundTrip(s, Width(s, form), n, pos);
  }

  /** A flag is set if its byte is not zero. */
  lemma FlagReads(s: Section, off: nat)
    requires off < |s.data|
    ensures AsFlag(s, Flag, off) == Value(s.data[off] != 0)
    ensures AsFlag(s, FlagPresent, off) == Value(true)
  {
    hide ReadFixed;
    assert s.data[off..off + 1] == [s.data[off]];
    OneByte(s, off, s.data[off]);
  }
}
