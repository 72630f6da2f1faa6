/** Programs one after the other: when the first ends its last sequence, the second runs as
    if it stood alone. */
module LineConcat {
  import opened Outcomes
  import opened Words
  import opened Sections
  import opened LineMachine
  import Leb128

  /** The bytes of s lie in s' at offset k. */
  ghost predicate Embedded(s: Section, s': Section, k: nat) {
    s' == s.(data := s'.data) && At(s'.data, k, s.data)
  }

  ghost predicate Ends(s: Section, s': Section, k: nat) {
    k + |s.data| == |s'.data|
  }

  /** A read that succeeds in s has the same value in s'; one that throws does too if nothing
      follows the bytes of s. */
  ghost predicate Carried<T(!new)>(r: Outcome<(T, nat)>, r': Outcome<(T, nat)>, k: nat, ends: bool) {
    match r
    case Value((v, next)) => r' == Value((v, next + k))
    case Throw(e) => ends ==> r' == Throw(e)
  }

  lemma SliceCarried(s: Section, s': Section, k: nat, a: nat, b: nat)
    requires Embedded(s, s', k) && a <= b <= |s.data|
    ensures b + k <= |s'.data| && s'.data[a + k..b + k] == s.data[a..b]
  {
    forall i | 0 <= i < b - a
      ensures s'.data[a + k..b + k][i] == s.data[a..b][i]
    {
      assert s'.data[k..k + |s.data|][a + i] == s'.data[a + k + i];
    }
  }

  lemma FixedCarried(s: Section, s': Section, k: nat, n: nat, pos: nat)
    requires Embedded(s, s', k) && n <= 8
    ensures Carried(ReadFixed(s, n, pos), ReadFixed(s', n, pos + k), k, Ends(s, s', k))
  {
    if pos + n <= |s.data| {
      SliceCarried(s, s', k, pos, pos + n);
    }
  }

  lemma AddressCarried(s: Section, s': Section, k: nat, pos: nat)
    requires Embedded(s, s', k)
    ensures Carried(ReadAddress(s, pos), ReadAddress(s', pos + k), k, Ends(s, s', k))
  {
    hide ReadFixed;
    if s.addrSize <= 8 {
      FixedCarried(s, s', k, s.addrSize, pos);
    }
  }

  lemma {:induction false} LengthCarried(bs: seq<byte>, more: seq<byte>)
    ensures Leb128.Length(bs).Value? ==> Leb128.Length(bs + more) == Leb128.Length(bs)
  {
    if bs != [] {
      assert (bs + more)[1..] == bs[1..] + more;
      LengthCarried(bs[1..], more);
    }
  }

  lemma RestCarried(s: Section, s': Section, k: nat, pos: nat) returns (more: seq<byte>)
    requires Embedded(s, s', k) && pos <= |s.data|
    ensures Rest(s', pos + k) == Rest(s, pos) + more
    ensures Ends(s, s', k) ==> Rest(s', pos + k) == Rest(s, pos)
  {
    more := s'.data[k + |s.data|..];
    assert s'.data[k..] == s.data + more by { AtSuffix(s'.data, k, s.data); }
    assert s'.data[pos + k..] == s'.data[k..][pos..] == s.data[pos..] + more;
    if Ends(s, s', k) {
      assert s.data[pos..] + more == s.data[pos..];
    }
  }

  lemma LebsCarried(s: Section, s': Section, k: nat, pos: nat)
    requires Embedded(s, s', k) && pos <= |s.data|
    ensures Carried(ReadUleb(s, pos), ReadUleb(s', pos + k), k, Ends(s, s', k))
    ensures Carried(ReadSleb(s, pos), ReadSleb(s', pos + k), k, Ends(s, s', k))
  {
    var more := RestCarried(s, s', k, pos);
    var bs := Rest(s, pos);
    LengthCarried(bs, more);
    if Leb128.Length(bs).Value? {
      var n := Leb128.Length(bs).value;
      assert (bs + more)[..n] == bs[..n];
    }
  }

  lemma {:induction false} ZeroCarried(bs: seq<byte>, more: seq<byte>)
    ensures ZeroAt(bs) < |bs| ==> ZeroAt(bs + more) == ZeroAt(bs)
  {
    if bs != [] {
      assert (bs + more)[1..] == bs[1..] + more;
      ZeroCarried(bs[1..], more);
    }
  }

  lemma CstrCarried(s: Section, s': Section, k: nat, pos: nat)
    requires Embedded(s, s', k) && pos <= |s.data|
    ensures Carried(ReadCstr(s, pos), ReadCstr(s', pos + k), k, Ends(s, s', k))
  {
    hide ZeroAt;
    var more := RestCarried(s, s', k, pos);
    ZeroCarried(s.data[pos..], more);
    var n := ZeroAt(s.data[pos..]);
    if pos + n < |s.data| {
      SliceCarried(s, s', k, pos, pos + n);
    }
  }

  lemma CstrInside(s: Section, pos: nat)
    requires pos <= |s.data|
    ensures ReadCstr(s, pos).Value? ==> ReadCstr(s, pos).value.1 <= |s.data|
  {
  }

  lemma FileNumbersCarried(s: Section, s': Section, k: nat, name: seq<byte>, p: nat)
    requires Embedded(s, s', k) && p <= |s.data|
    ensures Carried(ReadFileNumbers(s, name, p), ReadFileNumbers(s', name, p + k), k, Ends(s, s', k))
  {
    hide ReadUleb, ReadSleb, Embedded, Ends;
    LebsCarried(s, s', k, p);
    if ReadUleb(s, p).Value? {
      var q := ReadUleb(s, p).value.1;
      LebsCarried(s, s', k, q);
      if ReadUleb(s, q).Value? {
        LebsCarried(s, s', k, ReadUleb(s, q).value.1);
      }
    }
  }

  lemma FileTextCarried(s: Section, s': Section, k: nat, pos: nat)
    requires Embedded(s, s', k) && pos <= |s.data|
    ensures Carried(ReadFileText(s, pos), ReadFileText(s', pos + k), k, Ends(s, s', k))
  {
    hide ReadCstr, ReadFileNumbers, Embedded, Ends;
    CstrCarried(s, s', k, pos);
    CstrInside(s, pos);
    if ReadCstr(s, pos).Value? {
      var (name, p) := ReadCstr(s, pos).value;
      FileNumbersCarried(s, s', k, name, p);
    }
  }

  lemma StandardCarried(s: Section, s': Section, k: nat, opcode: byte, pos: nat)
    requires Embedded(s, s', k) && pos <= |s.data|
    ensures Carried(ReadStandard(s, opcode, pos), ReadStandard(s', opcode, pos + k), k, Ends(s, s', k))
  {
    hide ReadUleb, ReadSleb, ReadFixed, Embedded;
    LebsCarried(s, s', k, pos);
    FixedCarried(s, s', k, 2, pos);
  }

  lemma ExtendedCarried(s: Section, s': Section, k: nat, opcode: byte, pos: nat)
    requires Embedded(s, s', k) && pos <= |s.data|
    ensures Carried(ReadExtended(s, opcode, pos), ReadExtended(s', opcode, pos + k), k, Ends(s, s', k))
  {
    hide ReadUleb, ReadSleb, ReadAddress, ReadFileText, Embedded;
    LebsCarried(s, s', k, pos);
    AddressCarried(s, s', k, pos);
    FileTextCarried(s, s', k, pos);
  }

  /** If an extended opcode is here, its length reaches no offset that would wrap around k
      bytes further on. */
  ghost predicate LengthFits(h: Header, s: Section, pos: nat, k: nat) {
    match ReadFixed(s, 1, pos)
    case Throw(_) => true
    case Value((opcode, p)) =>
      opcode != 0 || opcode >= h.opcodeBase ||
      match ReadUleb(s, p)
      case Throw(_) => true
      case Value((length, q)) => q + length + k < B64
  }

  lemma OpCarried(h: Header, s: Section, s': Section, k: nat, pos: nat)
    requires Embedded(s, s', k) && pos <= |s.data| && (k == 0 || LengthFits(h, s, pos, k))
    ensures Carried(ReadOp(h, s, pos), ReadOp(h, s', pos + k), k, Ends(s, s', k))
  {
    hide ReadUleb, ReadSleb, ReadFixed, ReadStandard, ReadExtended, Embedded, Wrap64, Ends;
    FixedCarried(s, s', k, 1, pos);
    ByteInside(s, pos);
    if ReadFixed(s, 1, pos).Value? {
      var (opcode, p) := ReadFixed(s, 1, pos).value;
      StandardCarried(s, s', k, AsByte(opcode), p);
      LebsCarried(s, s', k, p);
      if ReadUleb(s, p).Value? {
        var (length, q) := ReadUleb(s, p).value;
        FixedCarried(s, s', k, 1, q);
        ByteInside(s, q);
        WrapMoved(q + length, k);
        if ReadFixed(s, 1, q).Value? {
          var (sub, r) := ReadFixed(s, 1, q).value;
          ExtendedCarried(s, s', k, AsByte(sub), r);
        }
      }
    }
  }

  lemma ByteInside(s: Section, pos: nat)
    ensures ReadFixed(s, 1, pos).Value? ==> ReadFixed(s, 1, pos).value.1 <= |s.data|
  {
  }

  lemma WrapMoved(x: nat, k: nat)
    ensures k == 0 || x + k < B64 ==> Wrap64(x + k) == Wrap64(x) + k
  {
  }

  /** Every extended opcode on the way from pos has a length that fits. */
  ghost predicate LengthsFit(h: Header, s: Section, pos: nat, k: nat)
    decreases |s.data| - pos
  {
    pos >= |s.data| ||
    (LengthFits(h, s, pos, k) &&
     (ReadOp(h, s, pos).Value? ==>
        (ReadOpAdvances(h, s, pos); LengthsFit(h, s, ReadOp(h, s, pos).value.1, k))))
  }

  /** The second program, moved behind the first. */
  lemma {:induction false} SuffixRuns(h: Header, s: Section, s': Section, k: nat, r: Regs, pos: nat)
    requires h.Valid() && Embedded(s, s', k) && Ends(s, s', k) && pos <= |s.data|
    requires LengthsFit(h, s, pos, k)
    ensures Rows(h, s', r, pos + k) == Rows(h, s, r, pos)
    ensures RowsAfter(h, s', r, pos + k) == RowsAfter(h, s, r, pos)
    decreases |s.data| - pos
  {
    hide ReadOp, Apply, Embedded, LengthFits;
    if pos < |s.data| {
      OpCarried(h, s, s', k, pos);
      if ReadOp(h, s, pos).Value? {
        var (op, next) := ReadOp(h, s, pos).value;
        ReadOpAdvances(h, s, pos);
        SuffixRuns(h, s, s', k, Apply(h, r, op).regs, next);
      }
    }
  }

  /** Registers never carry the end-of-sequence mark from one row to the next; a row that has
      it leaves the initial registers. */
  lemma EndRestores(h: Header, r: Regs, op: Op)
    requires h.Valid() && !r.endSequence
    ensures !Apply(h, r, op).regs.endSequence
    ensures Apply(h, r, op).row.Some? && Apply(h, r, op).row.value.endSequence ==>
      Apply(h, r, op).regs == Initial(h.defaultIsStmt)
  {
  }

  /** A run whose last row ends a sequence is followed by a run from the initial registers. */
  lemma {:induction false} PrefixRuns(h: Header, s: Section, s': Section, r: Regs, pos: nat, rows: seq<Regs>)
    requires h.Valid() && Embedded(s, s', 0) && pos < |s.data| && !r.endSequence
    requires RowsAfter(h, s, r, pos) == Value(rows) && rows != [] && rows[|rows| - 1].endSequence
    ensures RowsAfter(h, s', r, pos) == Prepend(rows, Rows(h, s', Initial(h.defaultIsStmt), |s.data|))
    decreases |s.data| - pos
  {
    hide ReadOp, Apply;
    OpCarried(h, s, s', 0, pos);
    var (op, next) := ReadOp(h, s, pos).value;
    var e := Apply(h, r, op);
    var tail := Rows(h, s', Initial(h.defaultIsStmt), |s.data|);
    ReadOpAdvances(h, s, pos);
    EndRestores(h, r, op);
    if e.row == None {
      PrefixRuns(h, s, s', e.regs, next, rows);
    } else {
      PrependMore([e.row.value], rows[1..], tail);
      assert rows == [e.row.value] + rows[1..];
      if next < |s.data| {
        NotEmpty(h, s, e.regs, next);
        PrefixRuns(h, s, s', e.regs, next, rows[1..]);
      } else {
        assert rows == [e.row.value];
      }
    }
  }

  lemma {:induction false} NotEmpty(h: Header, s: Section, r: Regs, pos: nat)
    requires h.Valid()
    ensures RowsAfter(h, s, r, pos).Value? ==> RowsAfter(h, s, r, pos).value != []
    decreases |s.data| - pos
  {
    hide ReadOp, Apply;
    if pos < |s.data| && ReadOp(h, s, pos).Value? {
      var (op, next) := ReadOp(h, s, pos).value;
      ReadOpAdvances(h, s, pos);
      NotEmpty(h, s, Apply(h, r, op).regs, next);
    }
  }

  /** rows(P;Q) = rows(P) ++ rows(Q), where P ends with the end of a sequence. */
  lemma RowsConcat(h: Header, p: Section, q: Section, rows: seq<Regs>)
    requires h.Valid() && q == p.(data := q.data)
    requires Rows(h, p, Initial(h.defaultIsStmt), 0) == Value(rows)
    requires rows != [] ==> rows[|rows| - 1].endSequence
    requires LengthsFit(h, q, 0, |p.data|)
    ensures Rows(h, p.(data := p.data + q.data), Initial(h.defaultIsStmt), 0) ==
            Prepend(rows, Rows(h, q, Initial(h.defaultIsStmt), 0))
  {
    hide ReadOp, Apply, LengthsFit;
    var both := p.(data := p.data + q.data);
    var r := Initial(h.defaultIsStmt);
    assert At(both.data, 0, p.data) && At(both.data, |p.data|, q.data);
    SuffixRuns(h, q, both, |p.data|, r, 0);
    PrependNone(Rows(h, q, r, 0));
    if p.data != [] {
      NotEmpty(h, p, r, 0);
      PrefixRuns(h, p, both, r, 0, rows);
    }
  }
}
