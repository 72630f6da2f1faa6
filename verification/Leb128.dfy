/** LEB128 numbers (Appendix C of DWARF Version 4): what the bytes mean, and encoders
    that may append redundant groups. */
module Leb128 {
  import opened Outcomes
  import opened Words

  /** Bytes up to and including the first one whose bit 7 is clear. */
  function Length(bs: seq<byte>): (n: Outcome<nat>)
    ensures n.Value? ==> 0 < n.value <= |bs|
  {
    if bs == [] then Throw(Underflow)
    else if bs[0] < 128 then Value(1)
    else
      var n :- Length(bs[1..]);
      Value(n + 1)
  }

  /** The number whose 7-bit groups, least significant first, are the given bytes. */
  function Groups(bs: seq<byte>): nat {
    if bs == [] then 0 else bs[0] % 128 + 128 * Groups(bs[1..])
  }

  /** As `Groups`, but the top bit of the last group is a sign bit. */
  function SignedGroups(bs: seq<byte>): int
    requires bs != []
  {
    Groups(bs) - if (bs[|bs| - 1] / 64) % 2 == 1 then Pow2(7 * |bs|) else 0
  }

  function Unsigned(bs: seq<byte>): (r: Outcome<(u64, nat)>)
    ensures r.Value? ==> 0 < r.value.1 <= |bs|
  {
    var n :- Length(bs);
    Value((Wrap64(Groups(bs[..n])), n))
  }

  function Signed(bs: seq<byte>): (r: Outcome<(int, nat)>)
    ensures r.Value? ==> 0 < r.value.1 <= |bs|
  {
    var n :- Length(bs);
    Value((Signed64(Wrap64(SignedGroups(bs[..n]))), n))
  }

  /** The encoding of v followed by `pad` redundant groups. */
  function EncodeUnsigned(v: nat, pad: nat): (bs: seq<byte>)
    ensures bs != []
    decreases v, pad
  {
    if v >= 128 then [128 + v % 128] + EncodeUnsigned(v / 128, pad)
    else if pad > 0 then [128 + v] + EncodeUnsigned(0, pad - 1)
    else [v]
  }

  function EncodeSigned(v: int, pad: nat): (bs: seq<byte>)
    ensures bs != []
    decreases if v < 0 then -v else v, pad
  {
    if v < -64 || v >= 64 then [128 + v % 128] + EncodeSigned(v / 128, pad)
    else if pad > 0 then [128 + v % 128] + EncodeSigned(if v < 0 then -1 else 0, pad - 1)
    else [v % 128]
  }

  /** `Length` is the position of the first byte below 128. */
  lemma {:induction false} LengthIs(bs: seq<byte>, n: nat)
    requires 0 < n <= |bs|
    requires forall i :: 0 <= i < n - 1 ==> bs[i] >= 128
    requires bs[n - 1] < 128
    ensures Length(bs) == Value(n)
  {
    if n > 1 {
      LengthIs(bs[1..], n - 1);
    }
  }

  lemma {:induction false} LengthFails(bs: seq<byte>)
    requires forall i :: 0 <= i < |bs| ==> bs[i] >= 128
    ensures Length(bs) == Throw(Underflow)
  {
    if bs != [] {
      LengthFails(bs[1..]);
    }
  }

  lemma {:induction false} GroupsSnoc(bs: seq<byte>, b: byte)
    ensures Groups(bs + [b]) == Groups(bs) + (b % 128) * Pow2(7 * |bs|)
    decreases |bs|
  {
    if bs == [] {
      assert bs + [b] == [b];
      assert [b][1..] == [];
    } else {
      assert (bs + [b])[1..] == bs[1..] + [b];
      GroupsSnoc(bs[1..], b);
      Pow2Of64();
      Pow2Add(7, 7 * |bs| - 7);
      MulAssoc(128, b % 128, Pow2(7 * |bs| - 7));
      MulAssoc(b % 128, 128, Pow2(7 * |bs| - 7));
    }
  }

  lemma {:induction false} GroupsBound(bs: seq<byte>)
    ensures Groups(bs) < Pow2(7 * |bs|)
  {
    if bs != [] {
      GroupsBound(bs[1..]);
      Pow2Of64();
      Pow2Add(7, 7 * |bs| - 7);
    }
  }

  lemma {:induction false} EncodedLength(v: nat, pad: nat, rest: seq<byte>)
    ensures Length(EncodeUnsigned(v, pad) + rest) == Value(|EncodeUnsigned(v, pad)|)
    decreases v, pad
  {
    var bs := EncodeUnsigned(v, pad);
    assert (bs + rest)[1..] == bs[1..] + rest;
    if v >= 128 {
      EncodedLength(v / 128, pad, rest);
    } else if pad > 0 {
      EncodedLength(0, pad - 1, rest);
    }
  }

  lemma {:induction false} EncodedGroups(v: nat, pad: nat)
    ensures Groups(EncodeUnsigned(v, pad)) == v
    decreases v, pad
  {
    if v >= 128 {
      EncodedGroups(v / 128, pad);
    } else if pad > 0 {
      EncodedGroups(0, pad - 1);
    }
  }

  /** Decoding undoes encoding, with the redundant groups appended to it, and consumes exactly
      the encoded bytes.  Beyond ten bytes C++ leaves the shift undefined; there the groups,
      which hold no bits of the value, are taken to add nothing. */
  lemma UnsignedRoundTrip(v: u64, pad: nat, rest: seq<byte>)
    ensures Unsigned(EncodeUnsigned(v, pad) + rest) == Value((v, |EncodeUnsigned(v, pad)|))
  {
    var bs := EncodeUnsigned(v, pad);
    EncodedLength(v, pad, rest);
    EncodedGroups(v, pad);
    assert (bs + rest)[..|bs|] == bs;
  }

  lemma {:induction false} EncodedSignedLength(v: int, pad: nat, rest: seq<byte>)
    ensures Length(EncodeSigned(v, pad) + rest) == Value(|EncodeSigned(v, pad)|)
    decreases if v < 0 then -v else v, pad
  {
    var bs := EncodeSigned(v, pad);
    assert (bs + rest)[1..] == bs[1..] + rest;
    if v < -64 || v >= 64 {
      EncodedSignedLength(v / 128, pad, rest);
    } else if pad > 0 {
      EncodedSignedLength(if v < 0 then -1 else 0, pad - 1, rest);
    }
  }

  lemma SignedGroupsCons(b: byte, bs: seq<byte>)
    requires bs != []
    ensures SignedGroups([b] + bs) == b % 128 + 128 * SignedGroups(bs)
  {
    assert ([b] + bs)[1..] == bs;
    Pow2Of64();
    Pow2Add(7, 7 * |bs|);
  }

  lemma LastSignedGroup(v: int)
    requires -64 <= v < 64
    ensures SignedGroups([v % 128]) == v
  {
    assert Pow2(7) == 128;
    assert [v % 128][1..] == [];
    assert Groups([v % 128]) == v % 128;
    if v < 0 {
      assert v % 128 == v + 128;
    } else {
      assert v % 128 == v;
    }
  }

  lemma {:induction false} EncodedSignedGroups(v: int, pad: nat)
    ensures SignedGroups(EncodeSigned(v, pad)) == v
    decreases if v < 0 then -v else v, pad
  {
    hide SignedGroups;
    if -64 <= v < 64 && pad == 0 {
      LastSignedGroup(v);
    } else {
      var w := v / 128;
      var p := if -64 <= v < 64 then pad - 1 else pad;
      MoreSignedGroups(v, pad, w, p);
      EncodedSignedGroups(w, p);
      SignedGroupsCons(128 + v % 128, EncodeSigned(w, p));
    }
  }

  lemma MoreSignedGroups(v: int, pad: nat, w: int, p: nat)
    requires w == v / 128 && if -64 <= v < 64 then pad > 0 && p == pad - 1 else p == pad
    ensures EncodeSigned(v, pad) == [128 + v % 128] + EncodeSigned(w, p)
    ensures (128 + v % 128) % 128 + 128 * w == v
  {
  }

  lemma SignedRoundTrip(v: int, pad: nat, rest: seq<byte>)
    requires -B63 <= v < B63
    ensures Signed(EncodeSigned(v, pad) + rest) == Value((v, |EncodeSigned(v, pad)|))
  {
    var bs := EncodeSigned(v, pad);
    EncodedSignedLength(v, pad, rest);
    EncodedSignedGroups(v, pad);
    assert (bs + rest)[..|bs|] == bs;
  }

  lemma {:induction false} LengthBound(v: nat, n: nat)
    requires v < Pow2(7 * n + 7)
    ensures |EncodeUnsigned(v, 0)| <= n + 1
    decreases n
  {
    if v >= 128 {
      Pow2Of64();
      if n > 0 {
        Pow2Add(7, 7 * n);
        LengthBound(v / 128, n - 1);
      }
    }
  }

  /** Ten bytes hold every 64-bit value. */
  lemma TenBytesSuffice(v: u64)
    ensures |EncodeUnsigned(v, 0)| <= 10
  {
    Pow2Of64();
    Pow2Mono(64, 70);
    LengthBound(v, 9);
  }

  /** The examples of section 7.6 of DWARF Version 4. */
  lemma Examples()
    ensures Unsigned([0x02]) == Value((2, 1)) && Unsigned([0x7f]) == Value((127, 1))
    ensures Unsigned([0x80, 0x01]) == Value((128, 2)) && Unsigned([0x81, 0x01]) == Value((129, 2))
    ensures Unsigned([0xb9, 0x64]) == Value((12857, 2))
    ensures Signed([0x02]) == Value((2, 1)) && Signed([0x7e]) == Value((-2, 1))
    ensures Signed([0xff, 0x00]) == Value((127, 2)) && Signed([0x81, 0x7f]) == Value((-127, 2))
    ensures Signed([0x80, 0x01]) == Value((128, 2)) && Signed([0x80, 0x7f]) == Value((-128, 2))
    ensures Signed([0x81, 0x01]) == Value((129, 2)) && Signed([0xff, 0x7e]) == Value((-129, 2))
  {
    OneGroup(0x02);
    OneGroup(0x7f);
    OneGroup(0x7e);
    TwoGroups(0x80, 0x01);
    TwoGroups(0x81, 0x01);
    TwoGroups(0xb9, 0x64);
    TwoGroups(0xff, 0x00);
    TwoGroups(0x81, 0x7f);
    TwoGroups(0x80, 0x7f);
    TwoGroups(0xff, 0x7e);
  }

  lemma OneGroup(b: byte)
    requires b < 128
    ensures Unsigned([b]) == Value((b, 1))
    ensures Signed([b]) == Value((if b < 64 then b else b - 128, 1))
  {
    assert [b][1..] == [] && [b][..1] == [b];
    assert Groups([]) == 0;
  }

  lemma TwoGroups(a: byte, b: byte)
    requires a >= 128 > b
    ensures Unsigned([a, b]) == Value((a % 128 + 128 * b, 2))
    ensures Signed([a, b]) == Value((a % 128 + 128 * (if b < 64 then b else b - 128), 2))
  {
    assert [a, b][1..] == [b] && [b][1..] == [] && [a, b][..2] == [a, b];
    assert Groups([]) == 0 && Groups([b]) == b;
    assert Length([b]) == Value(1);
    assert Pow2(14) == 128 * 128 by { Pow2Of64(); Pow2Add(7, 7); assert Pow2(7) == 128; }
    var v := a % 128 + 128 * if b < 64 then b as int else b as int - 128;
    assert SignedGroups([a, b]) == v;
    if v < 0 {
      ModShift(v, 1, B64);
      SmallMod(v + B64, B64);
    } else {
      SmallMod(v, B64);
    }
  }
}
