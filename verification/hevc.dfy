/**
  Which H.265 payloads are dropped: those that hold RASL pictures (NAL unit
  types 8 and 9 of ITU-T H.265, Table 7-1) and no other picture. NAL units
  follow the start codes 00 00 01 and 00 00 00 01 of Annex B.
 */
module Hevc {
  import opened Bytes

  /** The three-byte start code stands at `p`; a four-byte one is this with a zero in front. */
  predicate StartCode(b: seq<Byte>, p: int) {
    0 <= p && p + 3 <= |b| && b[p] == 0 && b[p + 1] == 0 && b[p + 2] == 1
  }

  function NalType(header: Byte): nat {
    header / 2 % 64
  }

  /**
    A NAL unit with its header byte follows the start code at `p`. The one that does not count is
    a bare three-byte code whose header is the very last byte.
   */
  predicate Nal(b: seq<Byte>, p: int) {
    StartCode(b, p) && p + 3 < |b| && (p + 4 == |b| ==> 0 < p && b[p - 1] == 0)
  }

  predicate IsRasl(nalType: nat) { nalType == 8 || nalType == 9 }

  predicate IsPicture(nalType: nat) { nalType < 32 }

  function TypeAt(b: seq<Byte>, p: int): nat
    requires Nal(b, p)
  {
    NalType(b[p + 3])
  }

  /** Some RASL picture among the NAL units before `end`, and no other picture. */
  ghost predicate OnlyRaslBefore(b: seq<Byte>, end: int) {
    && (exists p :: p < end && Nal(b, p) && IsRasl(TypeAt(b, p)))
    && NoOtherPictureBefore(b, end)
  }

  ghost predicate NoOtherPictureBefore(b: seq<Byte>, end: int) {
    forall p :: p < end && Nal(b, p) && IsPicture(TypeAt(b, p)) ==> IsRasl(TypeAt(b, p))
  }

  ghost predicate DroppedAsRasl(b: seq<Byte>) {
    OnlyRaslBefore(b, |b|)
  }

  method IsH265Rasl(frame: seq<Byte>) returns (dropped: bool)
    ensures dropped <==> DroppedAsRasl(frame)
  {
    hide NalType;
    var hasRasl := false;
    var i := 0;
    var n := |frame|;
    while i < n - 4
      invariant 0 <= i <= n
      invariant NoOtherPictureBefore(frame, i)
      invariant hasRasl <==> exists p :: p < i && Nal(frame, p) && IsRasl(TypeAt(frame, p))
      invariant i > 0 && StartCode(frame, i) ==> frame[i - 1] != 0
      decreases n - i
    {
      var nalType;
      ghost var p;
      if frame[i..i + 4] == [0, 0, 0, 1] {
        CodeBytes(frame, i, 4);
        nalType := NalType(frame[i + 4]);
        p := i + 1;
        i := i + 4;
      } else if frame[i..i + 3] == [0, 0, 1] {
        CodeBytes(frame, i, 3);
        nalType := NalType(frame[i + 3]);
        p := i;
        i := i + 3;
      } else {
        NoCode(frame, i);
        i := i + 1;
        continue;
      }
      assert Nal(frame, p) && TypeAt(frame, p) == nalType;
      assert forall q :: p < q < i ==> !StartCode(frame, q);
      if IsRasl(nalType) {
        hasRasl := true;
      } else if IsPicture(nalType) {
        return false;
      }
    }
    assert forall p :: i <= p < n ==> !Nal(frame, p);
    return hasRasl;
  }

  lemma CodeBytes(b: seq<Byte>, i: nat, k: nat)
    requires 3 <= k <= 4 && i + k < |b|
    requires b[i..i + k] == if k == 4 then [0, 0, 0, 1] else [0, 0, 1]
    ensures StartCode(b, i + k - 3) && (k == 4 ==> b[i] == 0 && !StartCode(b, i))
  {
    assert b[i] == b[i..i + k][0] && b[i + 1] == b[i..i + k][1] && b[i + 2] == b[i..i + k][2];
    if k == 4 {
      assert b[i + 3] == b[i..i + k][3];
    }
  }

  lemma NoCode(b: seq<Byte>, i: nat)
    requires i + 4 < |b| && b[i..i + 4] != [0, 0, 0, 1] && b[i..i + 3] != [0, 0, 1]
    ensures !StartCode(b, i) && (StartCode(b, i + 1) ==> b[i] != 0)
  {
    assert b[i..i + 3] == [b[i], b[i + 1], b[i + 2]];
    assert b[i..i + 4] == [b[i], b[i + 1], b[i + 2], b[i + 3]];
  }

  /** The NAL unit type is the six bits between the forbidden bit and the layer's first bit. */
  lemma NalTypeField(forbidden: nat, nalType: nat, layer: nat)
    requires forbidden < 2 && nalType < 64 && layer < 2
    ensures NalType(128 * forbidden + 2 * nalType + layer) == nalType
  {}

  /**
    In terms of the header bytes: some NAL unit begins with 0x10 to 0x13, the forbidden bit aside,
    and every other one that begins below 0x40 does, too.
   */
  lemma DroppedByHeaders(b: seq<Byte>)
    ensures DroppedAsRasl(b) <==>
            && (exists p :: Nal(b, p) && 0x10 <= b[p + 3] % 0x80 <= 0x13)
            && (forall p :: Nal(b, p) && b[p + 3] % 0x80 < 0x40 ==> 0x10 <= b[p + 3] % 0x80 <= 0x13)
  {
    forall p | Nal(b, p)
      ensures IsRasl(TypeAt(b, p)) <==> 0x10 <= b[p + 3] % 0x80 <= 0x13
      ensures IsPicture(TypeAt(b, p)) <==> b[p + 3] % 0x80 < 0x40
    {
      HeaderBits(b[p + 3]);
    }
  }

  /** A header byte at the very end counts behind a four-byte start code alone. */
  lemma HeaderAtTheEnd()
    ensures DroppedAsRasl([0x00, 0x00, 0x00, 0x01, 0x10])
    ensures !DroppedAsRasl([0x00, 0x00, 0x01, 0x10])
    ensures DroppedAsRasl([0x00, 0x00, 0x01, 0x10, 0xFF])
  {
    var a, b: seq<Byte> := [0x00, 0x00, 0x00, 0x01, 0x10], [0x00, 0x00, 0x01, 0x10, 0xFF];
    assert Nal(a, 1) && IsRasl(TypeAt(a, 1));
    assert Nal(b, 0) && IsRasl(TypeAt(b, 0));
  }

  lemma HeaderBits(h: Byte)
    ensures NalType(h) == h % 0x80 / 2
  {}
}
