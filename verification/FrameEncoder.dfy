/** The frame encoder, writing header and masked payload into reserved space behind the buffer. */
module FrameEncoding {
  import opened Octets
  import opened Masking
  import opened MaskingKernel
  import opened FrameFormat

  /** The frame that the encoder's arguments describe. */
  function Described(opcode: OpCode, payload: seq<Octet>, fin: bool, mask: Option<MaskKey>, rsv1: bool): Frame {
    Frame(Header(fin, rsv1, false, false, opcode, mask.Some?, |payload|, mask), payload)
  }

  /** Extended length octets reserved for a payload of `len` octets. */
  function ExtendedSize(len: nat): nat {
    if len > MediumLimit then 8 else if len > SmallLimit then 2 else 0
  }

  method FrameBits(opcode: OpCode, fin: bool, rsv1: bool, ghost masked: bool, ghost len: nat, ghost mask: Option<MaskKey>)
    returns (b0: Octet)
    ensures b0 == FirstOctet(Header(fin, rsv1, false, false, opcode, masked, len, mask))
  {
    b0 := Nibble(opcode);
    if fin { b0 := b0 + 0x80; }
    if rsv1 { b0 := b0 + 0x40; }
  }

  /** The header octets before the masking key. */
  method EncodeBase(opcode: OpCode, len: nat, fin: bool, mask: Option<MaskKey>, rsv1: bool) returns (head: seq<Octet>)
    ensures head == [FirstOctet(Header(fin, rsv1, false, false, opcode, mask.Some?, len, mask))]
                    + EncodeLength(mask.Some?, len)
    ensures |head| == 2 + ExtendedSize(len)
  {
    var b0 := FrameBits(opcode, fin, rsv1, mask.Some?, len, mask);
    hide FirstOctet;
    var maskBit := if mask.Some? then 0x80 else 0x00;
    if len <= SmallLimit {
      head := [b0, maskBit + len];
    } else if len <= MediumLimit {
      head := [b0, maskBit + 126] + ToBigEndian(len, 2);
    } else {
      head := [b0, maskBit + 127] + ToBigEndian(len, 8);
    }
  }

  method EncodeFrameWithRsv(buf: ByteBuffer, opcode: OpCode, payload: seq<Octet>, fin: bool,
                            mask: Option<MaskKey>, rsv1: bool, big: bool)
    modifies buf
    ensures buf.data == old(buf.data) + EncodeFrame(Described(opcode, payload, fin, mask, rsv1))
  {
    hide FirstOctet, EncodeLength;
    var headerSize := 2 + ExtendedSize(|payload|) + (if mask.Some? then 4 else 0);
    var reserved := new Octet[headerSize + |payload|];
    var head := EncodeBase(opcode, |payload|, fin, mask, rsv1);
    Store(reserved, 0, head);
    assert reserved[..|head|] == head;
    if mask.Some? {
      Store(reserved, |head|, mask.value);
      assert reserved[..headerSize] == head + mask.value;
      EncodePayloadMasked(reserved, headerSize, payload, mask.value, big);
      assert reserved[..] == head + mask.value + Masked(payload, mask.value, 0);
    } else {
      Store(reserved, headerSize, payload);
      assert reserved[..] == head + [] + payload;
    }
    buf.data := buf.data + reserved[..];
  }
}
