/** The DER encoder and reader of src/crypto_parsing.rs, updating their buffers in place. */
module DerCode {
  import opened Bytes
  import opened Der

  /** A growing byte vector, as the `&mut Vec<u8>` the encoders push into. */
  class ByteVec {
    var data: bytes

    constructor ()
      ensures data == []
    {
      data := [];
    }

    method Push(b: byte)
      modifies this
      ensures data == old(data) + [b]
    {
      data := data + [b];
    }

    method Extend(s: bytes)
      modifies this
      ensures data == old(data) + s
    {
      data := data + s;
    }

    method EncodeDerLen(len: nat)
      modifies this
      ensures data == old(data) + DerLen(len)
    {
      if len < 128 {
        Push(len);
      } else if len < 256 {
        Push(0x81);
        Push(len);
      } else {
        Push(0x82);
        Extend(FixedBE(len % 0x1_0000, 2));
        SixteenBits(len);
      }
    }

    /** What is emitted depends only on the big-endian value, whatever leading zeros come in. */
    method EncodeDerInt(b: bytes)
      requires b != []
      modifies this
      ensures data == old(data) + IntTlv(FromBE(b))
    {
      hide FromBE, ToBE, DerLen, IntContent;
      Push(0x02);
      var start := 0;
      while start < |b| - 1 && b[start] == 0 && b[start + 1] < 0x80
        invariant 0 <= start < |b|
        invariant FromBE(b[start..]) == FromBE(b)
        invariant data == old(data) + [0x02]
      {
        assert b[start..] == [0] + b[start + 1..];
        FromBELeadingZero(b[start + 1..]);
        start := start + 1;
      }
      var slice := b[start..];
      TrimmedIsMinimal(slice);
      if slice != [] && slice[0] >= 0x80 {
        EncodeDerLen(|slice| + 1);
        Push(0x00);
      } else {
        EncodeDerLen(|slice|);
      }
      Extend(slice);
      ghost var content := IntContent(FromBE(b));
      assert data == old(data) + ([0x02] + DerLen(|content|) + content);
    }

    method EncodeTlv(tag: byte, content: bytes)
      modifies this
      ensures data == old(data) + Tlv(tag, content)
    {
      Push(tag);
      EncodeDerLen(|content|);
      Extend(content);
    }
  }

  method EncodeDerSequence(content: bytes) returns (out: bytes)
    ensures out == Tlv(0x30, content)
  {
    var v := new ByteVec();
    v.Push(0x30);
    v.EncodeDerLen(|content|);
    v.Extend(content);
    out := v.data;
  }

  class DerReader {
    var input: bytes

    constructor (input: bytes)
      ensures this.input == input
    {
      this.input := input;
    }

    method ReadTag() returns (res: Result<(byte, bytes), DerError>)
      modifies this
      ensures Read(res, input) == Der.ReadTag(old(input))
    {
      if input == [] {
        return Err(Eof);
      }
      var tag := input[0];
      input := input[1..];
      if input == [] {
        return Err(EofLength);
      }
      var len: nat := input[0];
      input := input[1..];
      assert input == old(input)[2..];
      if len >= 0x80 {
        var lenBytes := len - 0x80;
        if |input| < lenBytes {
          return Err(EofLongLength);
        }
        len := 0;
        for i := 0 to lenBytes
          invariant input == old(input)[2..]
          invariant len == FromBE(input[..i]) % USIZE
        {
          LengthStep(input, i);
          len := (len * 256 + input[i]) % USIZE;
        }
        input := input[lenBytes..];
      }
      if |input| < len {
        return Err(TooShort);
      }
      var content := input[..len];
      input := input[len..];
      return Ok((tag, content));
    }

    method ReadSequence() returns (res: Result<DerReader, DerError>)
      modifies this
      ensures res.Ok? ==> fresh(res.value)
      ensures Read(if res.Ok? then Ok(res.value.input) else Err(res.error), input) == Der.ReadSequence(old(input))
    {
      var r := ReadTag();
      if r.Err? {
        return Err(r.error);
      }
      if r.value.0 != 0x30 {
        return Err(WrongTag(0x30));
      }
      var reader := new DerReader(r.value.1);
      return Ok(reader);
    }

    method ReadIntegerBytes() returns (res: Result<bytes, DerError>)
      modifies this
      ensures Read(res, input) == Der.ReadInteger(old(input))
    {
      var r := ReadTag();
      if r.Err? {
        return Err(r.error);
      }
      if r.value.0 != 0x02 {
        return Err(WrongTag(0x02));
      }
      var s := r.value.1;
      while |s| > 1 && s[0] == 0
        invariant Der.Strip(s) == Der.Strip(r.value.1)
        decreases |s|
      {
        s := s[1..];
      }
      return Ok(s);
    }

    method ReadOctetString() returns (res: Result<bytes, DerError>)
      modifies this
      ensures Read(res, input) == Der.ReadOctets(old(input))
    {
      var r := ReadTag();
      if r.Err? {
        return Err(r.error);
      }
      if r.value.0 != 0x04 {
        return Err(WrongTag(0x04));
      }
      return Ok(r.value.1);
    }

    method ReadBitString() returns (res: Result<bytes, DerError>)
      modifies this
      ensures Read(res, input) == Der.ReadBits(old(input))
    {
      var r := ReadTag();
      if r.Err? {
        return Err(r.error);
      }
      if r.value.0 != 0x03 {
        return Err(WrongTag(0x03));
      }
      if r.value.1 == [] {
        return Err(EmptyBitString);
      }
      return Ok(r.value.1[1..]);
    }

    method ReadOid() returns (res: Result<bytes, DerError>)
      modifies this
      ensures Read(res, input) == Der.ReadOid(old(input))
    {
      var r := ReadTag();
      if r.Err? {
        return Err(r.error);
      }
      if r.value.0 != 0x06 {
        return Err(WrongTag(0x06));
      }
      return Ok(r.value.1);
    }

    /** `tag_id` is at most 30 at every call, so the bitwise or is a sum. */
    method ReadOptionalExplicit(tagId: nat) returns (res: Result<Option<DerReader>, DerError>)
      requires tagId < 0x20
      modifies this
      ensures res.Ok? && res.value.Some? ==> fresh(res.value.value)
      ensures var got := if res.Ok? && res.value.Some? then Some(res.value.value.input) else None;
              Read(if res.Err? then Err(res.error) else Ok(got), input) == Der.ReadOptional(0xA0 + tagId, old(input))
    {
      if input != [] && input[0] == 0xA0 + tagId {
        var r := ReadTag();
        if r.Err? {
          return Err(r.error);
        }
        var reader := new DerReader(r.value.1);
        return Ok(Some(reader));
      }
      return Ok(None);
    }

    method ReadTlv() returns (res: Result<bytes, DerError>)
      modifies this
      ensures Read(res, input) == Der.ReadTlv(old(input))
    {
      var original := input;
      var r := ReadTag();
      ReadConfined(original);
      if r.Err? {
        return Err(r.error);
      }
      var consumed := |original| - |input|;
      return Ok(original[..consumed]);
    }
  }
}
