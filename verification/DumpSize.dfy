/**
 * The message that announces the size of a dump: four octets where the size fits and is not zero,
 * otherwise four zero octets and eight more.
 */
module DumpSize {
  import opened Bytes
  import opened Options

  const U32: int := 0x1_0000_0000
  const U64: int := 0x1_0000_0000_0000_0000

  function Encode(size: nat): Bytes {
    if 0 < size < U32 then Digits(size, 4) else Digits(0, 4) + Digits(size, 8)
  }

  function Decode(buf: Bytes): Option<nat> {
    if |buf| == 4 then Some(ValueOf(buf))
    else if |buf| == 12 then
      if buf[..4] != [0, 0, 0, 0] then None
      else
        var size := ValueOf(buf[4..]);
        if 0 < size < U32 then None else Some(size)
    else None
  }

  function ValueOf(s: Bytes): nat {
    BigEndianBound(s);
    BigEndian(s)
  }

  lemma Widths()
    ensures ShiftBytes(1, 4) == U32 && ShiftBytes(1, 8) == U64
  {
    assert ShiftBytes(1, 2) == 65536;
    assert ShiftBytes(1, 4) == U32;
    assert ShiftBytes(1, 6) == 0x1_0000_0000_0000;
  }

  /** Every 64-bit size decodes back. */
  lemma DecodeUndoesEncode(size: nat)
    requires size < U64
    ensures Decode(Encode(size)) == Some(size)
  {
    Widths();
    if 0 < size < U32 {
      DigitsValue(size, 4);
    } else {
      var zeros, rest := Digits(0, 4), Digits(size, 8);
      DigitsValue(size, 8);
      assert Digits(0, 2) == [0, 0];
      assert zeros == [0, 0, 0, 0];
      assert (zeros + rest)[..4] == zeros && (zeros + rest)[4..] == rest;
    }
  }

  lemma NoDigits()
    ensures Digits(0, 4) == [0, 0, 0, 0] && BigEndian([0, 0, 0, 0]) == 0
  {
    Widths();
    assert Digits(0, 2) == [0, 0];
    assert Digits(0, 4) == [0, 0, 0, 0];
    DigitsValue(0, 4);
  }

  lemma ShortUndone(buf: Bytes)
    requires |buf| == 4
    ensures ValueOf(buf) < U32 && (Encode(ValueOf(buf)) == buf <==> buf != [0, 0, 0, 0])
  {
    NoDigits();
    Widths();
    hide Digits, BigEndian, ShiftBytes;
    DigitsOf(buf);
    BigEndianBound(buf);
  }

  lemma LongUndone(buf: Bytes)
    requires |buf| == 12 && Decode(buf).Some?
    ensures Decode(buf).value < U64 && Encode(Decode(buf).value) == buf
  {
    NoDigits();
    Widths();
    hide Digits, BigEndian, ShiftBytes;
    DigitsOf(buf[4..]);
    BigEndianBound(buf[4..]);
    assert buf == buf[..4] + buf[4..];
  }

  /** A message accepted is the one its size encodes to, but for four zero octets. */
  lemma EncodeUndoesDecode(buf: Bytes)
    requires Decode(buf).Some?
    ensures Encode(Decode(buf).value) == buf <==> buf != [0, 0, 0, 0]
    ensures Decode(buf).value < U64
  {
    hide Encode, ValueOf;
    if |buf| == 4 {
      ShortUndone(buf);
    } else {
      LongUndone(buf);
    }
  }

  /** The octets of the message: four, most significant first, for a size that fits and is not zero. */
  lemma EncodedBytes(size: nat)
    requires size < U64
    ensures 0 < size < 0x1_0000_0000 ==>
      Encode(size) == [size / 0x100_0000, size / 0x1_0000 % 0x100, size / 0x100 % 0x100, size % 0x100]
    ensures size == 0 || size >= 0x1_0000_0000 ==>
      |Encode(size)| == 12 && Encode(size)[..4] == [0, 0, 0, 0] && BigEndian(Encode(size)[4..]) == size
  {
    Widths();
    NoDigits();
    if 0 < size < 0x1_0000_0000 {
      DigitBytes(size);
    } else {
      DigitsValue(size, 8);
      hide Digits, BigEndian;
      assert (Digits(0, 4) + Digits(size, 8))[4..] == Digits(size, 8);
    }
  }

  /** What is accepted: four octets, or four zeros and eight that could not have been four. */
  lemma DecodeMeans(buf: Bytes)
    ensures Decode(buf)
         == if |buf| == 4 then Some(ValueOf(buf))
            else if |buf| == 12 && buf[0] == 0 && buf[1] == 0 && buf[2] == 0 && buf[3] == 0
                    && (ValueOf(buf[4..]) == 0 || ValueOf(buf[4..]) >= 0x1_0000_0000) then Some(ValueOf(buf[4..]))
            else None
  {
    hide ValueOf;
  }
}
