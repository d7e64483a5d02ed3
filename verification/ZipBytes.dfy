// The bytes of an archive as the format's documents give them: every field of
// every record of PKWARE's APPNOTE.TXT in place, and the bytes of UTF-8 (RFC 3629).
module ZipBytes {
  import opened Bytes
  import opened ZipFormat
  import Utf8

  // ----- the records, field by field -----

  lemma Step(b: Bytes, o: nat, r: Record)
    requires At(b, o, Pack(r)) && !r.Done?
    ensures r.H? ==> At(b, o, Le16(r.h)) && At(b, o + 2, Pack(r.rest))
    ensures r.I? ==> At(b, o, Le32(r.i)) && At(b, o + 4, Pack(r.rest))
  {
    match r
    case H(n, rest) => AtSplit(b, o, Le16(n), Pack(rest));
    case I(n, rest) =>
      Le32RoundTrip(n);
      AtSplit(b, o, Le32(n), Pack(rest));
  }

  // What follows the date in a local header.
  function LocalTailOf(n: uint16): Record {
    I(0, I(0, I(0, H(n, H(0, Done)))))
  }

  lemma LocalTail(b: Bytes, n: uint16)
    requires At(b, 14, Pack(LocalTailOf(n)))
    ensures
      && At(b, 14, [0, 0, 0, 0]) && At(b, 18, [0, 0, 0, 0]) && At(b, 22, [0, 0, 0, 0]) && At(b, 26, Le16(n))
      && At(b, 28, [0, 0])
  {
    var r := LocalTailOf(n);
    Step(b, 14, r);
    Step(b, 18, r.rest);
    Step(b, 22, r.rest.rest);
    Step(b, 26, r.rest.rest.rest);
    Step(b, 28, r.rest.rest.rest.rest);
  }

  lemma LocalHead(b: Bytes, f: File)
    requires At(b, 0, Pack(LocalRecordOf(|f.name|, f.stamp)))
    ensures
      && At(b, 0, [0x50, 0x4B, 0x03, 0x04]) && At(b, 4, [20, 0]) && At(b, 6, [0x08, 0x08]) && At(b, 8, [0, 0])
      && At(b, 10, Le16(f.stamp.time)) && At(b, 12, Le16(f.stamp.date))
      && At(b, 14, Pack(LocalTailOf(|f.name|)))
  {
    var r := LocalRecordOf(|f.name|, f.stamp);
    Step(b, 0, r);
    Step(b, 4, r.rest);
    Step(b, 6, r.rest.rest);
    Step(b, 8, r.rest.rest.rest);
    Step(b, 10, r.rest.rest.rest.rest);
    Step(b, 12, r.rest.rest.rest.rest.rest);
  }

  // Section 4.3.7: signature, version 2.0, flags, stored, time, date, CRC and
  // sizes left to the descriptor, name length, no extra field, then the name.
  lemma LocalLayout(f: File)
    ensures var b := LocalHeader(f);
      && |b| == 30 + |f.name| && b[30..] == f.name
      && At(b, 0, [0x50, 0x4B, 0x03, 0x04]) && At(b, 4, [20, 0]) && At(b, 6, [0x08, 0x08]) && At(b, 8, [0, 0])
      && At(b, 10, Le16(f.stamp.time)) && At(b, 12, Le16(f.stamp.date)) && At(b, 14, [0, 0, 0, 0])
      && At(b, 18, [0, 0, 0, 0]) && At(b, 22, [0, 0, 0, 0]) && At(b, 26, Le16(|f.name|)) && At(b, 28, [0, 0])
  {
    var b, r := LocalHeader(f), LocalRecordOf(|f.name|, f.stamp);
    PackRoundTrip(LOCAL_FORMAT, r);
    AtSplit(b, 0, Pack(r), f.name);
    LocalHead(b, f);
    LocalTail(b, |f.name|);
  }

  // Section 4.3.9: signature, CRC, both sizes.
  lemma DescriptorLayout(f: File)
    ensures var b := Descriptor(f);
      && |b| == 16
      && At(b, 0, [0x50, 0x4B, 0x07, 0x08]) && At(b, 4, Le32(f.crc)) && At(b, 8, Le32(|f.content|))
      && At(b, 12, Le32(|f.content|))
  {
    var b, r := Descriptor(f), DescriptorOf(f.crc, |f.content|);
    PackRoundTrip(DESCRIPTOR_FORMAT, r);
    Step(b, 0, r);
    Step(b, 4, r.rest);
    Step(b, 8, r.rest.rest);
    Step(b, 12, r.rest.rest.rest);
  }

  lemma CentralTail(b: Bytes, o: nat, n: uint16, offset: uint32)
    requires At(b, o, Pack(CentralTailOf(n, offset)))
    ensures
      && At(b, o, Le16(n)) && At(b, o + 2, [0, 0]) && At(b, o + 4, [0, 0]) && At(b, o + 6, [0, 0])
      && At(b, o + 8, [0, 0]) && At(b, o + 10, [0, 0, 0, 0]) && At(b, o + 14, Le32(offset))
  {
    var r := CentralTailOf(n, offset);
    Step(b, o, r);
    Step(b, o + 2, r.rest);
    Step(b, o + 4, r.rest.rest);
    Step(b, o + 6, r.rest.rest.rest);
    Step(b, o + 8, r.rest.rest.rest.rest);
    Step(b, o + 10, r.rest.rest.rest.rest.rest);
    Step(b, o + 14, r.rest.rest.rest.rest.rest.rest);
  }

  lemma CentralHead(b: Bytes, f: File, offset: uint32)
    requires At(b, 0, Pack(CentralOf(|f.name|, f.crc, |f.content|, offset, f.stamp)))
    ensures
      && At(b, 0, [0x50, 0x4B, 0x01, 0x02]) && At(b, 4, [20, 0]) && At(b, 6, [20, 0])
      && At(b, 8, [0x08, 0x08]) && At(b, 10, [0, 0]) && At(b, 12, Le16(f.stamp.time))
      && At(b, 14, Le16(f.stamp.date)) && At(b, 16, Le32(f.crc)) && At(b, 20, Le32(|f.content|))
      && At(b, 24, Le32(|f.content|))
      && At(b, 28, Pack(CentralTailOf(|f.name|, offset)))
  {
    var r := CentralOf(|f.name|, f.crc, |f.content|, offset, f.stamp);
    Step(b, 0, r);
    Step(b, 4, r.rest);
    Step(b, 6, r.rest.rest);
    Step(b, 8, r.rest.rest.rest);
    Step(b, 10, r.rest.rest.rest.rest);
    Step(b, 12, r.rest.rest.rest.rest.rest);
    Step(b, 14, r.rest.rest.rest.rest.rest.rest);
    Step(b, 16, r.rest.rest.rest.rest.rest.rest.rest);
    Step(b, 20, r.rest.rest.rest.rest.rest.rest.rest.rest);
    Step(b, 24, r.rest.rest.rest.rest.rest.rest.rest.rest.rest);
  }

  // Section 4.3.12: signature, versions 2.0, flags, stored, time, date, CRC, both
  // sizes, name length, nothing optional, the offset of the local header, the name.
  lemma CentralLayout(f: File, offset: uint32)
    ensures var b := CentralRecord(f, offset);
      && |b| == 46 + |f.name| && b[46..] == f.name
      && At(b, 0, [0x50, 0x4B, 0x01, 0x02]) && At(b, 4, [20, 0]) && At(b, 6, [20, 0])
      && At(b, 8, [0x08, 0x08]) && At(b, 10, [0, 0]) && At(b, 12, Le16(f.stamp.time))
      && At(b, 14, Le16(f.stamp.date)) && At(b, 16, Le32(f.crc)) && At(b, 20, Le32(|f.content|))
      && At(b, 24, Le32(|f.content|)) && At(b, 28, Le16(|f.name|)) && At(b, 30, [0, 0]) && At(b, 32, [0, 0])
      && At(b, 34, [0, 0]) && At(b, 36, [0, 0]) && At(b, 38, [0, 0, 0, 0]) && At(b, 42, Le32(offset))
  {
    var b, r := CentralRecord(f, offset), CentralOf(|f.name|, f.crc, |f.content|, offset, f.stamp);
    PackRoundTrip(CENTRAL_FORMAT, r);
    assert Size(CENTRAL_TAIL_FORMAT) == 18;
    AtSplit(b, 0, Pack(r), f.name);
    CentralHead(b, f, offset);
    CentralTail(b, 28, |f.name|, offset);
  }

  // Section 4.3.16: signature, one disk, both counts, size and offset of the
  // directory, no comment.
  lemma EndLayout(count: uint16, size: uint32, offset: uint32)
    ensures var b := Pack(EndOf(count, size, offset));
      && |b| == 22
      && At(b, 0, [0x50, 0x4B, 0x05, 0x06]) && At(b, 4, [0, 0]) && At(b, 6, [0, 0]) && At(b, 8, Le16(count))
      && At(b, 10, Le16(count)) && At(b, 12, Le32(size)) && At(b, 16, Le32(offset)) && At(b, 20, [0, 0])
  {
    var b, r := Pack(EndOf(count, size, offset)), EndOf(count, size, offset);
    PackRoundTrip(END_FORMAT, r);
    Step(b, 0, r);
    Step(b, 4, r.rest);
    Step(b, 6, r.rest.rest);
    Step(b, 8, r.rest.rest.rest);
    Step(b, 10, r.rest.rest.rest.rest);
    Step(b, 12, r.rest.rest.rest.rest.rest);
    Step(b, 16, r.rest.rest.rest.rest.rest.rest);
    Step(b, 20, r.rest.rest.rest.rest.rest.rest.rest);
  }

  // ----- sizes -----

  lemma LocalSize(f: File)
    ensures |LocalRecord(f)| == 46 + |f.name| + |f.content|
  {
    LocalLayout(f);
    DescriptorLayout(f);
  }

  lemma CentralSize(f: File, offset: uint32)
    ensures |CentralRecord(f, offset)| == 46 + |f.name|
  {
    CentralLayout(f, offset);
  }

  // ----- UTF-8 -----

  // The bytes of a character: as many as its code point needs, the lead byte
  // marked with their number, six bits in each of the others.
  lemma Utf8Bytes(c: char)
    ensures var b, n := Utf8.EncodeChar(c), c as int;
      && |b| == (if n < 0x80 then 1 else if n < 0x800 then 2 else if n < 0x1_0000 then 3 else 4)
      && (|b| == 1 ==> b[0] == n)
      && (|b| == 2 ==> 0xC2 <= b[0] <= 0xDF)
      && (|b| == 3 ==> 0xE0 <= b[0] <= 0xEF)
      && (|b| == 4 ==> 0xF0 <= b[0] <= 0xF4)
      && (forall i | 1 <= i < |b| :: 0x80 <= b[i] <= 0xBF)
      && (|b| == 2 ==> n == ((b[0] as int) - 0xC0) * 64 + ((b[1] as int) - 0x80))
      && (|b| == 3 ==> n == ((b[0] as int) - 0xE0) * 4096 + ((b[1] as int) - 0x80) * 64 + ((b[2] as int) - 0x80))
      && (|b| == 4 ==>
            n == ((b[0] as int) - 0xF0) * 262144 + ((b[1] as int) - 0x80) * 4096
                 + ((b[2] as int) - 0x80) * 64 + ((b[3] as int) - 0x80))
  {
    Utf8.Digits64(c as int);
  }
}
