// The archive backend/app/photo_archive.py writes, in the format of PKWARE's
// APPNOTE.TXT 6.3.x, and a reader for that format (sections 4.3.7 local file
// header, 4.3.9 data descriptor, 4.3.12 central directory header, 4.3.16 end
// of central directory record).
module ZipFormat {
  import opened Common
  import opened Bytes
  import opened Crc32
  import opened ZipLayout

  // Modification time and date of an entry.
  datatype Stamp = Stamp(time: uint16, date: uint16)

  datatype FileData = FileData(name: Bytes, content: Bytes, crc: uint32, stamp: Stamp)

  predicate FileFits(f: FileData) {
    |f.name| < 0x1_0000 && |f.content| <= ZIP32_MAX
  }

  // A file whose name and size the 16- and 32-bit fields can hold.
  type File = f: FileData | FileFits(f) witness FileData([], [], 0, Stamp(0, 0))

  const LOCAL_SIGNATURE: nat := 0x04034B50
  const DESCRIPTOR_SIGNATURE: nat := 0x08074B50
  const CENTRAL_SIGNATURE: nat := 0x02014B50
  const END_SIGNATURE: nat := 0x06054B50

  // Sizes and CRC follow in a descriptor (0x0008); names are UTF-8 (0x0800).
  const FLAGS: nat := 0x0808

  // ----- the writer's records -----

  const LOCAL_FORMAT := I(0, H(0, H(0, H(0, H(0, H(0, I(0, I(0, I(0, H(0, H(0, Done)))))))))))

  function LocalRecordOf(nameLength: uint16, stamp: Stamp): (r: Record)
    ensures Like(LOCAL_FORMAT, r)
  {
    I(LOCAL_SIGNATURE, H(20, H(FLAGS, H(0, H(stamp.time, H(stamp.date,
      I(0, I(0, I(0, H(nameLength, H(0, Done)))))))))))
  }

  const DESCRIPTOR_FORMAT := I(0, I(0, I(0, I(0, Done))))

  function DescriptorOf(crc: uint32, size: uint32): (r: Record)
    ensures Like(DESCRIPTOR_FORMAT, r)
  {
    I(DESCRIPTOR_SIGNATURE, I(crc, I(size, I(size, Done))))
  }

  const CENTRAL_TAIL_FORMAT := H(0, H(0, H(0, H(0, H(0, I(0, I(0, Done)))))))

  function CentralTailOf(nameLength: uint16, localOffset: uint32): (r: Record)
    ensures Like(CENTRAL_TAIL_FORMAT, r)
  {
    H(nameLength, H(0, H(0, H(0, H(0, I(0, I(localOffset, Done)))))))
  }

  const CENTRAL_FORMAT := I(0, H(0, H(0, H(0, H(0, H(0, H(0, I(0, I(0, I(0, CENTRAL_TAIL_FORMAT))))))))))

  function CentralOf(nameLength: uint16, crc: uint32, size: uint32, localOffset: uint32, stamp: Stamp): (r: Record)
    ensures Like(CENTRAL_FORMAT, r)
  {
    I(CENTRAL_SIGNATURE, H(20, H(20, H(FLAGS, H(0, H(stamp.time, H(stamp.date,
      I(crc, I(size, I(size, CentralTailOf(nameLength, localOffset)))))))))))
  }

  const END_FORMAT := I(0, H(0, H(0, H(0, H(0, I(0, I(0, H(0, Done))))))))

  function EndOf(count: uint16, centralSize: uint32, centralOffset: uint32): (r: Record)
    ensures Like(END_FORMAT, r)
  {
    I(END_SIGNATURE, H(0, H(0, H(count, H(count, I(centralSize, I(centralOffset, H(0, Done))))))))
  }

  // ----- the archive of a list of files -----

  function LocalHeader(f: File): Bytes {
    Pack(LocalRecordOf(|f.name|, f.stamp)) + f.name
  }

  function Descriptor(f: File): Bytes {
    Pack(DescriptorOf(f.crc, |f.content|))
  }

  function LocalRecord(f: File): Bytes {
    LocalHeader(f) + f.content + Descriptor(f)
  }

  function CentralRecord(f: File, localOffset: uint32): Bytes {
    Pack(CentralOf(|f.name|, f.crc, |f.content|, localOffset, f.stamp)) + f.name
  }

  function Locals(files: seq<File>): Bytes {
    Flatten(Pieces(LocalRecord, files))
  }

  function Central(files: seq<File>): Bytes
    requires |Locals(files)| <= ZIP32_MAX
  {
    Flatten(Entries(LocalRecord, CentralRecord, files))
  }

  // The counts, sizes and offsets of the archive fit their fields.
  predicate Fits(files: seq<File>) {
    |Locals(files)| <= ZIP32_MAX && |files| < 0x1_0000 && |Central(files)| <= ZIP32_MAX
  }

  function Archive(files: seq<File>): Bytes
    requires Fits(files)
  {
    Locals(files) + Central(files) + Pack(EndOf(|files|, |Central(files)|, |Locals(files)|))
  }

  // ----- the reader -----

  function Slice(b: Bytes, i: nat, n: nat): Option<Bytes> {
    if i + n > |b| then None else Some(b[i..i + n])
  }

  // Reads the name that follows a record at position i.
  function NameAfter(b: Bytes, i: nat, format: Record, n: nat): Option<Bytes> {
    Slice(b, i + Size(format), n)
  }

  // Stamp, name length and extra length of a local header.
  function LocalParts(r: Record): Option<(Stamp, uint16, uint16)> {
    match r
    case I(signature, H(_, H(_, H(_, H(time, H(date, I(_, I(_, I(_, H(n, H(extra, Done))))))))))) =>
      if signature == LOCAL_SIGNATURE then Some((Stamp(time, date), n, extra)) else None
    case _ => None
  }

  // The local header at `offset`: its name, its stamp and where its data start.
  function ReadLocalHeader(b: Bytes, offset: nat): Option<(Bytes, Stamp, nat)> {
    match RecordAt(b, offset, LOCAL_FORMAT)
    case None => None
    case Some(r) =>
      match LocalParts(r)
      case None => None
      case Some((stamp, n, extra)) =>
        match NameAfter(b, offset, LOCAL_FORMAT, n)
        case None => None
        case Some(name) => Some((name, stamp, offset + Size(LOCAL_FORMAT) + n + extra))
  }

  // The `size` bytes of data at position i, checked against their descriptor.
  function ReadData(b: Bytes, i: nat, crc: uint32, size: uint32): Option<Bytes> {
    match Slice(b, i, size)
    case None => None
    case Some(content) =>
      if RecordAt(b, i + size, DESCRIPTOR_FORMAT) == Some(DescriptorOf(crc, size)) then Some(content) else None
  }

  // What a directory entry says: name, stamp, CRC, size, local offset, and
  // where the entry ends.
  datatype Entry = Entry(name: Bytes, stamp: Stamp, crc: uint32, size: uint32, offset: uint32, next: nat)

  datatype EntryParts =
    EntryParts(stamp: Stamp, crc: uint32, size: uint32, name: uint16, extra: uint16, comment: uint16, offset: uint32)

  function CentralParts(r: Record): Option<EntryParts> {
    match r
    case I(signature, H(_, H(_, H(flags, H(compression, H(time, H(date, I(crc, I(packed, I(size, H(n,
              H(extra, H(comment, H(_, H(_, I(_, I(offset, Done))))))))))))))))) =>
      if signature != CENTRAL_SIGNATURE || flags != FLAGS || compression != 0 || packed != size then None
      else Some(EntryParts(Stamp(time, date), crc, size, n, extra, comment, offset))
    case _ => None
  }

  function ReadEntry(b: Bytes, i: nat): Option<Entry> {
    match RecordAt(b, i, CENTRAL_FORMAT)
    case None => None
    case Some(r) =>
      match CentralParts(r)
      case None => None
      case Some(p) =>
        match NameAfter(b, i, CENTRAL_FORMAT, p.name)
        case None => None
        case Some(name) =>
          var next := i + Size(CENTRAL_FORMAT) + p.name + p.extra + p.comment;
          Some(Entry(name, p.stamp, p.crc, p.size, p.offset, next))
  }

  // The file a directory entry points to.
  function ReadFile(b: Bytes, e: Entry): Option<File> {
    match ReadLocalHeader(b, e.offset)
    case None => None
    case Some((name, stamp, start)) =>
      if name != e.name || stamp != e.stamp then None
      else
        match ReadData(b, start, e.crc, e.size)
        case None => None
        case Some(content) => Some(FileData(name, content, e.crc, stamp))
  }

  // The file the directory entry at position i leads to, and where the entry ends.
  function ReadStep(b: Bytes, i: nat): Option<(File, nat)> {
    match ReadEntry(b, i)
    case None => None
    case Some(e) =>
      match ReadFile(b, e)
      case None => None
      case Some(file) => Some((file, e.next))
  }

  // Number of entries, size and offset of the directory.
  function EndParts(r: Record): Option<(uint16, uint32, uint32)> {
    match r
    case I(signature, H(_, H(_, H(here, H(count, I(size, I(offset, H(comment, Done)))))))) =>
      if signature == END_SIGNATURE && here == count && comment == 0 then Some((count, size, offset)) else None
    case _ => None
  }

  // Starts from the last 22 bytes.
  function ReadFiles(b: Bytes): Option<seq<File>> {
    if |b| < Size(END_FORMAT) then None
    else
      var e := |b| - Size(END_FORMAT);
      match RecordAt(b, e, END_FORMAT)
      case None => None
      case Some(r) =>
        match EndParts(r)
        case None => None
        case Some((count, size, offset)) =>
          if offset + size != e then None else ReadDirectory(ReadStep, b, offset, e, count)
  }

  predicate Sound(files: seq<File>) {
    forall i | 0 <= i < |files| :: files[i].crc == Crc(files[i].content, 0)
  }

  // The files of an archive, if it is well formed and every CRC is right.
  function Read(b: Bytes): Option<seq<File>> {
    match ReadFiles(b)
    case None => None
    case Some(files) => if Sound(files) then Some(files) else None
  }

  // ----- reading one record -----

  lemma ReadsLocalHeader(b: Bytes, i: nat, r: Record, name: Bytes, stamp: Stamp)
    requires Like(LOCAL_FORMAT, r) && LocalParts(r) == Some((stamp, |name|, 0))
    requires At(b, i, Pack(r) + name)
    ensures ReadLocalHeader(b, i) == Some((name, stamp, i + |Pack(r) + name|))
  {
    AtSplit(b, i, Pack(r), name);
    ReadsRecord(b, i, LOCAL_FORMAT, r);
  }

  lemma ReadsData(b: Bytes, i: nat, content: Bytes, crc: uint32, size: uint32)
    requires size == |content|
    requires At(b, i, content) && At(b, i + size, Pack(DescriptorOf(crc, size)))
    ensures ReadData(b, i, crc, size) == Some(content)
  {
    ReadsRecord(b, i + size, DESCRIPTOR_FORMAT, DescriptorOf(crc, size));
  }

  lemma ReadsEntry(b: Bytes, i: nat, r: Record, p: EntryParts, name: Bytes)
    requires Like(CENTRAL_FORMAT, r) && CentralParts(r) == Some(p) && p.name == |name| && p.extra == p.comment == 0
    requires At(b, i, Pack(r) + name)
    ensures ReadEntry(b, i) == Some(Entry(name, p.stamp, p.crc, p.size, p.offset, i + |Pack(r) + name|))
  {
    AtSplit(b, i, Pack(r), name);
    ReadsRecord(b, i, CENTRAL_FORMAT, r);
  }

  lemma ReadsFile(b: Bytes, e: Entry, start: nat, content: Bytes)
    requires ReadLocalHeader(b, e.offset) == Some((e.name, e.stamp, start))
    requires ReadData(b, start, e.crc, e.size) == Some(content)
    ensures ReadFile(b, e) == Some(FileData(e.name, content, e.crc, e.stamp))
  {
  }

  // ----- the round trip -----

  lemma PartsOfLocal(n: uint16, stamp: Stamp)
    ensures LocalParts(LocalRecordOf(n, stamp)) == Some((stamp, n, 0))
  {
  }

  lemma PartsOfCentral(n: uint16, crc: uint32, size: uint32, offset: uint32, stamp: Stamp)
    ensures CentralParts(CentralOf(n, crc, size, offset, stamp))
         == Some(EntryParts(stamp, crc, size, n, 0, 0, offset))
  {
  }

  lemma PartsOfEnd(count: uint16, size: uint32, offset: uint32)
    ensures EndParts(EndOf(count, size, offset)) == Some((count, size, offset))
  {
  }

  lemma EntryOfFile(b: Bytes, i: nat, offset: uint32, f: File)
    requires At(b, i, CentralRecord(f, offset))
    ensures ReadEntry(b, i)
         == Some(Entry(f.name, f.stamp, f.crc, |f.content|, offset, i + |CentralRecord(f, offset)|))
  {
    var crc: uint32, size: uint32, n: uint16 := f.crc, |f.content|, |f.name|;
    PartsOfCentral(n, crc, size, offset, f.stamp);
    ReadsEntry(b, i, CentralOf(n, crc, size, offset, f.stamp), EntryParts(f.stamp, crc, size, n, 0, 0, offset), f.name);
  }

  lemma HeaderOfFile(b: Bytes, offset: nat, f: File)
    requires At(b, offset, LocalRecord(f))
    ensures ReadLocalHeader(b, offset) == Some((f.name, f.stamp, offset + |LocalHeader(f)|))
  {
    AtSplit(b, offset, LocalHeader(f) + f.content, Descriptor(f));
    AtSplit(b, offset, LocalHeader(f), f.content);
    PartsOfLocal(|f.name|, f.stamp);
    ReadsLocalHeader(b, offset, LocalRecordOf(|f.name|, f.stamp), f.name, f.stamp);
  }

  lemma DataOfFile(b: Bytes, offset: nat, f: File)
    requires At(b, offset, LocalRecord(f))
    ensures ReadData(b, offset + |LocalHeader(f)|, f.crc, |f.content|) == Some(f.content)
  {
    AtSplit(b, offset, LocalHeader(f) + f.content, Descriptor(f));
    AtSplit(b, offset, LocalHeader(f), f.content);
    ReadsData(b, offset + |LocalHeader(f)|, f.content, f.crc, |f.content|);
  }

  lemma FileOfEntry(b: Bytes, offset: uint32, f: File, next: nat)
    requires At(b, offset, LocalRecord(f))
    ensures ReadFile(b, Entry(f.name, f.stamp, f.crc, |f.content|, offset, next)) == Some(f)
  {
    HeaderOfFile(b, offset, f);
    DataOfFile(b, offset, f);
    ReadsFile(b, Entry(f.name, f.stamp, f.crc, |f.content|, offset, next), offset + |LocalHeader(f)|, f.content);
  }

  lemma StepReads(b: Bytes, i: nat, offset: uint32, f: File)
    ensures InvertsAt(LocalRecord, CentralRecord, ReadStep, b, i, offset, f)
  {
    if At(b, i, CentralRecord(f, offset)) && At(b, offset, LocalRecord(f)) {
      EntryOfFile(b, i, offset, f);
      FileOfEntry(b, offset, f, i + |CentralRecord(f, offset)|);
    }
  }

  lemma WriterAndReaderInvert()
    ensures Inverts(LocalRecord, CentralRecord, ReadStep)
  {
    forall b: Bytes, i: nat, offset: uint32, f: File
      ensures InvertsAt(LocalRecord, CentralRecord, ReadStep, b, i, offset, f)
    {
      StepReads(b, i, offset, f);
    }
  }

  lemma ReadsEnd(b: Bytes, e: nat, r: Record, count: uint16, size: uint32, offset: uint32)
    requires Like(END_FORMAT, r) && EndParts(r) == Some((count, size, offset)) && offset + size == e
    requires At(b, e, Pack(r)) && |b| == e + |Pack(r)|
    ensures ReadFiles(b) == ReadDirectory(ReadStep, b, offset, e, count)
  {
    ReadsRecord(b, e, END_FORMAT, r);
  }

  // Reading an archive gives back exactly the files it was written from.
  lemma RoundTrip(files: seq<File>)
    requires Fits(files) && Sound(files)
    ensures Read(Archive(files)) == Some(files)
  {
    var front, r := Locals(files) + Central(files), EndOf(|files|, |Central(files)|, |Locals(files)|);
    PartsOfEnd(|files|, |Central(files)|, |Locals(files)|);
    AtEnd(front, Pack(r));
    ReadsEnd(front + Pack(r), |front|, r, |files|, |Central(files)|, |Locals(files)|);
    WriterAndReaderInvert();
    ReadsBody(LocalRecord, CentralRecord, ReadStep, files, Pack(r));
  }

  // Two lists with the same archive are the same list.
  lemma ArchiveIsInjective(x: seq<File>, y: seq<File>)
    requires Fits(x) && Sound(x) && Fits(y) && Sound(y) && Archive(x) == Archive(y)
    ensures x == y
  {
    RoundTrip(x);
    RoundTrip(y);
  }
}
