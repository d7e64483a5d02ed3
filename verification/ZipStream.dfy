// Streaming an archive (backend/app/photo_archive.py): the generator's chunks,
// its hand-kept offset and CRC, and what a reader gets out of them.
module ZipStream {
  import opened Common
  import opened Bytes
  import opened Crc32
  import Utf8
  import opened DownloadNames
  import opened ZipLayout
  import opened ZipFormat
  import opened ZipBytes

  // ----- time stamps -----

  datatype Moment = Moment(year: nat, month: nat, day: nat, hour: nat, minute: nat, second: nat)

  type Utc = m: Moment |
    1 <= m.year && 1 <= m.month <= 12 && 1 <= m.day <= 31 && m.hour < 24 && m.minute < 60 && m.second < 60
    witness Moment(1980, 1, 1, 0, 0, 0)

  // The shifted fields do not overlap, so "or" is addition.
  function DosTimestamp(now: Utc): Stamp {
    var year := Max(1980, Min(now.year, 2107));
    Stamp(now.hour * 2048 + now.minute * 32 + now.second / 2, (year - 1980) * 512 + now.month * 32 + now.day)
  }

  function FromDos(s: Stamp): Moment {
    Moment(s.date / 512 + 1980, s.date / 32 % 16, s.date % 32, s.time / 2048, s.time / 32 % 64, s.time % 32 * 2)
  }

  // The stamp keeps every field, seconds to two and years within the format's range.
  lemma DosRoundTrip(now: Utc)
    ensures FromDos(DosTimestamp(now)) == now.(year := Max(1980, Min(now.year, 2107)), second := now.second / 2 * 2)
  {
    var year := Max(1980, Min(now.year, 2107)) - 1980;
    var t, d := now.hour * 2048 + now.minute * 32 + now.second / 2, year * 512 + now.month * 32 + now.day;
    assert t / 32 == now.hour * 64 + now.minute && t / 2048 == t / 32 / 64;
    assert d / 32 == year * 16 + now.month && d / 512 == d / 32 / 16;
  }

  // ----- what is streamed -----

  // An object's body, as the reads return it before the empty one.
  type Body = chunks: seq<Bytes> | forall i | 0 <= i < |chunks| :: chunks[i] != []

  datatype Request = Request(objectKey: string, fileName: string)

  // The file an entry stands for, or None when the object is missing or a
  // field of its records would not fit.
  function FileOf(store: map<string, Body>, r: Request, name: string, now: Utc): Option<File> {
    if r.objectKey !in store then None
    else
      var content, encoded := Flatten(store[r.objectKey]), Utf8.Encode(name);
      if |encoded| >= 0x1_0000 || |content| > ZIP32_MAX then None
      else Some(FileData(encoded, content, Crc(content, 0), DosTimestamp(now)))
  }

  ghost predicate FilesOf(store: map<string, Body>, rs: seq<Request>, names: seq<string>, clock: seq<Utc>,
                          files: seq<File>)
    requires |names| == |clock| == |rs|
  {
    |files| <= |rs| && forall i | 0 <= i < |files| :: FileOf(store, rs[i], names[i], clock[i]) == Some(files[i])
  }

  // What the reader extracts: decoded names and contents.
  function Extract(b: Bytes): Option<seq<(string, Bytes)>> {
    match Read(b)
    case None => None
    case Some(files) => DecodeAll(files)
  }

  function DecodeAll(files: seq<File>): Option<seq<(string, Bytes)>> {
    if files == [] then Some([])
    else
      match Utf8.Decode(files[0].name)
      case None => None
      case Some(name) =>
        match DecodeAll(files[1..])
        case None => None
        case Some(rest) => Some([(name, files[0].content)] + rest)
  }

  function Listing(names: seq<string>, files: seq<File>): seq<(string, Bytes)>
    requires |names| == |files|
  {
    seq(|files|, i requires 0 <= i < |files| => (names[i], files[i].content))
  }

  lemma {:induction false} DecodesAll(files: seq<File>, names: seq<string>)
    requires |names| == |files|
    requires forall i | 0 <= i < |files| :: files[i].name == Utf8.Encode(names[i])
    ensures DecodeAll(files) == Some(Listing(names, files))
  {
    if files != [] {
      DecodesAll(files[1..], names[1..]);
      Utf8.RoundTrip(names[0]);
      assert files[0].name == Utf8.Encode(names[0]);
      assert DecodeAll(files) == Some([(names[0], files[0].content)] + Listing(names[1..], files[1..]));
      assert Listing(names, files) == [(names[0], files[0].content)] + Listing(names[1..], files[1..]);
    } else {
      assert Listing(names, files) == [];
    }
  }

  // ----- appending one file -----

  lemma LocalsAppend(files: seq<File>, f: File)
    ensures Locals(files + [f]) == Locals(files) + LocalRecord(f)
    ensures OffsetOf(LocalRecord, files + [f], |files|) == |Locals(files)|
    ensures forall i | 0 <= i < |files| ::
              OffsetOf(LocalRecord, files + [f], i) == OffsetOf(LocalRecord, files, i)
  {
    var before, after := Pieces(LocalRecord, files), Pieces(LocalRecord, files + [f]);
    assert after == before + [LocalRecord(f)];
    FlattenAppend(before, LocalRecord(f));
    assert after[..|files|] == before;
    assert forall i | 0 <= i < |files| :: after[..i] == before[..i];
  }

  // One record of the list the generator keeps for the directory.
  datatype Central = Central(name: Bytes, crc: Word, size: nat, localOffset: nat, stamp: Stamp)

  ghost predicate Recorded(files: seq<File>, records: seq<Central>) {
    && |records| == |files|
    && forall i | 0 <= i < |files| ::
         records[i] == Central(files[i].name, files[i].crc, |files[i].content|, OffsetOf(LocalRecord, files, i),
                               files[i].stamp)
  }

  lemma RecordedAppend(files: seq<File>, records: seq<Central>, f: File)
    requires Recorded(files, records)
    ensures Recorded(files + [f], records + [Central(f.name, f.crc, |f.content|, |Locals(files)|, f.stamp)])
  {
    LocalsAppend(files, f);
  }

  // Reads an object chunk by chunk, passing each chunk on.
  method StreamBody(body: Body) returns (out: seq<Bytes>, crc: Word, fileSize: nat, ok: bool)
    ensures ok <==> |Flatten(body)| <= ZIP32_MAX
    ensures ok ==> Flatten(out) == Flatten(body) && crc == Crc(Flatten(body), 0) && fileSize == |Flatten(body)|
  {
    out, crc, fileSize := [], 0, 0;
    CrcOfNothing(0);
    for i := 0 to |body|
      invariant out == body[..i] && crc == Crc(Flatten(out), 0) && fileSize == |Flatten(out)| <= ZIP32_MAX
    {
      var chunk := body[i];
      FlattenAppend(out, chunk);
      assert body[..i + 1] == out + [chunk];
      CrcOfChunks(Flatten(out), chunk, 0);
      crc := Crc(chunk, crc);
      fileSize := fileSize + |chunk|;
      if fileSize > ZIP32_MAX {
        FlattenConcat(body[..i + 1], body[i + 1..]);
        assert body[..i + 1] + body[i + 1..] == body;
        return out, crc, fileSize, false;
      }
      out := out + [chunk];
    }
    assert body[..|body|] == body;
    ok := true;
  }

  // The local part of one entry: header, chunks, descriptor.
  method StreamEntry(store: map<string, Body>, r: Request, name: string, now: Utc, localOffset: nat)
    returns (out: seq<Bytes>, record: Option<Central>)
    ensures record.Some? <==> FileOf(store, r, name, now).Some?
    ensures record.Some? ==>
      var f := FileOf(store, r, name, now).value;
      Flatten(out) == LocalRecord(f) && record.value == Central(f.name, f.crc, |f.content|, localOffset, f.stamp)
  {
    var encoded := Utf8.Encode(name);
    var stamp := DosTimestamp(now);
    out := [];
    if |encoded| >= 0x1_0000 {
      return out, None;
    }
    var header := Pack(LocalRecordOf(|encoded|, stamp)) + encoded;
    if r.objectKey !in store {
      return [header], None;
    }
    var chunks, crc, fileSize, ok := StreamBody(store[r.objectKey]);
    out := [header] + chunks;
    FlattenConcat([header], chunks);
    if !ok {
      return out, None;
    }
    var descriptor := Pack(DescriptorOf(crc, fileSize));
    FlattenAppend(out, descriptor);
    assert Flatten([header]) == header;
    out := out + [descriptor];
    record := Some(Central(encoded, crc, fileSize, localOffset, stamp));
  }

  // The whole list of entries has files, and the archive's fields hold them.
  ghost predicate Streams(store: map<string, Body>, rs: seq<Request>, names: seq<string>, clock: seq<Utc>,
                          files: seq<File>)
    requires |names| == |clock| == |rs|
  {
    |files| == |rs| && FilesOf(store, rs, names, clock, files) && Fits(files)
  }

  lemma LocalsPrefix(files: seq<File>, n: nat)
    requires n <= |files|
    ensures |Locals(files[..n])| <= |Locals(files)|
  {
    var pieces := Pieces(LocalRecord, files);
    assert Pieces(LocalRecord, files[..n]) == pieces[..n];
    var o := OffsetOf(LocalRecord, files, n);
  }

  lemma FilesAreUnique(store: map<string, Body>, rs: seq<Request>, names: seq<string>, clock: seq<Utc>,
                       x: seq<File>, y: seq<File>)
    requires |names| == |clock| == |rs| && |x| <= |y|
    requires FilesOf(store, rs, names, clock, x) && FilesOf(store, rs, names, clock, y)
    ensures x == y[..|x|]
  {
    forall i | 0 <= i < |x| ensures x[i] == y[i] {
      assert FileOf(store, rs[i], names[i], clock[i]) == Some(x[i]);
    }
  }

  lemma StreamsNeeds(store: map<string, Body>, rs: seq<Request>, names: seq<string>, clock: seq<Utc>,
                     files: seq<File>, all: seq<File>)
    requires |names| == |clock| == |rs| && FilesOf(store, rs, names, clock, files)
    ensures Streams(store, rs, names, clock, all) ==>
              && (forall i | 0 <= i < |rs| :: FileOf(store, rs[i], names[i], clock[i]).Some?)
              && |Locals(files)| <= ZIP32_MAX
              && (|files| == |rs| ==> Fits(files))
  {
    if Streams(store, rs, names, clock, all) {
      forall i | 0 <= i < |rs| ensures FileOf(store, rs[i], names[i], clock[i]).Some? {
        assert FileOf(store, rs[i], names[i], clock[i]) == Some(all[i]);
      }
      FilesAreUnique(store, rs, names, clock, files, all);
      LocalsPrefix(all, |files|);
      assert all[..|all|] == all;
    }
  }

  // When one of these needs is not met, nothing can be streamed.
  lemma CannotStream(store: map<string, Body>, rs: seq<Request>, names: seq<string>, clock: seq<Utc>,
                     files: seq<File>, i: nat)
    requires |names| == |clock| == |rs| && FilesOf(store, rs, names, clock, files)
    requires || (i < |rs| && FileOf(store, rs[i], names[i], clock[i]) == None)
             || |Locals(files)| > ZIP32_MAX
             || (|files| == |rs| && !Fits(files))
    ensures forall all :: !Streams(store, rs, names, clock, all)
  {
    forall all ensures !Streams(store, rs, names, clock, all) {
      StreamsNeeds(store, rs, names, clock, files, all);
    }
  }

  // What the local part has produced after some entries.
  ghost predicate Produced(store: map<string, Body>, rs: seq<Request>, names: seq<string>, clock: seq<Utc>,
                           files: seq<File>, records: seq<Central>, bytes: Bytes)
    requires |names| == |clock| == |rs|
  {
    FilesOf(store, rs, names, clock, files) && Recorded(files, records) && bytes == Locals(files)
  }

  lemma FilesAppend(store: map<string, Body>, rs: seq<Request>, names: seq<string>, clock: seq<Utc>,
                    files: seq<File>, f: File)
    requires |names| == |clock| == |rs| && FilesOf(store, rs, names, clock, files)
    requires |files| < |rs| && FileOf(store, rs[|files|], names[|files|], clock[|files|]) == Some(f)
    ensures FilesOf(store, rs, names, clock, files + [f])
  {
  }

  lemma ProducedAppend(store: map<string, Body>, rs: seq<Request>, names: seq<string>, clock: seq<Utc>,
                       files: seq<File>, records: seq<Central>, bytes: Bytes, f: File, record: Central)
    requires |names| == |clock| == |rs| && Produced(store, rs, names, clock, files, records, bytes)
    requires |files| < |rs| && FileOf(store, rs[|files|], names[|files|], clock[|files|]) == Some(f)
    requires record == Central(f.name, f.crc, |f.content|, |bytes|, f.stamp)
    ensures Produced(store, rs, names, clock, files + [f], records + [record], bytes + LocalRecord(f))
  {
    FilesAppend(store, rs, names, clock, files, f);
    assert Locals(files + [f]) == Locals(files) + LocalRecord(f) by {
      LocalsAppend(files, f);
    }
    RecordedAppend(files, records, f);
  }

  // The local part of the archive.
  method StreamLocals(store: map<string, Body>, rs: seq<Request>, names: seq<string>, clock: seq<Utc>)
    returns (out: seq<Bytes>, records: seq<Central>, ghost files: seq<File>, ok: bool)
    requires |names| == |clock| == |rs|
    ensures ok ==> |files| == |rs| && |Locals(files)| <= ZIP32_MAX
                   && Produced(store, rs, names, clock, files, records, Flatten(out))
    ensures !ok ==> forall all :: !Streams(store, rs, names, clock, all)
  {
    out, records, files := [], [], [];
    var offset := 0;
    for i := 0 to |rs|
      invariant |files| == i && Produced(store, rs, names, clock, files, records, Flatten(out))
      invariant offset == |Flatten(out)| <= ZIP32_MAX
    {
      var part, record := StreamEntry(store, rs[i], names[i], clock[i], offset);
      if record == None {
        CannotStream(store, rs, names, clock, files, i);
        return out + part, records, files, false;
      }
      ghost var f := FileOf(store, rs[i], names[i], clock[i]).value;
      ProducedAppend(store, rs, names, clock, files, records, Flatten(out), f, record.value);
      FlattenConcat(out, part);
      files := files + [f];
      out := out + part;
      records := records + [record.value];
      offset := offset + |Flatten(part)|;
      if offset > ZIP32_MAX {
        CannotStream(store, rs, names, clock, files, i);
        return out, records, files, false;
      }
    }
    ok := true;
  }

  lemma RecordIsEntry(files: seq<File>, records: seq<Central>, i: nat)
    requires |Locals(files)| <= ZIP32_MAX && Recorded(files, records) && i < |files|
    ensures var r := records[i];
      && |r.name| < 0x1_0000 && r.size <= ZIP32_MAX && r.localOffset <= ZIP32_MAX
      && Pack(CentralOf(|r.name|, r.crc, r.size, r.localOffset, r.stamp)) + r.name
         == Entries(LocalRecord, CentralRecord, files)[i]
  {
    var f, r, offset := files[i], records[i], OffsetOf(LocalRecord, files, i);
    assert r == Central(f.name, f.crc, |f.content|, offset, f.stamp);
    assert Entries(LocalRecord, CentralRecord, files)[i] == CentralRecord(f, offset);
    assert CentralRecord(f, offset) == Pack(CentralOf(|f.name|, f.crc, |f.content|, offset, f.stamp)) + f.name;
  }

  // The directory, one entry a record.
  method StreamDirectory(records: seq<Central>, ghost files: seq<File>) returns (out: seq<Bytes>)
    requires |Locals(files)| <= ZIP32_MAX && Recorded(files, records)
    ensures Flatten(out) == ZipFormat.Central(files)
  {
    out := [];
    ghost var entries := Entries(LocalRecord, CentralRecord, files);
    for i := 0 to |records|
      invariant out == entries[..i]
    {
      var r := records[i];
      RecordIsEntry(files, records, i);
      out := out + [Pack(CentralOf(|r.name|, r.crc, r.size, r.localOffset, r.stamp)) + r.name];
    }
    assert entries[..|records|] == entries;
  }

  function FileNames(entries: seq<Request>): (names: seq<string>)
    ensures |names| == |entries|
  {
    seq(|entries|, i requires 0 <= i < |entries| => entries[i].fileName)
  }

  lemma ArchiveIs(files: seq<File>, end: Bytes)
    requires Fits(files) && end == Pack(EndOf(|files|, |ZipFormat.Central(files)|, |Locals(files)|))
    ensures Archive(files) == Locals(files) + ZipFormat.Central(files) + end
  {
  }

  // The directory and the end record, after the local part.
  method StreamEnd(locals: seq<Bytes>, records: seq<Central>, ghost files: seq<File>)
    returns (chunks: seq<Bytes>, raised: bool)
    requires Flatten(locals) == Locals(files) && |Locals(files)| <= ZIP32_MAX && Recorded(files, records)
    ensures raised <==> !Fits(files)
    ensures !raised ==> Flatten(chunks) == Archive(files)
  {
    var centralOffset := |Flatten(locals)|;
    var directory := StreamDirectory(records, files);
    FlattenConcat(locals, directory);
    chunks := locals + directory;
    var centralSize := |Flatten(chunks)| - centralOffset;
    raised := |records| >= 0x1_0000 || centralSize > ZIP32_MAX;
    if !raised {
      var end := Pack(EndOf(|records|, centralSize, centralOffset));
      FlattenAppend(chunks, end);
      chunks := chunks + [end];
      ArchiveIs(files, end);
    }
  }

  lemma ExtractsListing(b: Bytes, files: seq<File>, names: seq<string>)
    requires Read(b) == Some(files) && |names| == |files|
    requires forall i | 0 <= i < |files| :: files[i].name == Utf8.Encode(names[i])
    ensures Extract(b) == Some(Listing(names, files))
  {
    DecodesAll(files, names);
  }

  lemma StreamedFile(store: map<string, Body>, r: Request, name: string, now: Utc, f: File)
    requires FileOf(store, r, name, now) == Some(f)
    ensures r.objectKey in store && f.content == Flatten(store[r.objectKey])
    ensures f.name == Utf8.Encode(name) && f.crc == Crc(f.content, 0)
  {
  }

  // The names and contents that were asked for.
  ghost function Requested(store: map<string, Body>, entries: seq<Request>, names: seq<string>): seq<(string, Bytes)>
    requires |names| == |entries| && forall i | 0 <= i < |entries| :: entries[i].objectKey in store
  {
    seq(|entries|, i requires 0 <= i < |entries| => (names[i], Flatten(store[entries[i].objectKey])))
  }

  // Whatever the stream writes without raising, a reader extracts exactly the
  // requested files from it: each under its unique name, in order, with the
  // object's content.
  lemma StreamedArchiveReadsBack(store: map<string, Body>, entries: seq<Request>, names: seq<string>,
                                 clock: seq<Utc>, files: seq<File>)
    requires |names| == |clock| == |entries| && Streams(store, entries, names, clock, files)
    ensures forall i | 0 <= i < |entries| :: entries[i].objectKey in store
    ensures Extract(Archive(files)) == Some(Requested(store, entries, names))
  {
    forall i | 0 <= i < |entries|
      ensures entries[i].objectKey in store && files[i].crc == Crc(files[i].content, 0)
      ensures files[i].name == Utf8.Encode(names[i]) && files[i].content == Flatten(store[entries[i].objectKey])
    {
      StreamedFile(store, entries[i], names[i], clock[i], files[i]);
    }
    assert Listing(names, files) == Requested(store, entries, names);
    RoundTrip(files);
    ExtractsListing(Archive(files), files, names);
  }

  // ----- when entries can be streamed -----

  function Total(sizes: seq<nat>): nat {
    if sizes == [] then 0 else Total(sizes[..|sizes| - 1]) + sizes[|sizes| - 1]
  }

  function NameSizes(names: seq<string>): (sizes: seq<nat>)
    ensures |sizes| == |names|
  {
    seq(|names|, i requires 0 <= i < |names| => |Utf8.Encode(names[i])|)
  }

  function ContentSizes(store: map<string, Body>, rs: seq<Request>): (sizes: seq<nat>)
    ensures |sizes| == |rs|
  {
    seq(|rs|, i requires 0 <= i < |rs| =>
      if rs[i].objectKey in store then |Flatten(store[rs[i].objectKey])| else 0)
  }

  // Every object is there, every name and object fits its field, and so do the
  // number of entries and the sizes of both parts: 46 bytes for each file beside
  // its name and content, and 46 for each directory entry beside its name.
  predicate Fitting(store: map<string, Body>, rs: seq<Request>, names: seq<string>)
    requires |names| == |rs|
  {
    && |rs| <= 0xFFFF
    && (forall i | 0 <= i < |rs| :: rs[i].objectKey in store)
    && (forall i | 0 <= i < |rs| :: ContentSizes(store, rs)[i] <= 0xFFFF_FFFF)
    && (forall i | 0 <= i < |rs| :: NameSizes(names)[i] <= 0xFFFF)
    && 46 * |rs| + Total(NameSizes(names)) + Total(ContentSizes(store, rs)) <= 0xFFFF_FFFF
    && 46 * |rs| + Total(NameSizes(names)) <= 0xFFFF_FFFF
  }

  function NamesOf(files: seq<File>): (sizes: seq<nat>)
    ensures |sizes| == |files|
  {
    seq(|files|, i requires 0 <= i < |files| => |files[i].name|)
  }

  function ContentsOf(files: seq<File>): (sizes: seq<nat>)
    ensures |sizes| == |files|
  {
    seq(|files|, i requires 0 <= i < |files| => |files[i].content|)
  }

  lemma {:induction false} LocalsSize(files: seq<File>)
    ensures |Locals(files)| == 46 * |files| + Total(NamesOf(files)) + Total(ContentsOf(files))
  {
    if files != [] {
      var n := |files| - 1;
      var init, f := files[..n], files[n];
      LocalsSize(init);
      LocalsAppend(init, f);
      LocalSize(f);
      assert files == init + [f];
      assert NamesOf(files)[..n] == NamesOf(init) && ContentsOf(files)[..n] == ContentsOf(init);
    }
  }

  lemma DirectoryStep(files: seq<File>, n: nat)
    requires |Locals(files)| <= ZIP32_MAX && n < |files|
    ensures var entries := Entries(LocalRecord, CentralRecord, files);
      |Flatten(entries[..n + 1])| == |Flatten(entries[..n])| + 46 + |files[n].name|
  {
    var entries := Entries(LocalRecord, CentralRecord, files);
    assert entries[..n + 1] == entries[..n] + [entries[n]];
    FlattenAppend(entries[..n], entries[n]);
    CentralSize(files[n], OffsetOf(LocalRecord, files, n));
  }

  lemma {:induction false} DirectorySize(files: seq<File>, n: nat)
    requires |Locals(files)| <= ZIP32_MAX && n <= |files|
    ensures |Flatten(Entries(LocalRecord, CentralRecord, files)[..n])| == 46 * n + Total(NamesOf(files)[..n])
  {
    if n > 0 {
      DirectorySize(files, n - 1);
      DirectoryStep(files, n - 1);
      assert NamesOf(files)[..n][..n - 1] == NamesOf(files)[..n - 1];
    }
  }

  lemma FileSizes(store: map<string, Body>, rs: seq<Request>, names: seq<string>, clock: seq<Utc>, files: seq<File>)
    requires |names| == |clock| == |rs| == |files| && FilesOf(store, rs, names, clock, files)
    ensures NamesOf(files) == NameSizes(names) && ContentsOf(files) == ContentSizes(store, rs)
    ensures forall i | 0 <= i < |rs| :: rs[i].objectKey in store
  {
    forall i | 0 <= i < |rs|
      ensures NamesOf(files)[i] == NameSizes(names)[i] && rs[i].objectKey in store
      ensures ContentsOf(files)[i] == ContentSizes(store, rs)[i]
    {
      assert FileOf(store, rs[i], names[i], clock[i]) == Some(files[i]);
    }
  }

  lemma FitsExactly(store: map<string, Body>, rs: seq<Request>, names: seq<string>, clock: seq<Utc>, files: seq<File>)
    requires |names| == |clock| == |rs| == |files| && FilesOf(store, rs, names, clock, files)
    ensures Fits(files) <==> Fitting(store, rs, names)
  {
    FileSizes(store, rs, names, clock, files);
    LocalsSize(files);
    forall i | 0 <= i < |rs| ensures NamesOf(files)[i] <= 0xFFFF && ContentsOf(files)[i] <= 0xFFFF_FFFF {
      assert FileFits(files[i]);
    }
    if |Locals(files)| <= ZIP32_MAX {
      DirectorySize(files, |files|);
      var entries := Entries(LocalRecord, CentralRecord, files);
      assert entries[..|files|] == entries && NamesOf(files)[..|files|] == NamesOf(files);
    }
  }

  // Some files can be streamed for the entries exactly when they fit.
  lemma StreamsExactly(store: map<string, Body>, rs: seq<Request>, names: seq<string>, clock: seq<Utc>)
    requires |names| == |clock| == |rs|
    ensures (exists files :: Streams(store, rs, names, clock, files)) <==> Fitting(store, rs, names)
  {
    if Fitting(store, rs, names) {
      forall i | 0 <= i < |rs| ensures FileOf(store, rs[i], names[i], clock[i]).Some? {
        assert ContentSizes(store, rs)[i] <= 0xFFFF_FFFF && NameSizes(names)[i] <= 0xFFFF;
      }
      var files: seq<File> := seq(|rs|, i requires 0 <= i < |rs| => FileOf(store, rs[i], names[i], clock[i]).value);
      FitsExactly(store, rs, names, clock, files);
      assert Streams(store, rs, names, clock, files);
    }
    if files :| Streams(store, rs, names, clock, files) {
      FitsExactly(store, rs, names, clock, files);
    }
  }

  // What the generator promises. It raises exactly when some entry has no
  // object, or some field does not fit; otherwise its chunks are the archive of
  // the files, from which a reader extracts what was asked for, under names that
  // are unique, clean and taken from the files' own.
  ghost predicate Delivers(fold: char -> string, store: map<string, Body>, entries: seq<Request>, clock: seq<Utc>,
                           names: seq<string>, chunks: seq<Bytes>, raised: bool)
    requires |names| == |clock| == |entries|
  {
    && Unique(fold, BaseNames(FileNames(entries)), names)
    && NamedAfterFiles(fold, FileNames(entries), names)
    && (forall i | 0 <= i < |names| :: Clean(names[i]))
    && (raised <==> !Fitting(store, entries, names))
    && (!raised ==>
          && (exists files :: Streams(store, entries, names, clock, files) && Flatten(chunks) == Archive(files))
          && (forall i | 0 <= i < |entries| :: entries[i].objectKey in store)
          && Extract(Flatten(chunks)) == Some(Requested(store, entries, names)))
  }

  // The generator: the chunks it yields, and whether it raised.
  method StreamPhotoZip(fold: char -> string, store: map<string, Body>, entries: seq<Request>, clock: seq<Utc>)
    returns (chunks: seq<Bytes>, raised: bool)
    requires FoldTable(fold) && |clock| == |entries|
    ensures exists names :: |names| == |entries| && Delivers(fold, store, entries, clock, names, chunks, raised)
  {
    var names := UniqueDownloadNames(fold, FileNames(entries));
    forall i | 0 <= i < |names| ensures Clean(names[i]) {
      ArchiveNamesAreClean(fold, FileNames(entries), names, i);
    }
    UniqueIsNamedAfterFiles(fold, FileNames(entries), names);
    var locals, records, files, ok := StreamLocals(store, entries, names, clock);
    chunks, raised := locals, true;
    if ok {
      chunks, raised := StreamEnd(locals, records, files);
      if raised {
        CannotStream(store, entries, names, clock, files, 0);
      } else {
        assert Streams(store, entries, names, clock, files);
        StreamedArchiveReadsBack(store, entries, names, clock, files);
      }
    }
    StreamsExactly(store, entries, names, clock);
    assert Delivers(fold, store, entries, clock, names, chunks, raised);
  }
}
