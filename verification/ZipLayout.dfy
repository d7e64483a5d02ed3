// How an archive is laid out, whatever the records are: the local records of
// all files, then one directory entry for each, which holds the offset of the
// file's local record.
module ZipLayout {
  import opened Common
  import opened Bytes

  const ZIP32_MAX: nat := 0xFFFF_FFFF

  function Pieces<F>(local: F -> Bytes, files: seq<F>): (pieces: seq<Bytes>)
    ensures |pieces| == |files|
  {
    seq(|files|, i requires 0 <= i < |files| => local(files[i]))
  }

  // Where the local record of file i starts.
  function OffsetOf<F>(local: F -> Bytes, files: seq<F>, i: nat): (offset: nat)
    requires i <= |files|
    ensures offset <= |Flatten(Pieces(local, files))|
  {
    var pieces := Pieces(local, files);
    FlattenConcat(pieces[..i], pieces[i..]);
    assert pieces[..i] + pieces[i..] == pieces;
    |Flatten(pieces[..i])|
  }

  function Entries<F>(local: F -> Bytes, central: (F, uint32) -> Bytes, files: seq<F>): (entries: seq<Bytes>)
    requires |Flatten(Pieces(local, files))| <= ZIP32_MAX
    ensures |entries| == |files|
  {
    seq(|files|, i requires 0 <= i < |files| => central(files[i], OffsetOf(local, files, i)))
  }

  // `count` directory entries from position i on; they must end at `end`.
  function ReadDirectory<F>(step: (Bytes, nat) -> Option<(F, nat)>, b: Bytes, i: nat, end: nat, count: nat)
    : Option<seq<F>>
    decreases count
  {
    if count == 0 then (if i == end then Some([]) else None)
    else
      match step(b, i)
      case None => None
      case Some((file, next)) =>
        match ReadDirectory(step, b, next, end, count - 1)
        case None => None
        case Some(rest) => Some([file] + rest)
  }

  // `step` reads back one file from its entry and its local record.
  ghost predicate InvertsAt<F>(local: F -> Bytes, central: (F, uint32) -> Bytes,
                               step: (Bytes, nat) -> Option<(F, nat)>, b: Bytes, i: nat, offset: uint32, f: F) {
    At(b, i, central(f, offset)) && At(b, offset, local(f)) ==>
      step(b, i) == Some((f, i + |central(f, offset)|))
  }

  ghost predicate Inverts<F(!new)>(local: F -> Bytes, central: (F, uint32) -> Bytes,
                                   step: (Bytes, nat) -> Option<(F, nat)>) {
    forall b: Bytes, i: nat, offset: uint32, f: F :: InvertsAt(local, central, step, b, i, offset, f)
  }

  // Entry i, in a directory at `base`, is read as file i and leads to entry i + 1.
  ghost predicate Reads<F>(step: (Bytes, nat) -> Option<(F, nat)>, b: Bytes, files: seq<F>, base: nat,
                           entries: seq<Bytes>, i: nat)
    requires i < |files| == |entries|
  {
    step(b, base + |Flatten(entries[..i])|) == Some((files[i], base + |Flatten(entries[..i + 1])|))
  }

  lemma ReadsOne<F(!new)>(local: F -> Bytes, central: (F, uint32) -> Bytes, step: (Bytes, nat) -> Option<(F, nat)>,
                          files: seq<F>, end: Bytes, i: nat)
    requires |Flatten(Pieces(local, files))| <= ZIP32_MAX && i < |files| && Inverts(local, central, step)
    ensures var locals, entries := Flatten(Pieces(local, files)), Entries(local, central, files);
      Reads(step, locals + Flatten(entries) + end, files, |locals|, entries, i)
  {
    var pieces, entries := Pieces(local, files), Entries(local, central, files);
    PieceAtFront(pieces, Flatten(entries), end, i);
    PieceAt(Flatten(pieces), entries, end, i);
    assert InvertsAt(local, central, step, Flatten(pieces) + Flatten(entries) + end,
                     |Flatten(pieces)| + |Flatten(entries[..i])|, OffsetOf(local, files, i), files[i]);
  }

  lemma {:induction false} ReadsAll<F>(step: (Bytes, nat) -> Option<(F, nat)>, b: Bytes, files: seq<F>, at: seq<nat>)
    requires |at| == |files| + 1
    requires forall i | 0 <= i < |files| :: step(b, at[i]) == Some((files[i], at[i + 1]))
    ensures ReadDirectory(step, b, at[0], at[|files|], |files|) == Some(files)
  {
    if files != [] {
      ReadsAll(step, b, files[1..], at[1..]);
      assert files == [files[0]] + files[1..];
    }
  }

  lemma ReadsRun<F>(step: (Bytes, nat) -> Option<(F, nat)>, b: Bytes, files: seq<F>, base: nat, entries: seq<Bytes>)
    requires |entries| == |files| && forall i | 0 <= i < |files| :: Reads(step, b, files, base, entries, i)
    ensures ReadDirectory(step, b, base, base + |Flatten(entries)|, |files|) == Some(files)
  {
    var at := seq(|files| + 1, i requires 0 <= i <= |files| => base + |Flatten(entries[..i])|);
    forall i | 0 <= i < |files| ensures step(b, at[i]) == Some((files[i], at[i + 1])) {
      assert Reads(step, b, files, base, entries, i);
    }
    ReadsAll(step, b, files, at);
    assert entries[..|files|] == entries;
  }

  // The directory of the layout is read back in full.
  lemma ReadsBody<F(!new)>(local: F -> Bytes, central: (F, uint32) -> Bytes,
                           step: (Bytes, nat) -> Option<(F, nat)>, files: seq<F>, end: Bytes)
    requires |Flatten(Pieces(local, files))| <= ZIP32_MAX && Inverts(local, central, step)
    ensures var locals, entries := Flatten(Pieces(local, files)), Flatten(Entries(local, central, files));
      ReadDirectory(step, locals + entries + end, |locals|, |locals + entries|, |files|) == Some(files)
  {
    var locals, entries := Flatten(Pieces(local, files)), Entries(local, central, files);
    forall i | 0 <= i < |files| ensures Reads(step, locals + Flatten(entries) + end, files, |locals|, entries, i) {
      ReadsOne(local, central, step, files, end, i);
    }
    ReadsRun(step, locals + Flatten(entries) + end, files, |locals|, entries);
  }
}
