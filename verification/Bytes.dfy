// Byte strings: little-endian integers, positions inside a byte string, CRC-32
// and UTF-8.
module Bytes {
  import opened Common

  type byte = x: int | 0 <= x < 256

  type Bytes = seq<byte>

  function Flatten(chunks: seq<Bytes>): Bytes {
    if chunks == [] then [] else Flatten(chunks[..|chunks| - 1]) + chunks[|chunks| - 1]
  }

  lemma FlattenAppend(chunks: seq<Bytes>, chunk: Bytes)
    ensures Flatten(chunks + [chunk]) == Flatten(chunks) + chunk
  {
    assert (chunks + [chunk])[..|chunks|] == chunks;
  }

  lemma {:induction false} FlattenConcat(x: seq<Bytes>, y: seq<Bytes>)
    ensures Flatten(x + y) == Flatten(x) + Flatten(y)
  {
    if y == [] {
      assert x + y == x;
    } else {
      var init := y[..|y| - 1];
      assert (x + y)[..|x + y| - 1] == x + init;
      FlattenConcat(x, init);
    }
  }

  // ----- positions -----

  // `piece` stands at position i of b.
  predicate At(b: Bytes, i: nat, piece: Bytes) {
    i + |piece| <= |b| && b[i..i + |piece|] == piece
  }

  lemma AtSplit(b: Bytes, i: nat, x: Bytes, y: Bytes)
    requires At(b, i, x + y)
    ensures At(b, i, x) && At(b, i + |x|, y)
  {
    assert b[i..i + |x|] == b[i..i + |x + y|][..|x|];
    assert b[i + |x|..i + |x| + |y|] == b[i..i + |x + y|][|x|..];
  }

  lemma AtWiden(before: Bytes, b: Bytes, after: Bytes, i: nat, piece: Bytes)
    requires At(b, i, piece)
    ensures At(before + b + after, |before| + i, piece)
  {
    assert (before + b + after)[|before| + i..|before| + i + |piece|] == b[i..i + |piece|];
  }

  lemma AtEnd(front: Bytes, piece: Bytes)
    ensures At(front + piece, |front|, piece)
  {
  }

  lemma {:induction false} FlattenAt(pieces: seq<Bytes>, i: nat)
    requires i < |pieces|
    ensures At(Flatten(pieces), |Flatten(pieces[..i])|, pieces[i])
  {
    var init, last := pieces[..|pieces| - 1], pieces[|pieces| - 1];
    if i < |init| {
      FlattenAt(init, i);
      assert init[..i] == pieces[..i];
      AtWiden([], Flatten(init), last, |Flatten(pieces[..i])|, pieces[i]);
      assert [] + Flatten(init) + last == Flatten(pieces);
    }
  }

  // The same with bytes around the pieces, and where the next piece starts.
  lemma PieceAt(before: Bytes, pieces: seq<Bytes>, after: Bytes, i: nat)
    requires i < |pieces|
    ensures At(before + Flatten(pieces) + after, |before| + |Flatten(pieces[..i])|, pieces[i])
    ensures |Flatten(pieces[..i + 1])| == |Flatten(pieces[..i])| + |pieces[i]|
  {
    FlattenAt(pieces, i);
    AtWiden(before, Flatten(pieces), after, |Flatten(pieces[..i])|, pieces[i]);
    FlattenAppend(pieces[..i], pieces[i]);
    assert pieces[..i + 1] == pieces[..i] + [pieces[i]];
  }

  lemma PieceAtFront(pieces: seq<Bytes>, x: Bytes, y: Bytes, i: nat)
    requires i < |pieces|
    ensures At(Flatten(pieces) + x + y, |Flatten(pieces[..i])|, pieces[i])
  {
    PieceAt([], pieces, x + y, i);
    assert [] + Flatten(pieces) + (x + y) == Flatten(pieces) + x + y;
  }

  // ----- struct.pack and struct.unpack, little-endian -----

  type uint16 = x: int | 0 <= x < 0x1_0000

  type uint32 = x: int | 0 <= x < 0x1_0000_0000

  // A record: 16-bit (H) and 32-bit (I) fields in order.
  datatype Record = Done | H(h: uint16, rest: Record) | I(i: uint32, rest: Record)

  function Size(format: Record): nat {
    match format
    case Done => 0
    case H(_, rest) => 2 + Size(rest)
    case I(_, rest) => 4 + Size(rest)
  }

  // The same kinds of field in the same order.
  predicate Like(format: Record, r: Record)
    decreases format
  {
    match format
    case Done => r.Done?
    case H(_, rest) => r.H? && Like(rest, r.rest)
    case I(_, rest) => r.I? && Like(rest, r.rest)
  }

  function Le16(n: uint16): Bytes {
    [n % 256, n / 256]
  }

  function Le32(n: uint32): Bytes {
    Le16(n % 0x1_0000) + Le16(n / 0x1_0000)
  }

  function Get16(b: Bytes): uint16
    requires |b| == 2
  {
    (b[0] as int) + 256 * (b[1] as int)
  }

  function Get32(b: Bytes): uint32
    requires |b| == 4
  {
    (Get16(b[..2]) as int) + 0x1_0000 * (Get16(b[2..]) as int)
  }

  function Pack(r: Record): Bytes {
    match r
    case Done => []
    case H(n, rest) => Le16(n) + Pack(rest)
    case I(n, rest) => Le32(n) + Pack(rest)
  }

  function Unpack(format: Record, b: Bytes): Record
    requires |b| == Size(format)
    decreases format, b
  {
    match format
    case Done => Done
    case H(_, rest) => H(Get16(b[..2]), Unpack(rest, b[2..]))
    case I(_, rest) => I(Get32(b[..4]), Unpack(rest, b[4..]))
  }

  lemma Le16RoundTrip(n: uint16)
    ensures Get16(Le16(n)) == n
  {
  }

  lemma Le32RoundTrip(n: uint32)
    ensures |Le32(n)| == 4 && Get32(Le32(n)) == n
  {
    assert Le32(n)[..2] == Le16(n % 0x1_0000) && Le32(n)[2..] == Le16(n / 0x1_0000);
    Le16RoundTrip(n % 0x1_0000);
    Le16RoundTrip(n / 0x1_0000);
  }

  lemma {:induction false} PackRoundTrip(format: Record, r: Record)
    requires Like(format, r)
    ensures |Pack(r)| == Size(format) && Unpack(format, Pack(r)) == r
  {
    match r
    case Done =>
    case H(n, rest) =>
      PackRoundTrip(format.rest, rest);
      Le16RoundTrip(n);
      assert Pack(r)[..2] == Le16(n) && Pack(r)[2..] == Pack(rest);
    case I(n, rest) =>
      PackRoundTrip(format.rest, rest);
      Le32RoundTrip(n);
      assert Pack(r)[..4] == Le32(n) && Pack(r)[4..] == Pack(rest);
  }

  // The record of `format` at position i, if it is all there.
  function RecordAt(b: Bytes, i: nat, format: Record): Option<Record> {
    if i + Size(format) > |b| then None else Some(Unpack(format, b[i..i + Size(format)]))
  }

  lemma ReadsRecord(b: Bytes, i: nat, format: Record, r: Record)
    requires Like(format, r) && At(b, i, Pack(r))
    ensures RecordAt(b, i, format) == Some(r) && |Pack(r)| == Size(format)
  {
    PackRoundTrip(format, r);
  }
}

// CRC-32 as zlib computes it (reflected polynomial 0xEDB88320), on numbers
// below 2^32.
module Crc32 {
  import opened Common
  import opened Bytes

  type Word = x: int | 0 <= x < 0x1_0000_0000

  // Bitwise exclusive or of the low n bits.
  function XorBits(a: nat, b: nat, n: nat): (r: nat)
    ensures r < Pow2(n)
    decreases n, a
  {
    if n == 0 then 0
    else 2 * XorBits(a / 2, b / 2, n - 1) + (if a % 2 == b % 2 then 0 else 1)
  }

  lemma WordRange()
    ensures Pow2(32) == 0x1_0000_0000
  {
    assert Pow2(8) == 256;
    Pow2Sum(8, 8);
    Pow2Sum(16, 16);
  }

  function Xor(a: Word, b: Word): Word {
    WordRange();
    XorBits(a, b, 32)
  }

  function Complement(c: Word): Word {
    0xFFFF_FFFF - c
  }

  function Shift(c: Word): Word {
    if c % 2 == 1 then Xor(c / 2, 0xEDB8_8320) else c / 2
  }

  function Shifts(c: Word, n: nat): Word
    decreases n, c
  {
    if n == 0 then c else Shift(Shifts(c, n - 1))
  }

  function Register(c: Word, data: Bytes): Word {
    if data == [] then c
    else Shifts(Xor(Register(c, data[..|data| - 1]), data[|data| - 1]), 8)
  }

  // zlib.crc32(data, start)
  function Crc(data: Bytes, start: Word): Word {
    Complement(Register(Complement(start), data))
  }

  lemma {:induction false} RegisterConcat(c: Word, x: Bytes, y: Bytes)
    ensures Register(c, x + y) == Register(Register(c, x), y)
  {
    if y == [] {
      assert x + y == x;
    } else {
      var init := y[..|y| - 1];
      assert (x + y)[..|x + y| - 1] == x + init;
      RegisterConcat(c, x, init);
    }
  }

  // Feeding the chunks one after the other is feeding their concatenation.
  lemma CrcOfChunks(x: Bytes, y: Bytes, start: Word)
    ensures Crc(y, Crc(x, start)) == Crc(x + y, start)
  {
    RegisterConcat(Complement(start), x, y);
  }

  lemma CrcOfNothing(start: Word)
    ensures Crc([], start) == start
  {
  }
}

module Utf8 {
  import opened Common
  import opened Bytes

  function EncodeChar(c: char): Bytes {
    var n := c as int;
    if n < 0x80 then [n]
    else if n < 0x800 then [0xC0 + n / 64, 0x80 + n % 64]
    else if n < 0x1_0000 then [0xE0 + n / 4096, 0x80 + n / 64 % 64, 0x80 + n % 64]
    else [0xF0 + n / 262144, 0x80 + n / 4096 % 64, 0x80 + n / 64 % 64, 0x80 + n % 64]
  }

  function Encode(s: string): Bytes {
    if s == "" then [] else EncodeChar(s[0]) + Encode(s[1..])
  }

  // The length of the sequence a lead byte announces.
  function Width(lead: byte): nat {
    if lead < 0x80 then 1 else if lead < 0xE0 then 2 else if lead < 0xF0 then 3 else 4
  }

  function CodePoint(b: Bytes): int
    requires b != [] && |b| == Width(b[0])
  {
    var lead: int := b[0];
    if |b| == 1 then lead
    else if |b| == 2 then (lead - 0xC0) * 64 + Low6(b[1])
    else if |b| == 3 then (lead - 0xE0) * 4096 + Low6(b[1]) * 64 + Low6(b[2])
    else (lead - 0xF0) * 262144 + Low6(b[1]) * 4096 + Low6(b[2]) * 64 + Low6(b[3])
  }

  function Low6(b: byte): int {
    (b as int) - 0x80
  }

  function Decode(b: Bytes): Option<string> {
    if b == [] then Some("")
    else
      var w := Width(b[0]);
      if w > |b| then None
      else
        var n := CodePoint(b[..w]);
        if !(0 <= n < 0xD800 || 0xE000 <= n < 0x11_0000) then None
        else
          match Decode(b[w..])
          case None => None
          case Some(rest) => Some([n as char] + rest)
  }

  lemma Digits64(n: nat)
    ensures n == n / 64 * 64 + n % 64
    ensures n == n / 4096 * 4096 + n / 64 % 64 * 64 + n % 64
    ensures n == n / 262144 * 262144 + n / 4096 % 64 * 4096 + n / 64 % 64 * 64 + n % 64
  {
    assert n / 4096 == n / 64 / 64;
    assert n / 262144 == n / 4096 / 64;
  }

  lemma CharRoundTrip(c: char)
    ensures var b := EncodeChar(c); Width(b[0]) == |b| && CodePoint(b) == c as int
  {
    Digits64(c as int);
  }

  lemma {:induction false} RoundTrip(s: string)
    ensures Decode(Encode(s)) == Some(s)
  {
    if s != "" {
      var head, tail := EncodeChar(s[0]), Encode(s[1..]);
      CharRoundTrip(s[0]);
      assert (head + tail)[..|head|] == head && (head + tail)[|head|..] == tail;
      RoundTrip(s[1..]);
      assert [s[0]] + s[1..] == s;
    }
  }
}
