/**
 * The PNG gate of scripts/gen_tauri_icons_stub.py, against the chunk layout of section 5.3 and the
 * IHDR layout of section 11.2.2 of the PNG Specification, second edition.  The checksum is a
 * parameter: `zlib.crc32` is not part of this model.
 */
module PngContainer {
  import opened Wrappers
  import opened ByteCodes
  import opened Slices

  const MAGIC: seq<Byte> := [0x89, 0x50, 0x4E, 0x47, 0x0D, 0x0A, 0x1A, 0x0A]
  const IHDR: seq<Byte> := [0x49, 0x48, 0x44, 0x52]
  const IDAT: seq<Byte> := [0x49, 0x44, 0x41, 0x54]
  const IEND: seq<Byte> := [0x49, 0x45, 0x4E, 0x44]

  // ------------------------------------------------------------- chunks and encoder

  datatype Chunk = Chunk(typ: seq<Byte>, payload: seq<Byte>, crc: seq<Byte>) {
    predicate Valid() {
      |typ| == 4 && |crc| == 4 && |payload| < TWO_32
    }

    function Encode(): (s: seq<Byte>)
      requires Valid()
      ensures |s| == 12 + |payload|
    {
      BE32(|payload|) + typ + payload + crc
    }
  }

  ghost predicate AllValid(cs: seq<Chunk>) {
    forall i | 0 <= i < |cs| :: cs[i].Valid()
  }

  ghost function EncodeAll(cs: seq<Chunk>): seq<Byte>
    requires AllValid(cs)
  {
    if cs == [] then [] else cs[0].Encode() + EncodeAll(cs[1..])
  }

  /** No complete chunk starts here. */
  predicate Incomplete(s: seq<Byte>) {
    |s| < 8 || |s| < 12 + U32(s[..4])
  }

  ghost predicate IsPngFile(data: seq<Byte>, cs: seq<Chunk>, trailing: seq<Byte>) {
    AllValid(cs) && Incomplete(trailing) && data == MAGIC + (EncodeAll(cs) + trailing)
  }

  // --------------------------------------------------------------------- the walk

  datatype Scanned = Scanned(chunks: seq<Chunk>, rest: seq<Byte>)

  function Scan(s: seq<Byte>): Scanned
    decreases |s|
  {
    if Incomplete(s) then Scanned([], s)
    else
      var after := Scan(s[12 + U32(s[..4])..]);
      Scanned([FirstChunk(s)] + after.chunks, after.rest)
  }

  function Types(cs: seq<Chunk>): seq<seq<Byte>> {
    if cs == [] then [] else [cs[0].typ] + Types(cs[1..])
  }

  function FirstChunk(s: seq<Byte>): Chunk
    requires !Incomplete(s)
  {
    var length := U32(s[..4]);
    Chunk(s[4..8], s[8..8 + length], s[8 + length..12 + length])
  }

  lemma FirstChunkIsSound(s: seq<Byte>)
    requires !Incomplete(s)
    ensures FirstChunk(s).Valid() && FirstChunk(s).Encode() == s[..12 + U32(s[..4])]
  {
    WriteBack(s[..4]);
  }

  lemma EncodeCons(c: Chunk, cs: seq<Chunk>)
    requires c.Valid() && AllValid(cs)
    ensures AllValid([c] + cs) && EncodeAll([c] + cs) == c.Encode() + EncodeAll(cs)
  {
    assert ([c] + cs)[1..] == cs;
  }

  lemma NoChunks(s: seq<Byte>)
    ensures AllValid([]) && EncodeAll([]) + s == s
  {
  }

  lemma Glue(s: seq<Byte>, n: nat, a: seq<Byte>, b: seq<Byte>)
    requires n <= |s| && s[n..] == a + b
    ensures s == (s[..n] + a) + b
  {
  }

  lemma {:induction false} ScanIsSound(s: seq<Byte>)
    ensures AllValid(Scan(s).chunks) && Incomplete(Scan(s).rest)
    ensures s == EncodeAll(Scan(s).chunks) + Scan(s).rest
    decreases |s|
  {
    hide FirstChunk, U32, EncodeAll, AllValid;
    if Incomplete(s) {
      NoChunks(s);
    } else {
      var n := 12 + U32(s[..4]);
      var after := Scan(s[n..]);
      ScanIsSound(s[n..]);
      FirstChunkIsSound(s);
      EncodeCons(FirstChunk(s), after.chunks);
      Glue(s, n, EncodeAll(after.chunks), after.rest);
    }
  }

  lemma {:induction false} ScanIsComplete(cs: seq<Chunk>, trailing: seq<Byte>)
    requires AllValid(cs) && Incomplete(trailing)
    ensures Scan(EncodeAll(cs) + trailing) == Scanned(cs, trailing)
  {
    hide Incomplete;
    if cs == [] {
      NoChunks(trailing);
      ScanNothing(trailing);
    } else {
      var c, tail := cs[0], EncodeAll(cs[1..]) + trailing;
      ScanOne(c, tail);
      assert (c.Encode() + EncodeAll(cs[1..])) + trailing == c.Encode() + tail;
      ScanIsComplete(cs[1..], trailing);
      assert cs == [c] + cs[1..];
    }
  }

  lemma ScanNothing(s: seq<Byte>)
    requires Incomplete(s)
    ensures Scan(s) == Scanned([], s)
  {
  }

  lemma ScanOne(c: Chunk, tail: seq<Byte>)
    requires c.Valid()
    ensures Scan(c.Encode() + tail) == Scanned([c] + Scan(tail).chunks, Scan(tail).rest)
  {
    var s := c.Encode() + tail;
    var n := |c.payload|;
    ReadBack(n);
    assert s[..4] == BE32(n) && s[4..8] == c.typ && s[8..8 + n] == c.payload && s[8 + n..12 + n] == c.crc;
    assert s[12 + n..] == tail;
  }

  /** A file splits into chunks and a trailing rest in one way only. */
  lemma PngFileUnique(data: seq<Byte>, cs: seq<Chunk>, trailing: seq<Byte>, cs': seq<Chunk>, trailing': seq<Byte>)
    requires IsPngFile(data, cs, trailing) && IsPngFile(data, cs', trailing')
    ensures cs == cs' && trailing == trailing'
  {
    assert data[8..] == EncodeAll(cs) + trailing == EncodeAll(cs') + trailing';
    ScanIsComplete(cs, trailing);
    ScanIsComplete(cs', trailing');
  }

  /** One turn of the walk, by offset. */
  lemma TypesFrom(data: seq<Byte>, off: nat)
    requires off + 8 <= |data|
    ensures var chunkLen := U32(data[off..off + 4]);
            (Types(Scan(data[off..]).chunks)
             == if off + 12 + chunkLen > |data| then []
                else [data[off + 4..off + 8]] + Types(Scan(data[off + 12 + chunkLen..]).chunks))
  {
    hide U32;
    var s := data[off..];
    assert s[..4] == data[off..off + 4] && s[4..8] == data[off + 4..off + 8];
    if Incomplete(s) {
      ScanNothing(s);
    } else {
      var n := 12 + U32(s[..4]);
      assert s[n..] == data[off + n..];
      TypesCons(FirstChunk(s), Scan(s[n..]).chunks);
    }
  }

  lemma TypesCons(c: Chunk, cs: seq<Chunk>)
    ensures Types([c] + cs) == [c.typ] + Types(cs)
  {
    assert ([c] + cs)[1..] == cs;
  }

  /** `_png_chunk_types`. */
  method PngChunkTypes(data: seq<Byte>) returns (types: seq<seq<Byte>>)
    ensures types == if |data| >= 8 then Types(Scan(data[8..]).chunks) else []
  {
    hide Scan, Types, U32;
    types := [];
    if |data| < 8 {
      return;
    }
    var off := 8;
    ghost var all := Types(Scan(data[8..]).chunks);
    while off + 8 <= |data|
      invariant 8 <= off <= |data|
      invariant types + Types(Scan(data[off..]).chunks) == all
      decreases |data| - off
    {
      TypesFrom(data, off);
      var chunkLen := U32(data[off..off + 4]);
      if off + 12 + chunkLen > |data| {
        break;
      }
      types := types + [data[off + 4..off + 8]];
      off := off + (12 + chunkLen);
    }
    if off + 8 > |data| {
      NothingLeft(data[off..]);
    }
  }

  lemma NothingLeft(s: seq<Byte>)
    requires |s| < 8
    ensures Types(Scan(s).chunks) == []
  {
  }

  // ---------------------------------------------------------------- the validator

  datatype Problem =
    | NotPng
    | TooSmall(size: nat)
    | FirstNotIhdr
    | IhdrLength(length: int)
    | ZeroDimension
    | WrongDimensions(width: int, height: int)
    | NotRgba8
    | CompressionOrFilter
    | Interlaced
    | IhdrCrcMismatch
    | NoIdat
    | NoIendLast

  /** `_png_container_problems`: the first problem found, or None. */
  method ContainerProblem(data: seq<Byte>, expected: Option<(int, int)>, crc32: seq<Byte> -> int)
    returns (problem: Option<Problem>)
    ensures problem == PngProblem(data, expected, crc32)
  {
    hide Scan, Types;
    if !(MAGIC <= data) {
      return Some(NotPng);
    }
    if |data| < 33 {
      return Some(TooSmall(|data|));
    }
    problem := HeaderProblem(data, expected, crc32);
    if problem.Some? {
      return;
    }
    var chunkTypes := PngChunkTypes(data);
    if IDAT !in chunkTypes {
      return Some(NoIdat);
    }
    if chunkTypes[|chunkTypes| - 1] != IEND {
      return Some(NoIendLast);
    }
  }

  /** The checks on the fixed header bytes 8 to 32. */
  function HeaderProblem(data: seq<Byte>, expected: Option<(int, int)>, crc32: seq<Byte> -> int): Option<Problem>
    requires |data| >= 33
  {
    var (width, height) := (U32(data[16..20]), U32(data[20..24]));
    if data[12..16] != IHDR then Some(FirstNotIhdr)
    else if U32(data[8..12]) != 13 then Some(IhdrLength(U32(data[8..12])))
    else if width == 0 || height == 0 then Some(ZeroDimension)
    else if expected.Some? && (width, height) != expected.value then Some(WrongDimensions(width, height))
    else if data[24] != 8 || data[25] != 6 then Some(NotRgba8)
    else if data[26] != 0 || data[27] != 0 then Some(CompressionOrFilter)
    else if data[28] != 0 then Some(Interlaced)
    else if U32(data[29..33]) != crc32(data[12..29]) then Some(IhdrCrcMismatch)
    else None
  }

  function PngProblem(data: seq<Byte>, expected: Option<(int, int)>, crc32: seq<Byte> -> int): Option<Problem> {
    if !(MAGIC <= data) then Some(NotPng)
    else if |data| < 33 then Some(TooSmall(|data|))
    else if HeaderProblem(data, expected, crc32).Some? then HeaderProblem(data, expected, crc32)
    else
      var types := Types(Scan(data[8..]).chunks);
      if IDAT !in types then Some(NoIdat)
      else if types[|types| - 1] != IEND then Some(NoIendLast)
      else None
  }

  // ------------------------------------------------------------------ main result

  /** The header chunk `tauri icon` emits: 8-bit RGBA, not interlaced, of the expected size. */
  ghost predicate IsHeader(c: Chunk, expected: Option<(int, int)>, crc32: seq<Byte> -> int) {
    && c.Valid() && c.typ == IHDR && |c.payload| == 13
    && var (width, height) := (U32(c.payload[..4]), U32(c.payload[4..8]));
    && width > 0 && height > 0 && (expected.Some? ==> (width, height) == expected.value)
    && c.payload[8..] == [8, 6, 0, 0, 0]
    && U32(c.crc) == crc32(c.typ + c.payload)
  }

  /** IHDR first, IEND last, an IDAT strictly between. */
  ghost predicate WellFormed(cs: seq<Chunk>, expected: Option<(int, int)>, crc32: seq<Byte> -> int) {
    && |cs| >= 3 && IsHeader(cs[0], expected, crc32) && cs[|cs| - 1].typ == IEND
    && exists i :: 0 < i < |cs| - 1 && cs[i].typ == IDAT
  }

  lemma {:induction false} TypesAt(cs: seq<Chunk>)
    ensures |Types(cs)| == |cs| && forall i | 0 <= i < |cs| :: Types(cs)[i] == cs[i].typ
  {
    if cs != [] {
      TypesAt(cs[1..]);
    }
  }

  /** Reading the fixed offsets is reading the first chunk. */
  lemma HeaderIsFirstChunk(data: seq<Byte>, expected: Option<(int, int)>, crc32: seq<Byte> -> int)
    requires |data| >= 33 && data[12..16] == IHDR && U32(data[8..12]) == 13
    ensures var cs := Scan(data[8..]).chunks;
            cs != [] && (HeaderProblem(data, expected, crc32).None? <==> IsHeader(cs[0], expected, crc32))
  {
    var s := data[8..];
    assert s == data[8..|data|] && s[..4] == data[8..12];
    assert Scan(s).chunks[0] == FirstChunk(s);
    var c := Chunk(s[4..8], s[8..21], s[21..25]);
    assert FirstChunk(s) == c;
    SliceOfSlice(data, 8, |data|, 8, 21);
    SliceOfSlice(data, 8, |data|, 21, 25);
    SliceOfSlice(data, 16, 29, 0, 4);
    SliceOfSlice(data, 16, 29, 4, 8);
    assert c.payload == data[16..29] && c.crc == data[29..33];
    assert c.payload[8..] == [data[24], data[25], data[26], data[27], data[28]];
    assert c.typ == data[12..16] && c.typ + c.payload == data[12..29];
  }

  /** The last two checks, on the types alone. */
  lemma TypesDecideLayout(cs: seq<Chunk>)
    requires cs != [] && cs[0].typ == IHDR
    ensures IDAT in Types(cs) && Types(cs)[|Types(cs)| - 1] == IEND
       <==> |cs| >= 3 && cs[|cs| - 1].typ == IEND && exists i :: 0 < i < |cs| - 1 && cs[i].typ == IDAT
  {
    TypesAt(cs);
    assert IHDR[1] != IDAT[1] && IDAT[1] != IEND[1];
    if IDAT in Types(cs) && Types(cs)[|Types(cs)| - 1] == IEND {
      var i :| 0 <= i < |cs| && Types(cs)[i] == IDAT;
      assert cs[i].typ == IDAT;
    }
    if i :| 0 < i < |cs| - 1 && cs[i].typ == IDAT {
      assert Types(cs)[i] == IDAT;
    }
  }

  lemma ChecksDecideLayout(data: seq<Byte>, expected: Option<(int, int)>, crc32: seq<Byte> -> int)
    requires MAGIC <= data
    ensures PngProblem(data, expected, crc32) == None <==> WellFormed(Scan(data[8..]).chunks, expected, crc32)
  {
    hide IsHeader, Scan, Types;
    var cs := Scan(data[8..]).chunks;
    if cs != [] && IsHeader(cs[0], expected, crc32) {
      FirstChunkBytes(data, expected, crc32);
      HeaderIsFirstChunk(data, expected, crc32);
      HeaderTyp(cs[0], expected, crc32);
      TypesDecideLayout(cs);
    } else if |data| >= 33 && data[12..16] == IHDR && U32(data[8..12]) == 13 {
      HeaderIsFirstChunk(data, expected, crc32);
    }
  }

  lemma HeaderTyp(c: Chunk, expected: Option<(int, int)>, crc32: seq<Byte> -> int)
    requires IsHeader(c, expected, crc32)
    ensures c.typ == IHDR
  {
  }

  lemma FirstChunkBytes(data: seq<Byte>, expected: Option<(int, int)>, crc32: seq<Byte> -> int)
    requires MAGIC <= data && Scan(data[8..]).chunks != [] && IsHeader(Scan(data[8..]).chunks[0], expected, crc32)
    ensures |data| >= 33 && data[12..16] == IHDR && U32(data[8..12]) == 13
  {
    var s := data[8..];
    assert s[..4] == data[8..12] && s[4..8] == data[12..16];
  }

  /** A file passes exactly when it is the magic, a chunk list with IHDR first, an IDAT strictly
      between and IEND last, and then bytes that hold no further complete chunk. */
  lemma AcceptedExactlyWellFormed(data: seq<Byte>, expected: Option<(int, int)>, crc32: seq<Byte> -> int)
    ensures PngProblem(data, expected, crc32) == None
       <==> exists cs, trailing :: IsPngFile(data, cs, trailing) && WellFormed(cs, expected, crc32)
  {
    hide WellFormed;
    if PngProblem(data, expected, crc32) == None {
      ScanIsSound(data[8..]);
      ChecksDecideLayout(data, expected, crc32);
      assert data == MAGIC + data[8..];
      assert IsPngFile(data, Scan(data[8..]).chunks, Scan(data[8..]).rest);
    }
    forall cs, trailing | IsPngFile(data, cs, trailing) && WellFormed(cs, expected, crc32)
      ensures PngProblem(data, expected, crc32) == None
    {
      assert data[8..] == EncodeAll(cs) + trailing;
      ScanIsComplete(cs, trailing);
      ChecksDecideLayout(data, expected, crc32);
    }
  }

  /** The first fault of a complete header chunk, in the chunk's own terms. */
  ghost function HeaderFault(c: Chunk, expected: Option<(int, int)>, crc32: seq<Byte> -> int): Option<Problem>
    requires c.Valid() && |c.payload| == 13
  {
    var (width, height) := (U32(c.payload[..4]), U32(c.payload[4..8]));
    if width == 0 || height == 0 then Some(ZeroDimension)
    else if expected.Some? && (width, height) != expected.value then Some(WrongDimensions(width, height))
    else if c.payload[8..10] != [8, 6] then Some(NotRgba8)
    else if c.payload[10..12] != [0, 0] then Some(CompressionOrFilter)
    else if c.payload[12] != 0 then Some(Interlaced)
    else if U32(c.crc) != crc32(c.typ + c.payload) then Some(IhdrCrcMismatch)
    else None
  }

  lemma HeaderFaultIs(data: seq<Byte>, c: Chunk, expected: Option<(int, int)>, crc32: seq<Byte> -> int)
    requires |data| >= 33 && c.Valid() && c.typ == IHDR && |c.payload| == 13
    requires data[8..12] == BE32(13) && data[12..16] == c.typ && data[16..29] == c.payload && data[29..33] == c.crc
    ensures HeaderProblem(data, expected, crc32) == HeaderFault(c, expected, crc32)
  {
    hide U32, BE32;
    ReadBack(13);
    SliceOfSlice(data, 16, 29, 0, 4);
    SliceOfSlice(data, 16, 29, 4, 8);
    SliceOfSlice(data, 16, 29, 8, 10);
    SliceOfSlice(data, 16, 29, 10, 12);
    assert c.payload[8..10] == [data[24], data[25]] && c.payload[10..12] == [data[26], data[27]];
    assert c.payload[12] == data[28];
    assert data[12..29] == data[12..16] + data[16..29];
  }

  lemma HeaderBytes(data: seq<Byte>, c: Chunk, tail: seq<Byte>)
    requires c.Valid() && |c.payload| == 13 && data == MAGIC + (c.Encode() + tail)
    ensures |data| >= 33 && data[8..12] == BE32(13) && data[12..16] == c.typ
    ensures data[16..29] == c.payload && data[29..33] == c.crc
  {
    hide U32, BE32;
    var e := c.Encode();
    assert data == MAGIC + e + tail && data[8..33] == e;
    assert e[..4] == BE32(13) && e[4..8] == c.typ && e[8..21] == c.payload && e[21..25] == c.crc;
    SliceOfSlice(data, 8, 33, 0, 4);
    SliceOfSlice(data, 8, 33, 4, 8);
    SliceOfSlice(data, 8, 33, 8, 21);
    SliceOfSlice(data, 8, 33, 21, 25);
  }

  /** Which problem means what, once the file starts with a complete IHDR chunk: the first fault of that
      chunk, then the lack of any IDAT, then a last chunk that is no IEND. */
  lemma ProblemMeans(data: seq<Byte>, cs: seq<Chunk>, trailing: seq<Byte>, expected: Option<(int, int)>,
                     crc32: seq<Byte> -> int)
    requires IsPngFile(data, cs, trailing) && cs != [] && cs[0].typ == IHDR && |cs[0].payload| == 13
    ensures PngProblem(data, expected, crc32)
         == if HeaderFault(cs[0], expected, crc32).Some? then HeaderFault(cs[0], expected, crc32)
            else if forall i | 0 <= i < |cs| :: cs[i].typ != IDAT then Some(NoIdat)
            else if cs[|cs| - 1].typ != IEND then Some(NoIendLast)
            else None
  {
    hide U32, BE32, HeaderProblem, HeaderFault, Scan, EncodeAll, Types, MAGIC, IHDR, IDAT, IEND;
    var (c, body) := (cs[0], EncodeAll(cs) + trailing);
    HeadFirst(cs, trailing);
    HeaderBytes(data, c, EncodeAll(cs[1..]) + trailing);
    HeaderFaultIs(data, c, expected, crc32);
    BehindMagic(data, body);
    ScanIsComplete(cs, trailing);
    TypesAt(cs);
    assert IDAT in Types(cs) <==> exists i :: 0 <= i < |cs| && Types(cs)[i] == IDAT;
  }

  lemma HeadFirst(cs: seq<Chunk>, trailing: seq<Byte>)
    requires AllValid(cs) && cs != []
    ensures EncodeAll(cs) + trailing == cs[0].Encode() + (EncodeAll(cs[1..]) + trailing)
  {
  }

  lemma BehindMagic(data: seq<Byte>, body: seq<Byte>)
    requires data == MAGIC + body
    ensures MAGIC <= data && data[8..] == body
  {
  }

  /** The header chunk of a one-pixel image. */
  lemma PixelHeader(crc32: seq<Byte> -> int) returns (header: Chunk)
    requires forall s :: 0 <= crc32(s) < TWO_32
    ensures header.Valid() && IsHeader(header, None, crc32)
  {
    var pixel: seq<Byte> := [0, 0, 0, 1, 0, 0, 0, 1, 8, 6, 0, 0, 0];
    header := Chunk(IHDR, pixel, BE32(crc32(IHDR + pixel)));
    ReadBack(crc32(IHDR + pixel));
    assert pixel[..4] == [0, 0, 0, 1] && pixel[4..8] == [0, 0, 0, 1] && pixel[8..] == [8, 6, 0, 0, 0];
  }

  /** What the documentation promises of the end of a file: its last bytes are its only IEND chunk. */
  ghost predicate EndsWithOnlyIend(data: seq<Byte>) {
    exists front, end :: EndsBy(data, front, end)
  }

  ghost predicate EndsBy(data: seq<Byte>, front: seq<Chunk>, end: Chunk) {
    && AllValid(front) && end.Valid() && end.typ == IEND
    && (forall i | 0 <= i < |front| :: front[i].typ != IEND)
    && data == MAGIC + (EncodeAll(front) + end.Encode())
  }

  lemma {:induction false} EncodeSnoc(front: seq<Chunk>, end: Chunk)
    requires AllValid(front) && end.Valid()
    ensures AllValid(front + [end]) && EncodeAll(front + [end]) == EncodeAll(front) + end.Encode()
  {
    hide U32;
    if front == [] {
      assert front + [end] == [end] && [end][1..] == [];
    } else {
      EncodeSnoc(front[1..], end);
      assert (front + [end])[1..] == front[1..] + [end];
    }
  }

  lemma EndsByIsFile(data: seq<Byte>, front: seq<Chunk>, end: Chunk)
    requires EndsBy(data, front, end)
    ensures IsPngFile(data, front + [end], [])
  {
    hide EncodeAll, U32;
    EncodeSnoc(front, end);
    assert EncodeAll(front + [end]) + [] == EncodeAll(front + [end]);
  }

  /** An accepted file keeps that promise exactly when nothing trails its chunks and no earlier chunk is
      an IEND; only then is every IDAT known to stand before the IEND. */
  lemma EndsAsDocumentedExactly(data: seq<Byte>, cs: seq<Chunk>, trailing: seq<Byte>, expected: Option<(int, int)>,
                                crc32: seq<Byte> -> int)
    requires IsPngFile(data, cs, trailing) && WellFormed(cs, expected, crc32)
    ensures EndsWithOnlyIend(data) <==> trailing == [] && forall i | 0 <= i < |cs| - 1 :: cs[i].typ != IEND
  {
    hide EncodeAll, U32, IsHeader;
    var n := |cs| - 1;
    assert cs == cs[..n] + [cs[n]];
    if trailing == [] && forall i | 0 <= i < n :: cs[i].typ != IEND {
      EncodeSnoc(cs[..n], cs[n]);
      assert EncodeAll(cs) + [] == EncodeAll(cs);
      assert EndsBy(data, cs[..n], cs[n]);
    }
    if EndsWithOnlyIend(data) {
      var front, end :| EndsBy(data, front, end);
      EndsByIsFile(data, front, end);
      PngFileUnique(data, cs, trailing, front + [end], []);
      assert forall i | 0 <= i < n :: cs[i] == front[i];
    }
  }

  /** A chunk without payload. */
  function EmptyChunk(typ: seq<Byte>): (c: Chunk)
    requires |typ| == 4
    ensures c.Valid() && c.typ == typ
  {
    Chunk(typ, [], [0, 0, 0, 0])
  }

  /** The IEND chunk need not end the file: a one-pixel image with a stray byte behind it passes. */
  lemma TrailingBytesPass(crc32: seq<Byte> -> int) returns (data: seq<Byte>, cs: seq<Chunk>)
    requires forall s :: 0 <= crc32(s) < TWO_32
    ensures IsPngFile(data, cs, [0]) && PngProblem(data, None, crc32) == None && !EndsWithOnlyIend(data)
  {
    hide IsHeader, EncodeAll, PngProblem, U32, EndsWithOnlyIend;
    var header := PixelHeader(crc32);
    var pixels, end := EmptyChunk(IDAT), EmptyChunk(IEND);
    cs := [header, pixels, end];
    assert cs[0] == header && cs[1] == pixels && cs[2] == end;
    data := MAGIC + (EncodeAll(cs) + [0]);
    assert WellFormed(cs, None, crc32);
    AcceptedExactlyWellFormed(data, None, crc32);
    EndsAsDocumentedExactly(data, cs, [0], None, crc32);
  }

  /** Nor need the IDAT come before the first IEND: this file holds its pixels behind it. */
  lemma EarlyEndPasses(crc32: seq<Byte> -> int) returns (data: seq<Byte>, cs: seq<Chunk>)
    requires forall s :: 0 <= crc32(s) < TWO_32
    ensures Types(cs) == [IHDR, IEND, IDAT, IEND] && IsPngFile(data, cs, [])
    ensures PngProblem(data, None, crc32) == None && !EndsWithOnlyIend(data)
  {
    hide IsHeader, EncodeAll, PngProblem, U32, EndsWithOnlyIend;
    var header := PixelHeader(crc32);
    var pixels, end := EmptyChunk(IDAT), EmptyChunk(IEND);
    HeaderTyp(header, None, crc32);
    cs := [header, end, pixels, end];
    assert cs[0] == header && cs[1] == end && cs[2] == pixels && cs[3] == end;
    TypesAt(cs);
    data := MAGIC + (EncodeAll(cs) + []);
    assert WellFormed(cs, None, crc32);
    AcceptedExactlyWellFormed(data, None, crc32);
    EndsAsDocumentedExactly(data, cs, [], None, crc32);
  }
}
