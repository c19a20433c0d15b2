/**
 * The ICNS gate of scripts/gen_tauri_icons_stub.py: a chunk walk over untrusted bytes, here proved
 * against an encoder.  The validator can also abort with an IndexError, which `Verdict` keeps apart.
 */
module IcnsContainer {
  import opened ByteCodes
  import Png = PngContainer

  type OsType = seq<Byte>

  const ICNS: seq<Byte> := [0x69, 0x63, 0x6E, 0x73]

  /** EXPECTED_ICNS_CHUNK_SIZES: ic07 to ic14. */
  const SIZES: map<OsType, int> := map[
    [0x69, 0x63, 0x30, 0x37] := 128, [0x69, 0x63, 0x30, 0x38] := 256,
    [0x69, 0x63, 0x30, 0x39] := 512, [0x69, 0x63, 0x31, 0x30] := 1024,
    [0x69, 0x63, 0x31, 0x31] := 32, [0x69, 0x63, 0x31, 0x32] := 64,
    [0x69, 0x63, 0x31, 0x33] := 256, [0x69, 0x63, 0x31, 0x34] := 512]

  /** ICNS_LEGACY_OSTYPES: is32, s8mk, il32, l8mk. */
  const LEGACY: set<OsType> := {
    [0x69, 0x73, 0x33, 0x32], [0x73, 0x38, 0x6D, 0x6B], [0x69, 0x6C, 0x33, 0x32], [0x6C, 0x38, 0x6D, 0x6B]}

  // ------------------------------------------------------------- chunks and encoder

  datatype Chunk = Chunk(ostype: OsType, payload: seq<Byte>) {
    predicate Valid() {
      |ostype| == 4 && |payload| + 8 < TWO_32
    }

    function Encode(): (s: seq<Byte>)
      requires Valid()
      ensures |s| == 8 + |payload|
    {
      ostype + BE32(8 + |payload|) + payload
    }
  }

  ghost predicate AllValid(cs: seq<Chunk>) {
    forall i | 0 <= i < |cs| :: cs[i].Valid()
  }

  ghost function EncodeAll(cs: seq<Chunk>): seq<Byte>
    requires AllValid(cs)
  {
    if cs == [] then [] else cs[0].Encode() + EncodeAll(cs[1..])
  }

  /** The bytes of an ICNS file holding exactly the chunks `cs`. */
  ghost predicate IsIcnsFile(data: seq<Byte>, cs: seq<Chunk>) {
    && AllValid(cs) && |EncodeAll(cs)| + 8 < TWO_32
    && data == ICNS + BE32(|EncodeAll(cs)| + 8) + EncodeAll(cs)
  }

  // --------------------------------------------------------------------- the walk

  datatype Stop = AtEnd | TruncatedHeader | ChunkTooShort(ostype: OsType, length: int) | ChunkOverruns(ostype: OsType)

  datatype Scanned = Scanned(chunks: seq<Chunk>, stop: Stop, rest: seq<Byte>)

  function Scan(s: seq<Byte>): Scanned
    decreases |s|
  {
    if s == [] then Scanned([], AtEnd, s)
    else if |s| < 8 then Scanned([], TruncatedHeader, s)
    else
      var length := U32(s[4..8]);
      if length < 8 then Scanned([], ChunkTooShort(s[..4], length), s)
      else if length > |s| then Scanned([], ChunkOverruns(s[..4]), s)
      else
        var after := Scan(s[length..]);
        after.(chunks := [Chunk(s[..4], s[8..length])] + after.chunks)
  }

  lemma EncodeCons(c: Chunk, cs: seq<Chunk>)
    requires c.Valid() && AllValid(cs)
    ensures AllValid([c] + cs) && EncodeAll([c] + cs) == c.Encode() + EncodeAll(cs)
  {
    assert ([c] + cs)[1..] == cs;
  }

  lemma FirstChunkIsSound(s: seq<Byte>)
    requires |s| >= 8 && 8 <= U32(s[4..8]) <= |s|
    ensures var c := Chunk(s[..4], s[8..U32(s[4..8])]);
            c.Valid() && s == c.Encode() + s[U32(s[4..8])..]
  {
    WriteBack(s[4..8]);
  }

  /** Whatever was read encodes back to the bytes it was read from. */
  lemma {:induction false} ScanIsSound(s: seq<Byte>)
    ensures AllValid(Scan(s).chunks)
    ensures s == EncodeAll(Scan(s).chunks) + Scan(s).rest
    ensures Scan(s).stop == AtEnd <==> Scan(s).rest == []
    decreases |s|
  {
    hide U32, AllValid, EncodeAll;
    if |s| >= 8 && 8 <= U32(s[4..8]) <= |s| {
      var length := U32(s[4..8]);
      var c, after := Chunk(s[..4], s[8..length]), Scan(s[length..]);
      ScanIsSound(s[length..]);
      FirstChunkIsSound(s);
      EncodeCons(c, after.chunks);
      Glue(s, c.Encode(), EncodeAll(after.chunks), after.rest);
    } else {
      NoChunks(s);
    }
  }

  lemma Glue(s: seq<Byte>, head: seq<Byte>, a: seq<Byte>, b: seq<Byte>)
    requires s == head + (a + b)
    ensures s == (head + a) + b
  {
  }

  lemma NoChunks(s: seq<Byte>)
    ensures AllValid([]) && EncodeAll([]) + s == s
  {
  }

  /** Every encoding is read back, chunk for chunk. */
  lemma {:induction false} ScanIsComplete(cs: seq<Chunk>)
    requires AllValid(cs)
    ensures Scan(EncodeAll(cs)) == Scanned(cs, AtEnd, [])
  {
    if cs != [] {
      var c, tail := cs[0], EncodeAll(cs[1..]);
      var s := c.Encode() + tail;
      ReadBack(8 + |c.payload|);
      assert s[..4] == c.ostype && s[4..8] == BE32(8 + |c.payload|);
      assert s[8..8 + |c.payload|] == c.payload && s[8 + |c.payload|..] == tail;
      ScanIsComplete(cs[1..]);
      assert cs == [c] + cs[1..];
    }
  }

  /** A file is the encoding of at most one chunk list. */
  lemma IcnsFileUnique(data: seq<Byte>, cs: seq<Chunk>, cs': seq<Chunk>)
    requires IsIcnsFile(data, cs) && IsIcnsFile(data, cs')
    ensures cs == cs'
  {
    assert data[8..] == EncodeAll(cs) == EncodeAll(cs');
    ScanIsComplete(cs);
    ScanIsComplete(cs');
  }

  // ---------------------------------------------------------------- the validator

  datatype Problem =
    | FileTooSmall(size: nat)
    | BadMagic
    | HeaderLength(total: int, size: nat)
    | Stopped(at: nat, stop: Stop)
    | NoExpectedSize(ostype: OsType)
    | WrongPixels(ostype: OsType, width: int, height: int)
    | WrongLayout(ostype: OsType, bitDepth: Byte, colorType: Byte, interlace: Byte)
    | UndecodableIhdr(ostype: OsType)
    | NotCovered(at: nat)
    | MissingPng(ostypes: set<OsType>)
    | MissingLegacy(ostypes: set<OsType>)
    | UnknownTypes(unknown: seq<OsType>)

  /** `Aborted` is the uncaught IndexError. */
  datatype Verdict = Aborted | Report(problems: seq<Problem>)

  predicate IsPng(payload: seq<Byte>) {
    Png.MAGIC <= payload
  }

  predicate HasIhdr(payload: seq<Byte>) {
    |payload| >= 24 && payload[12..16] == Png.IHDR
  }

  /** The guard admits 24 bytes, but byte 28 is read behind it. */
  predicate AbortsOn(c: Chunk) {
    IsPng(c.payload) && c.ostype in SIZES && HasIhdr(c.payload) && |c.payload| < 29
  }

  function ChunkProblems(c: Chunk): seq<Problem>
    requires !AbortsOn(c)
  {
    if !IsPng(c.payload) then []
    else if c.ostype !in SIZES then [NoExpectedSize(c.ostype)]
    else if !HasIhdr(c.payload) then [UndecodableIhdr(c.ostype)]
    else
      var (w, h) := (U32(c.payload[16..20]), U32(c.payload[20..24]));
      var (depth, color, interlace) := (c.payload[24], c.payload[25], c.payload[28]);
      (if w == SIZES[c.ostype] && h == SIZES[c.ostype] then [] else [WrongPixels(c.ostype, w, h)])
      + (if depth == 8 && color == 6 && interlace == 0 then [] else [WrongLayout(c.ostype, depth, color, interlace)])
  }

  predicate AnyAborts(cs: seq<Chunk>) {
    cs != [] && (AbortsOn(cs[0]) || AnyAborts(cs[1..]))
  }

  function AllChunkProblems(cs: seq<Chunk>): seq<Problem>
    requires !AnyAborts(cs)
  {
    if cs == [] then [] else ChunkProblems(cs[0]) + AllChunkProblems(cs[1..])
  }

  function Types(cs: seq<Chunk>): seq<OsType> {
    if cs == [] then [] else [cs[0].ostype] + Types(cs[1..])
  }

  function PngTypes(cs: seq<Chunk>): seq<OsType> {
    if cs == [] then [] else (if IsPng(cs[0].payload) then [cs[0].ostype] else []) + PngTypes(cs[1..])
  }

  function Unknown(ostypes: seq<OsType>): seq<OsType> {
    if ostypes == [] then []
    else (if ostypes[0] in SIZES || ostypes[0] in LEGACY then [] else [ostypes[0]]) + Unknown(ostypes[1..])
  }

  function Missing(expected: set<OsType>, present: seq<OsType>): (r: set<OsType>)
    ensures r == {} <==> forall o | o in expected :: o in present
  {
    var r := set o | o in expected && o !in present;
    assert forall o | o in expected && o !in present :: o in r;
    r
  }

  /** The checks behind the walk, on the types it collected. */
  function SetProblems(pngOstypes: seq<OsType>, ostypes: seq<OsType>): seq<Problem> {
    var missingPng := Missing(SIZES.Keys, pngOstypes);
    var missingLegacy := Missing(LEGACY, ostypes);
    (if missingPng == {} then [] else [MissingPng(missingPng)])
    + (if missingLegacy == {} then [] else [MissingLegacy(missingLegacy)])
    + (if Unknown(ostypes) == [] then [] else [UnknownTypes(Unknown(ostypes))])
  }

  function StopProblems(at: nat, stop: Stop): seq<Problem> {
    if stop == AtEnd then [] else [Stopped(at, stop), NotCovered(at)]
  }

  function IcnsVerdict(data: seq<Byte>): Verdict {
    if |data| < 8 then Report([FileTooSmall(|data|)])
    else if data[..4] != ICNS then Report([BadMagic])
    else if U32(data[4..8]) != |data| then Report([HeaderLength(U32(data[4..8]), |data|)])
    else
      var scanned := Scan(data[8..]);
      if AnyAborts(scanned.chunks) then Aborted
      else
        assert |scanned.rest| <= |data| by { ScanIsSound(data[8..]); }
        Report(AllChunkProblems(scanned.chunks)
               + StopProblems(|data| - |scanned.rest|, scanned.stop)
               + SetProblems(PngTypes(scanned.chunks), Types(scanned.chunks)))
  }

  /** One turn of the walk, by offset. */
  lemma ScanAt(data: seq<Byte>, offset: nat)
    requires offset < |data|
    ensures var here := Scan(data[offset..]);
            if offset + 8 > |data| then here == Scanned([], TruncatedHeader, data[offset..])
            else
              var ostype, length := data[offset..offset + 4], U32(data[offset + 4..offset + 8]);
              if length < 8 then here == Scanned([], ChunkTooShort(ostype, length), data[offset..])
              else if offset + length > |data| then here == Scanned([], ChunkOverruns(ostype), data[offset..])
              else
                var c, after := Chunk(ostype, data[offset + 8..offset + length]), Scan(data[offset + length..]);
                here == after.(chunks := [c] + after.chunks)
  {
    var s := data[offset..];
    if |s| >= 8 {
      assert s[..4] == data[offset..offset + 4] && s[4..8] == data[offset + 4..offset + 8];
      var length := U32(s[4..8]);
      if 8 <= length <= |s| {
        assert s[8..length] == data[offset + 8..offset + length] && s[length..] == data[offset + length..];
      }
    }
  }

  lemma ChunksCons(c: Chunk, cs: seq<Chunk>)
    ensures AnyAborts([c] + cs) <==> AbortsOn(c) || AnyAborts(cs)
    ensures !AnyAborts([c] + cs) ==> AllChunkProblems([c] + cs) == ChunkProblems(c) + AllChunkProblems(cs)
    ensures PngTypes([c] + cs) == (if IsPng(c.payload) then [c.ostype] else []) + PngTypes(cs)
    ensures Types([c] + cs) == [c.ostype] + Types(cs)
  {
    hide AbortsOn, IsPng;
    assert ([c] + cs)[1..] == cs;
  }

  /** The checks on one PNG-compressed chunk. */
  method CheckPngChunk(ostype: OsType, payload: seq<Byte>) returns (aborted: bool, problems: seq<Problem>)
    requires IsPng(payload)
    ensures aborted == AbortsOn(Chunk(ostype, payload))
    ensures !aborted ==> problems == ChunkProblems(Chunk(ostype, payload))
  {
    aborted, problems := false, [];
    if ostype !in SIZES {
      problems := problems + [NoExpectedSize(ostype)];
    } else if |payload| >= 24 && payload[12..16] == Png.IHDR {
      var w, h := U32(payload[16..20]), U32(payload[20..24]);
      if !(w == SIZES[ostype] && h == SIZES[ostype]) {
        problems := problems + [WrongPixels(ostype, w, h)];
      }
      if |payload| <= 28 {
        aborted := true;
        return;
      }
      var bitDepth, colorType, interlace := payload[24], payload[25], payload[28];
      if !(bitDepth == 8 && colorType == 6 && interlace == 0) {
        problems := problems + [WrongLayout(ostype, bitDepth, colorType, interlace)];
      }
    } else {
      problems := problems + [UndecodableIhdr(ostype)];
    }
  }

  /** The chunk walk: what it collects, and where and why it stops. */
  method WalkChunks(data: seq<Byte>)
    returns (aborted: bool, problems: seq<Problem>, offset: nat, pngOstypes: seq<OsType>, ostypes: seq<OsType>)
    requires |data| >= 8
    ensures var all := Scan(data[8..]);
            && aborted == AnyAborts(all.chunks)
            && (!aborted ==>
                  && offset == |data| - |all.rest|
                  && problems == AllChunkProblems(all.chunks)
                                 + (if all.stop == AtEnd then [] else [Stopped(offset, all.stop)])
                  && pngOstypes == PngTypes(all.chunks) && ostypes == Types(all.chunks))
  {
    hide Scan, AnyAborts, AllChunkProblems, PngTypes, Types, ChunkProblems, AbortsOn, IsPng, SIZES, U32;
    aborted, problems, offset, pngOstypes, ostypes := false, [], 8, [], [];
    ghost var all := Scan(data[8..]);
    var stopped := false;
    WalkEnds();
    while offset < |data| && !stopped
      invariant 8 <= offset <= |data| && !aborted
      invariant var here := Scan(data[offset..]);
                && here.stop == all.stop && here.rest == all.rest
                && AnyAborts(here.chunks) == AnyAborts(all.chunks)
                && (!AnyAborts(all.chunks) && !stopped ==>
                      problems + AllChunkProblems(here.chunks) == AllChunkProblems(all.chunks))
                && pngOstypes + PngTypes(here.chunks) == PngTypes(all.chunks)
                && ostypes + Types(here.chunks) == Types(all.chunks)
      invariant stopped ==>
                  && Scan(data[offset..]).chunks == [] && all.rest == data[offset..] && all.stop != AtEnd
                  && problems == AllChunkProblems(all.chunks) + [Stopped(offset, all.stop)]
      decreases |data| - offset, !stopped
    {
      ScanAt(data, offset);
      if offset + 8 > |data| {
        problems := problems + [Stopped(offset, TruncatedHeader)];
        stopped := true;
      } else {
        var ostype := data[offset..offset + 4];
        var chunkLen := U32(data[offset + 4..offset + 8]);
        if chunkLen < 8 {
          problems := problems + [Stopped(offset, ChunkTooShort(ostype, chunkLen))];
          stopped := true;
        } else if offset + chunkLen > |data| {
          problems := problems + [Stopped(offset, ChunkOverruns(ostype))];
          stopped := true;
        } else {
          var payload := data[offset + 8..offset + chunkLen];
          ghost var c := Chunk(ostype, payload);
          ChunksCons(c, Scan(data[offset + chunkLen..]).chunks);
          PlainChunk(c);
          if IsPng(payload) {
            pngOstypes := pngOstypes + [ostype];
            var found: seq<Problem>;
            aborted, found := CheckPngChunk(ostype, payload);
            if aborted {
              return;
            }
            problems := problems + found;
          }
          ostypes := ostypes + [ostype];
          offset := offset + chunkLen;
        }
      }
    }
  }

  lemma WalkEnds()
    ensures Scan([]) == Scanned([], AtEnd, [])
    ensures !AnyAborts([]) && AllChunkProblems([]) == [] && PngTypes([]) == [] && Types([]) == []
  {
  }

  lemma PlainChunk(c: Chunk)
    ensures !IsPng(c.payload) ==> !AbortsOn(c) && ChunkProblems(c) == []
  {
  }

  method ValidateIcns(data: seq<Byte>) returns (verdict: Verdict)
    ensures verdict == IcnsVerdict(data)
  {
    hide Scan, AnyAborts, AllChunkProblems, PngTypes, Types, SIZES, LEGACY, U32, ICNS;
    if |data| < 8 {
      return Report([FileTooSmall(|data|)]);
    }
    if data[..4] != ICNS {
      return Report([BadMagic]);
    }
    var total := U32(data[4..8]);
    if total != |data| {
      return Report([HeaderLength(total, |data|)]);
    }
    var aborted, problems, offset, pngOstypes, ostypes := WalkChunks(data);
    if aborted {
      return Aborted;
    }
    ScanIsSound(data[8..]);
    if offset != |data| {
      problems := problems + [NotCovered(offset)];
    }
    var found := CheckTypes(pngOstypes, ostypes);
    verdict := Report(problems + found);
  }

  method CheckTypes(pngOstypes: seq<OsType>, ostypes: seq<OsType>) returns (problems: seq<Problem>)
    ensures problems == SetProblems(pngOstypes, ostypes)
  {
    hide SIZES, LEGACY, Unknown, Missing;
    problems := [];
    var missingPng := Missing(SIZES.Keys, pngOstypes);
    if missingPng != {} {
      problems := problems + [MissingPng(missingPng)];
    }
    var missingLegacy := Missing(LEGACY, ostypes);
    if missingLegacy != {} {
      problems := problems + [MissingLegacy(missingLegacy)];
    }
    var unknown := Unknown(ostypes);
    if unknown != [] {
      problems := problems + [UnknownTypes(unknown)];
    }
  }

  // ------------------------------------------------------------------ main results

  ghost predicate PngOfSize(payload: seq<Byte>, size: int) {
    && IsPng(payload) && |payload| >= 29 && payload[12..16] == Png.IHDR
    && U32(payload[16..20]) == size && U32(payload[20..24]) == size
    && payload[24] == 8 && payload[25] == 6 && payload[28] == 0
  }

  /** The canonical chunk set, in any order: every size as a PNG, every legacy chunk, nothing else. */
  ghost predicate Canonical(cs: seq<Chunk>) {
    && (forall c | c in cs :: c.ostype in SIZES || c.ostype in LEGACY)
    && (forall c | c in cs && IsPng(c.payload) :: c.ostype in SIZES && PngOfSize(c.payload, SIZES[c.ostype]))
    && (forall o | o in SIZES :: exists c :: c in cs && c.ostype == o && IsPng(c.payload))
    && (forall o | o in LEGACY :: exists c :: c in cs && c.ostype == o)
  }

  lemma {:induction false} AnyAbortsMeans(cs: seq<Chunk>)
    ensures AnyAborts(cs) <==> exists c :: c in cs && AbortsOn(c)
  {
    hide AbortsOn;
    if cs != [] {
      AnyAbortsMeans(cs[1..]);
      assert cs == [cs[0]] + cs[1..];
    }
  }

  lemma NoChunkProblem(c: Chunk)
    requires !AbortsOn(c)
    ensures ChunkProblems(c) == []
       <==> (IsPng(c.payload) ==> c.ostype in SIZES && PngOfSize(c.payload, SIZES[c.ostype]))
  {
    hide SIZES;
  }

  lemma {:induction false} NoChunkProblems(cs: seq<Chunk>)
    requires !AnyAborts(cs)
    ensures AllChunkProblems(cs) == []
       <==> forall c | c in cs && IsPng(c.payload) :: c.ostype in SIZES && PngOfSize(c.payload, SIZES[c.ostype])
  {
    hide AbortsOn, ChunkProblems, PngOfSize, IsPng, SIZES;
    if cs != [] {
      NoChunkProblem(cs[0]);
      NoChunkProblems(cs[1..]);
      assert cs == [cs[0]] + cs[1..];
    }
  }

  lemma {:induction false} TypesMean(cs: seq<Chunk>, o: OsType)
    ensures o in Types(cs) <==> exists c :: c in cs && c.ostype == o
    ensures o in PngTypes(cs) <==> exists c :: c in cs && c.ostype == o && IsPng(c.payload)
  {
    hide IsPng;
    if cs != [] {
      TypesMean(cs[1..], o);
      assert cs == [cs[0]] + cs[1..];
    }
  }

  lemma {:induction false} UnknownMeans(ostypes: seq<OsType>)
    ensures Unknown(ostypes) == [] <==> forall o | o in ostypes :: o in SIZES || o in LEGACY
  {
    hide SIZES, LEGACY;
    if ostypes != [] {
      UnknownMeans(ostypes[1..]);
      assert ostypes == [ostypes[0]] + ostypes[1..];
    }
  }

  lemma {:induction false} SetProblemsMean(cs: seq<Chunk>)
    ensures SetProblems(PngTypes(cs), Types(cs)) == []
       <==> && (forall c | c in cs :: c.ostype in SIZES || c.ostype in LEGACY)
            && (forall o | o in SIZES :: exists c :: c in cs && c.ostype == o && IsPng(c.payload))
            && (forall o | o in LEGACY :: exists c :: c in cs && c.ostype == o)
  {
    hide SIZES, LEGACY, IsPng, Types, PngTypes, Unknown, Missing;
    var pngs, types := PngTypes(cs), Types(cs);
    UnknownMeans(types);
    forall o ensures (o in types <==> exists c :: c in cs && c.ostype == o)
                  && (o in pngs <==> exists c :: c in cs && c.ostype == o && IsPng(c.payload)) {
      TypesMean(cs, o);
    }
    assert (forall o | o in types :: o in SIZES || o in LEGACY)
        <==> (forall c | c in cs :: c.ostype in SIZES || c.ostype in LEGACY);
  }

  /** On the encoding of a chunk list, the verdict depends on the list alone. */
  lemma VerdictOfFile(data: seq<Byte>, cs: seq<Chunk>)
    requires IsIcnsFile(data, cs)
    ensures IcnsVerdict(data) == Aborted <==> exists c :: c in cs && AbortsOn(c)
    ensures IcnsVerdict(data) == Report([]) <==> Canonical(cs)
  {
    hide SIZES, LEGACY, AbortsOn, PngOfSize, IsPng, U32, EncodeAll, Scan,
         SetProblems, AllChunkProblems, AnyAborts, Types, PngTypes;
    assert data[8..] == EncodeAll(cs) && data[4..8] == BE32(|EncodeAll(cs)| + 8) && data[..4] == ICNS;
    ReadBack(|EncodeAll(cs)| + 8);
    ScanIsComplete(cs);
    AnyAbortsMeans(cs);
    SetProblemsMean(cs);
    if AnyAborts(cs) {
      var c :| c in cs && AbortsOn(c);
      AbortingIsNotCanonical(c);
    } else {
      NoChunkProblems(cs);
    }
  }

  lemma AbortingIsNotCanonical(c: Chunk)
    requires AbortsOn(c)
    ensures IsPng(c.payload) && !PngOfSize(c.payload, SIZES[c.ostype])
  {
    hide SIZES;
  }

  /** What was read before the walk stopped does not depend on what follows. */
  lemma {:induction false} ScanPrefix(cs: seq<Chunk>, rest: seq<Byte>)
    requires AllValid(cs)
    ensures Scan(EncodeAll(cs) + rest).chunks == cs + Scan(rest).chunks
  {
    hide Scan, U32, EncodeAll;
    if cs == [] {
      NoChunks(rest);
    } else {
      var c, tail := cs[0], EncodeAll(cs[1..]) + rest;
      ScanOne(c, tail);
      ScanPrefix(cs[1..], rest);
      EncodeCons(c, cs[1..]);
      assert cs == [c] + cs[1..];
      assert (c.Encode() + EncodeAll(cs[1..])) + rest == c.Encode() + tail;
    }
  }

  lemma ScanOne(c: Chunk, tail: seq<Byte>)
    requires c.Valid()
    ensures Scan(c.Encode() + tail).chunks == [c] + Scan(tail).chunks
  {
    var s := c.Encode() + tail;
    ReadBack(8 + |c.payload|);
    assert s[..4] == c.ostype && s[4..8] == BE32(8 + |c.payload|);
    assert s[8..8 + |c.payload|] == c.payload && s[8 + |c.payload|..] == tail;
  }

  /** The file starts with a correct header and then some chunks, whatever follows them. */
  ghost predicate StartsWithChunks(data: seq<Byte>, cs: seq<Chunk>, rest: seq<Byte>) {
    && |data| >= 8 && data[..4] == ICNS && U32(data[4..8]) == |data|
    && AllValid(cs) && data[8..] == EncodeAll(cs) + rest
  }

  /** On any bytes whatever, the validator aborts exactly when its walk reaches a chunk it aborts on. */
  lemma {:induction false} AbortsExactly(data: seq<Byte>)
    ensures IcnsVerdict(data) == Aborted
       <==> exists cs, rest, c :: StartsWithChunks(data, cs, rest) && c in cs && AbortsOn(c)
  {
    hide SIZES, LEGACY, AbortsOn, U32, Scan, EncodeAll, AllValid, SetProblems, AllChunkProblems, AnyAborts, ICNS;
    if IcnsVerdict(data) == Aborted {
      ScanIsSound(data[8..]);
      AnyAbortsMeans(Scan(data[8..]).chunks);
      var c :| c in Scan(data[8..]).chunks && AbortsOn(c);
      assert StartsWithChunks(data, Scan(data[8..]).chunks, Scan(data[8..]).rest);
    }
    forall cs, rest, c | StartsWithChunks(data, cs, rest) && c in cs && AbortsOn(c)
      ensures IcnsVerdict(data) == Aborted
    {
      ScanPrefix(cs, rest);
      assert c in cs + Scan(rest).chunks;
      AnyAbortsMeans(Scan(data[8..]).chunks);
    }
  }

  /** The validator accepts exactly the files that encode a canonical chunk list, byte for byte. */
  lemma {:induction false} AcceptedExactlyCanonicalFiles(data: seq<Byte>)
    ensures IcnsVerdict(data) == Report([]) <==> exists cs :: IsIcnsFile(data, cs) && Canonical(cs)
  {
    hide SIZES, LEGACY, Canonical, Scan, EncodeAll, U32, SetProblems, AllChunkProblems, AnyAborts;
    if IcnsVerdict(data) == Report([]) {
      var cs := Scan(data[8..]).chunks;
      ScanIsSound(data[8..]);
      assert Scan(data[8..]).stop == AtEnd;
      assert EncodeAll(cs) == EncodeAll(cs) + [] == data[8..];
      WriteBack(data[4..8]);
      assert data == data[..4] + data[4..8] + data[8..];
      assert IsIcnsFile(data, cs);
      VerdictOfFile(data, cs);
    }
    forall cs | IsIcnsFile(data, cs) && Canonical(cs)
      ensures IcnsVerdict(data) == Report([])
    {
      VerdictOfFile(data, cs);
    }
  }

  lemma {:induction false} InAllProblems(cs: seq<Chunk>, p: Problem)
    requires !AnyAborts(cs)
    ensures (forall c | c in cs :: !AbortsOn(c))
         && (p in AllChunkProblems(cs) <==> exists c :: c in cs && !AbortsOn(c) && p in ChunkProblems(c))
  {
    hide AbortsOn, ChunkProblems;
    if cs != [] {
      InAllProblems(cs[1..], p);
      assert cs == [cs[0]] + cs[1..];
    }
  }

  /** Which problem of a chunk means what. */
  ghost predicate IsFault(c: Chunk, p: Problem) {
    && IsPng(c.payload)
    && match p
       case NoExpectedSize(o) => o == c.ostype && o !in SIZES
       case UndecodableIhdr(o) => o == c.ostype && o in SIZES && !HasIhdr(c.payload)
       case WrongPixels(o, w, h) =>
         && o == c.ostype && o in SIZES && HasIhdr(c.payload) && !(w == h == SIZES[o])
         && w == U32(c.payload[16..20]) && h == U32(c.payload[20..24])
       case WrongLayout(o, depth, color, interlace) =>
         && o == c.ostype && o in SIZES && HasIhdr(c.payload) && |c.payload| > 28
         && depth == c.payload[24] && color == c.payload[25] && interlace == c.payload[28]
         && (depth, color, interlace) != (8, 6, 0)
       case _ => false
  }

  lemma ChunkProblemMeans(c: Chunk, p: Problem)
    requires !AbortsOn(c)
    ensures p in ChunkProblems(c) <==> IsFault(c, p)
  {
    hide SIZES, U32;
  }

  /** Which problem of the whole set means what. */
  ghost predicate IsSetFault(cs: seq<Chunk>, p: Problem) {
    match p
    case MissingPng(missing) =>
      && missing != {}
      && forall o :: o in missing <==> o in SIZES && !exists c :: c in cs && c.ostype == o && IsPng(c.payload)
    case MissingLegacy(missing) =>
      missing != {} && forall o :: o in missing <==> o in LEGACY && !exists c :: c in cs && c.ostype == o
    case UnknownTypes(unknown) => unknown != [] && unknown == Unknown(Types(cs))
    case _ => false
  }

  lemma SetProblemMeans(cs: seq<Chunk>, p: Problem)
    ensures p in SetProblems(PngTypes(cs), Types(cs)) <==> IsSetFault(cs, p)
  {
    hide SIZES, LEGACY, IsPng, Types, PngTypes, Unknown;
    var missingPng, missingLegacy := Missing(SIZES.Keys, PngTypes(cs)), Missing(LEGACY, Types(cs));
    forall o
      ensures o in missingPng <==> o in SIZES && !exists c :: c in cs && c.ostype == o && IsPng(c.payload)
      ensures o in missingLegacy <==> o in LEGACY && !exists c :: c in cs && c.ostype == o
    {
      TypesMean(cs, o);
    }
    SameMembers(missingPng, missingLegacy, p);
  }

  lemma SameMembers(missingPng: set<OsType>, missingLegacy: set<OsType>, p: Problem)
    ensures p.MissingPng? && (forall o :: o in p.ostypes <==> o in missingPng) ==> p == MissingPng(missingPng)
    ensures p.MissingLegacy? && (forall o :: o in p.ostypes <==> o in missingLegacy) ==>
              p == MissingLegacy(missingLegacy)
  {
  }

  /** The report on an encoded chunk list holds exactly the faults of its chunks and of the set. */
  lemma ReportMeans(data: seq<Byte>, cs: seq<Chunk>, problems: seq<Problem>, p: Problem)
    requires IsIcnsFile(data, cs) && IcnsVerdict(data) == Report(problems)
    ensures p in problems <==> (exists c :: c in cs && IsFault(c, p)) || IsSetFault(cs, p)
  {
    hide SIZES, LEGACY, AbortsOn, IsPng, U32, EncodeAll, Scan, SetProblems, AllChunkProblems, AnyAborts, Types,
         PngTypes, IsFault, IsSetFault, ChunkProblems;
    assert data[8..] == EncodeAll(cs) && data[4..8] == BE32(|EncodeAll(cs)| + 8) && data[..4] == ICNS;
    ReadBack(|EncodeAll(cs)| + 8);
    ScanIsComplete(cs);
    InAllProblems(cs, p);
    SetProblemMeans(cs, p);
    forall c | c in cs ensures p in ChunkProblems(c) <==> IsFault(c, p) { ChunkProblemMeans(c, p); }
  }

  /** An ic07 chunk whose PNG ends right behind its dimensions. */
  lemma ShortChunk() returns (c: Chunk)
    ensures c.Valid() && AbortsOn(c) && |c.payload| == 24
  {
    var payload: seq<Byte> := Png.MAGIC + [0, 0, 0, 13] + Png.IHDR + [0, 0, 0, 128, 0, 0, 0, 128];
    var ic07: OsType := [0x69, 0x63, 0x30, 0x37];
    assert payload[12..16] == Png.IHDR && payload[..8] == Png.MAGIC && ic07 in SIZES;
    c := Chunk(ic07, payload);
  }

  /** The abort is real: a well-formed file of that one chunk. */
  lemma ShortPngAborts() returns (data: seq<Byte>)
    ensures |data| == 40 && IcnsVerdict(data) == Aborted
  {
    var c := ShortChunk();
    var cs := [c];
    assert cs[1..] == [];
    assert EncodeAll(cs) == c.Encode();
    data := ICNS + BE32(40) + EncodeAll(cs);
    assert IsIcnsFile(data, cs);
    VerdictOfFile(data, cs);
  }

  /** It aborts on malformed files, too: the same chunk with one stray byte behind it. */
  lemma MalformedAborts() returns (data: seq<Byte>)
    ensures |data| == 41 && IcnsVerdict(data) == Aborted
    ensures forall cs :: !IsIcnsFile(data, cs)
  {
    var c := ShortChunk();
    var cs, rest := [c], [0];
    assert cs[1..] == [] && EncodeAll(cs) == c.Encode();
    data := ICNS + BE32(41) + (EncodeAll(cs) + rest);
    ReadBack(41);
    assert data[..4] == ICNS && data[4..8] == BE32(41) && data[8..] == EncodeAll(cs) + rest;
    assert StartsWithChunks(data, cs, rest);
    AbortsExactly(data);
    ScanOne(c, rest);
    ScanRest(c, rest);
    forall cs' | IsIcnsFile(data, cs')
      ensures false
    {
      assert data[8..] == EncodeAll(cs');
      ScanIsComplete(cs');
    }
  }

  lemma ScanRest(c: Chunk, rest: seq<Byte>)
    requires c.Valid() && 0 < |rest| < 8
    ensures Scan(c.Encode() + rest).rest == rest
  {
    var s := c.Encode() + rest;
    ReadBack(8 + |c.payload|);
    assert s[4..8] == BE32(8 + |c.payload|) && s[8 + |c.payload|..] == rest;
  }
}
