/**
 * The ICO gate of scripts/gen_tauri_icons_stub.py: a directory of fixed-size records pointing at PNG
 * images anywhere in the file.  Records may share or overlap images, so a file is judged by the
 * directory it starts with; `Pack` is the plain encoder that lays the images out one after the other.
 */
module IcoContainer {
  import opened Wrappers
  import opened ByteCodes
  import opened Slices
  import Png = PngContainer

  type Crc = seq<Byte> -> int
  type Size = (int, int)

  /** EXPECTED_ICO_SIZES. */
  const EXPECTED: set<Size> := {(16, 16), (24, 24), (32, 32), (48, 48), (64, 64), (256, 256)}

  // ------------------------------------------------------------ little-endian numbers

  const TWO_16: int := 0x1_0000

  function U16(b: seq<Byte>): (n: int)
    requires |b| == 2
    ensures 0 <= n < TWO_16
  {
    b[0] as int + b[1] as int * 0x100
  }

  function LE16(n: int): (b: seq<Byte>)
    requires 0 <= n < TWO_16
    ensures |b| == 2 && U16(b) == n
  {
    [n % 0x100, n / 0x100]
  }

  function Flip(b: seq<Byte>): (r: seq<Byte>)
    requires |b| == 4
    ensures |r| == 4
  {
    [b[3], b[2], b[1], b[0]]
  }

  function LE32(n: int): (b: seq<Byte>)
    requires 0 <= n < TWO_32
    ensures |b| == 4 && U32(Flip(b)) == n
  {
    ReadBack(n);
    assert Flip(Flip(BE32(n))) == BE32(n);
    Flip(BE32(n))
  }

  /** Little-endian: the last byte that differs decides which number is larger. */
  lemma LittleEndianOrder(a: seq<Byte>, b: seq<Byte>, k: nat)
    requires |a| == |b| && k < |a| && a[k + 1..] == b[k + 1..] && a[k] < b[k]
    ensures |a| == 2 ==> U16(a) < U16(b)
    ensures |a| == 4 ==> U32(Flip(a)) < U32(Flip(b))
  {
    hide U32;
    assert forall i | k < i < |a| :: a[i] == a[k + 1..][i - k - 1] == b[k + 1..][i - k - 1] == b[i];
    if |a| == 4 {
      var j := 3 - k;
      assert Flip(a)[..j] == Flip(b)[..j];
      BigEndianOrder(Flip(a), Flip(b), j);
    }
  }

  // -------------------------------------------------------------------- the directory

  /** One ICONDIRENTRY; the validator ignores the color count and the reserved byte. */
  datatype Entry = Entry(width: Byte, height: Byte, colors: Byte, reserved: Byte,
                         planes: int, bpp: int, size: int, offset: int) {
    predicate Valid() {
      0 <= planes < TWO_16 && 0 <= bpp < TWO_16 && 0 <= size < TWO_32 && 0 <= offset < TWO_32
    }

    function Encode(): (s: seq<Byte>)
      requires Valid()
      ensures |s| == 16
    {
      [width, height, colors, reserved] + LE16(planes) + LE16(bpp) + LE32(size) + LE32(offset)
    }

    function Declared(): Size {
      (Pixels(width), Pixels(height))
    }
  }

  /** A zero byte stands for 256 pixels. */
  function Pixels(b: Byte): int {
    if b == 0 then 256 else b
  }

  function Decode(s: seq<Byte>): (e: Entry)
    requires |s| == 16
    ensures e.Valid()
  {
    Entry(s[0], s[1], s[2], s[3], U16(s[4..6]), U16(s[6..8]), U32(Flip(s[8..12])), U32(Flip(s[12..16])))
  }

  lemma DecodeEncode(e: Entry)
    requires e.Valid()
    ensures Decode(e.Encode()) == e
  {
    hide U32, Flip, U16;
    var (a, b, c, d) := (LE16(e.planes), LE16(e.bpp), LE32(e.size), LE32(e.offset));
    RecordParts([e.width, e.height, e.colors, e.reserved], a, b, c, d);
  }

  lemma RecordParts(front: seq<Byte>, a: seq<Byte>, b: seq<Byte>, c: seq<Byte>, d: seq<Byte>)
    requires |front| == 4 && |a| == |b| == 2 && |c| == |d| == 4
    ensures var s := front + a + b + c + d;
            s[..4] == front && s[4..6] == a && s[6..8] == b && s[8..12] == c && s[12..16] == d
  {
  }

  lemma EncodeDecode(s: seq<Byte>)
    requires |s| == 16
    ensures Decode(s).Encode() == s
  {
    assert LE16(U16(s[4..6])) == s[4..6] && LE16(U16(s[6..8])) == s[6..8];
    WriteBack(Flip(s[8..12]));
    WriteBack(Flip(s[12..16]));
    assert LE32(U32(Flip(s[8..12]))) == s[8..12] && LE32(U32(Flip(s[12..16]))) == s[12..16];
    assert s == s[..4] + s[4..6] + s[6..8] + s[8..12] + s[12..16];
  }

  function Header(count: int): (s: seq<Byte>)
    requires 0 <= count < TWO_16
    ensures |s| == 6
  {
    LE16(0) + LE16(1) + LE16(count)
  }

  /** The file starts with the header and exactly the records `es`. */
  ghost predicate HasDirectory(data: seq<Byte>, es: seq<Entry>) {
    && 0 < |es| < TWO_16 && 6 + 16 * |es| <= |data| && data[..6] == Header(|es|)
    && forall i | 0 <= i < |es| :: es[i].Valid() && data[6 + 16 * i..22 + 16 * i] == es[i].Encode()
  }

  lemma HeaderReads(data: seq<Byte>, count: int)
    requires |data| >= 6 && 0 <= count < TWO_16
    ensures data[..6] == Header(count)
       <==> U16(data[0..2]) == 0 && U16(data[2..4]) == 1 && U16(data[4..6]) == count
  {
    var h := Header(count);
    assert h[0..2] == LE16(0) && h[2..4] == LE16(1) && h[4..6] == LE16(count);
    assert data[..6][0..2] == data[0..2] && data[..6][2..4] == data[2..4] && data[..6][4..6] == data[4..6];
    assert LE16(U16(data[0..2])) == data[0..2] && LE16(U16(data[2..4])) == data[2..4];
    assert LE16(U16(data[4..6])) == data[4..6];
    assert data[..6] == data[0..2] + data[2..4] + data[4..6];
  }

  /** A file has at most one directory. */
  lemma DirectoryUnique(data: seq<Byte>, es: seq<Entry>, es': seq<Entry>)
    requires HasDirectory(data, es) && HasDirectory(data, es')
    ensures es == es'
  {
    HeaderReads(data, |es|);
    HeaderReads(data, |es'|);
    forall i | 0 <= i < |es|
      ensures es[i] == es'[i]
    {
      DecodeEncode(es[i]);
      DecodeEncode(es'[i]);
    }
  }

  // ------------------------------------------------------------------- the validator

  datatype Problem =
    | TooSmall(length: nat)
    | BadHeader(reserved: int, typ: int)
    | NoEntries
    | RecordOverruns(i: nat)
    | BadFormat(i: nat, planes: int, bpp: int)
    | ImageOverruns(i: nat, offset: int, size: int)
    | NotPngCompressed(i: nat)
    | SizeMismatch(i: nat, actual: Size, declared: Size)
    | PngFault(i: nat, fault: Png.Problem)
    | MissingSizes(sizes: set<Size>)

  predicate Inside(data: seq<Byte>, e: Entry) {
    0 <= e.offset && 0 <= e.size && e.offset + e.size <= |data|
  }

  function Blob(data: seq<Byte>, e: Entry): seq<Byte>
    requires Inside(data, e)
  {
    data[e.offset..e.offset + e.size]
  }

  function PngFaults(i: nat, blob: seq<Byte>, declared: Size, crc32: Crc): seq<Problem> {
    (if |blob| >= 24 && blob[12..16] == Png.IHDR && (U32(blob[16..20]), U32(blob[20..24])) != declared
     then [SizeMismatch(i, (U32(blob[16..20]), U32(blob[20..24])), declared)] else [])
    + match Png.PngProblem(blob, None, crc32)
      case Some(fault) => [PngFault(i, fault)]
      case None => []
  }

  function EntryProblems(data: seq<Byte>, i: nat, e: Entry, crc32: Crc): seq<Problem> {
    (if e.planes in {0, 1} && e.bpp == 32 then [] else [BadFormat(i, e.planes, e.bpp)])
    + (if !Inside(data, e) then [ImageOverruns(i, e.offset, e.size)]
       else if !(Png.MAGIC <= Blob(data, e)) then [NotPngCompressed(i)]
       else PngFaults(i, Blob(data, e), e.Declared(), crc32))
  }

  /** The sizes an entry contributes: any entry whose bytes start like a PNG does. */
  function EntrySizes(data: seq<Byte>, e: Entry): seq<Size> {
    if Inside(data, e) && Png.MAGIC <= Blob(data, e) then [e.Declared()] else []
  }

  datatype Walked = Walked(problems: seq<Problem>, sizes: seq<Size>)

  function RecordOf(data: seq<Byte>, i: nat): (e: Entry)
    requires 22 + 16 * i <= |data|
    ensures e.Valid()
  {
    Decode(data[6 + 16 * i..22 + 16 * i])
  }

  function Walk(data: seq<Byte>, i: nat, count: nat, crc32: Crc): Walked
    requires i <= count
    decreases count - i
  {
    if i == count then Walked([], [])
    else if 22 + 16 * i > |data| then Walked([RecordOverruns(i)], [])
    else
      var e, after := RecordOf(data, i), Walk(data, i + 1, count, crc32);
      Walked(EntryProblems(data, i, e, crc32) + after.problems, EntrySizes(data, e) + after.sizes)
  }

  function MissingFrom(sizes: seq<Size>): (r: seq<Problem>)
    ensures r == [] <==> forall z | z in EXPECTED :: z in sizes
  {
    var missing := set z | z in EXPECTED && z !in sizes;
    assert forall z | z in EXPECTED && z !in sizes :: z in missing;
    if missing == {} then [] else [MissingSizes(missing)]
  }

  function IcoProblems(data: seq<Byte>, crc32: Crc): seq<Problem> {
    if |data| < 6 then [TooSmall(|data|)]
    else if U16(data[0..2]) != 0 || U16(data[2..4]) != 1 then [BadHeader(U16(data[0..2]), U16(data[2..4]))]
    else if U16(data[4..6]) < 1 then [NoEntries]
    else
      var walked := Walk(data, 0, U16(data[4..6]), crc32);
      walked.problems + MissingFrom(walked.sizes)
  }

  lemma WalkTurn(data: seq<Byte>, i: nat, count: nat, crc32: Crc)
    requires i <= count
    ensures i == count ==> Walk(data, i, count, crc32) == Walked([], [])
    ensures i < count && 22 + 16 * i > |data| ==> Walk(data, i, count, crc32) == Walked([RecordOverruns(i)], [])
    ensures i < count && 22 + 16 * i <= |data| ==>
              var e, after := RecordOf(data, i), Walk(data, i + 1, count, crc32);
              Walk(data, i, count, crc32)
                == Walked(EntryProblems(data, i, e, crc32) + after.problems, EntrySizes(data, e) + after.sizes)
  {
    hide EntryProblems, EntrySizes, Decode;
  }

  lemma Regroup<T>(a: seq<T>, b: seq<T>, c: seq<T>)
    ensures a + (b + c) == (a + b) + c
    ensures a + [] == a
  {
  }

  /** The walk over the declared number of records. */
  method WalkEntries(data: seq<Byte>, count: nat, crc32: Crc) returns (problems: seq<Problem>, dims: seq<Size>)
    requires |data| >= 6
    ensures Walked(problems, dims) == Walk(data, 0, count, crc32)
  {
    hide Walk, EntryProblems, EntrySizes, Decode;
    var offset := 6;
    problems, dims := [], [];
    var i := 0;
    ghost var all := Walk(data, 0, count, crc32);
    while i < count
      invariant 0 <= i <= count && offset == 6 + 16 * i
      invariant problems + Walk(data, i, count, crc32).problems == all.problems
      invariant dims + Walk(data, i, count, crc32).sizes == all.sizes
    {
      WalkTurn(data, i, count, crc32);
      if offset + 16 > |data| {
        problems := problems + [RecordOverruns(i)];
        Regroup(dims, dims, dims);
        return;
      }
      var e := Decode(data[offset..offset + 16]);
      offset := offset + 16;
      var found, sizes := CheckEntry(data, i, e, crc32);
      ghost var after := Walk(data, i + 1, count, crc32);
      Regroup(problems, found, after.problems);
      Regroup(dims, sizes, after.sizes);
      problems, dims := problems + found, dims + sizes;
      i := i + 1;
    }
    WalkTurn(data, count, count, crc32);
    Regroup(problems, problems, problems);
    Regroup(dims, dims, dims);
  }

  method ValidateIco(data: seq<Byte>, crc32: Crc) returns (problems: seq<Problem>)
    ensures problems == IcoProblems(data, crc32)
  {
    hide U16, Walk;
    if |data| < 6 {
      return [TooSmall(|data|)];
    }
    var reserved, iconType, count := U16(data[0..2]), U16(data[2..4]), U16(data[4..6]);
    if reserved != 0 || iconType != 1 {
      return [BadHeader(reserved, iconType)];
    }
    if count < 1 {
      return [NoEntries];
    }
    var dims: seq<Size>;
    problems, dims := WalkEntries(data, count, crc32);
    problems := problems + MissingFrom(dims);
  }

  method CheckEntry(data: seq<Byte>, i: nat, e: Entry, crc32: Crc) returns (problems: seq<Problem>, dims: seq<Size>)
    requires e.Valid()
    ensures problems == EntryProblems(data, i, e, crc32) && dims == EntrySizes(data, e)
  {
    hide U32, Png.PngProblem;
    problems, dims := [], [];
    if e.planes !in {0, 1} || e.bpp != 32 {
      problems := problems + [BadFormat(i, e.planes, e.bpp)];
    }
    if e.offset + e.size > |data| {
      problems := problems + [ImageOverruns(i, e.offset, e.size)];
      return;
    }
    var blob := data[e.offset..e.offset + e.size];
    if !(Png.MAGIC <= blob) {
      problems := problems + [NotPngCompressed(i)];
    } else {
      dims := dims + [e.Declared()];
      if |blob| >= 24 && blob[12..16] == Png.IHDR {
        var actual := (U32(blob[16..20]), U32(blob[20..24]));
        if actual != e.Declared() {
          problems := problems + [SizeMismatch(i, actual, e.Declared())];
        }
      }
      var fault := Png.ContainerProblem(blob, None, crc32);
      if fault.Some? {
        problems := problems + [PngFault(i, fault.value)];
      }
    }
  }

  // -------------------------------------------------------------------- main results

  /** A well-formed PNG of exactly the declared size (see `Png.WellFormed`). */
  ghost predicate IsImageOf(blob: seq<Byte>, size: Size, crc32: Crc) {
    exists cs, trailing :: Png.IsPngFile(blob, cs, trailing) && Png.WellFormed(cs, Some(size), crc32)
  }

  ghost predicate Good(data: seq<Byte>, e: Entry, crc32: Crc) {
    e.planes <= 1 && e.bpp == 32 && Inside(data, e) && IsImageOf(Blob(data, e), e.Declared(), crc32)
  }

  ghost predicate Covers(es: seq<Entry>) {
    forall z | z in EXPECTED :: exists i :: 0 <= i < |es| && es[i].Declared() == z
  }

  /** The separate size comparison and the size-less PNG check amount to one check for that size. */
  lemma ImageChecks(i: nat, blob: seq<Byte>, declared: Size, crc32: Crc)
    requires Png.MAGIC <= blob
    ensures PngFaults(i, blob, declared, crc32) == [] <==> IsImageOf(blob, declared, crc32)
  {
    hide Png.Scan, Png.Types, U32;
    Png.AcceptedExactlyWellFormed(blob, Some(declared), crc32);
  }

  lemma EntryClean(data: seq<Byte>, i: nat, e: Entry, crc32: Crc)
    requires e.Valid()
    ensures EntryProblems(data, i, e, crc32) == [] <==> Good(data, e, crc32)
    ensures Good(data, e, crc32) ==> EntrySizes(data, e) == [e.Declared()]
  {
    hide PngFaults, IsImageOf;
    if Inside(data, e) {
      var blob := Blob(data, e);
      if Png.MAGIC <= blob {
        ImageChecks(i, blob, e.Declared(), crc32);
      } else {
        NoMagicNoImage(blob, e.Declared(), crc32);
      }
    }
  }

  lemma NoMagicNoImage(blob: seq<Byte>, size: Size, crc32: Crc)
    requires !(Png.MAGIC <= blob)
    ensures !IsImageOf(blob, size, crc32)
  {
  }

  /** The walk finds nothing exactly when all records are there and good; then their sizes are all collected. */
  lemma {:induction false} WalkClean(data: seq<Byte>, i: nat, es: seq<Entry>, crc32: Crc)
    requires i <= |es| && 6 + 16 * |es| <= |data|
    requires forall k | i <= k < |es| :: es[k] == RecordOf(data, k)
    ensures Walk(data, i, |es|, crc32).problems == [] <==> forall k | i <= k < |es| :: Good(data, es[k], crc32)
    ensures Walk(data, i, |es|, crc32).problems == [] ==>
              forall z :: z in Walk(data, i, |es|, crc32).sizes <==> exists k :: i <= k < |es| && es[k].Declared() == z
    decreases |es| - i
  {
    hide EntryProblems, EntrySizes, Good, Decode;
    if i < |es| {
      EntryClean(data, i, es[i], crc32);
      WalkClean(data, i + 1, es, crc32);
    }
  }

  lemma {:induction false} WalkOverruns(data: seq<Byte>, i: nat, count: nat, crc32: Crc)
    requires i <= count && 6 + 16 * i <= |data| < 6 + 16 * count
    ensures Walk(data, i, count, crc32).problems != []
    decreases count - i
  {
    hide EntryProblems, EntrySizes, Decode;
    if 22 + 16 * i <= |data| {
      WalkOverruns(data, i + 1, count, crc32);
    }
  }

  /** With a directory, the verdict says exactly whether its records are good and cover the sizes. */
  lemma VerdictOfDirectory(data: seq<Byte>, es: seq<Entry>, crc32: Crc)
    requires HasDirectory(data, es)
    ensures IcoProblems(data, crc32) == []
       <==> (forall k | 0 <= k < |es| :: Good(data, es[k], crc32)) && Covers(es)
  {
    hide Good, Walk, EXPECTED, U16, LE16, LE32, Decode;
    HeaderReads(data, |es|);
    forall k | 0 <= k < |es|
      ensures es[k] == RecordOf(data, k)
    {
      DecodeEncode(es[k]);
    }
    WalkClean(data, 0, es, crc32);
  }

  /** A file passes exactly when it starts with the directory of some good records covering all sizes. */
  lemma AcceptedExactly(data: seq<Byte>, crc32: Crc)
    ensures IcoProblems(data, crc32) == []
       <==> exists es :: HasDirectory(data, es) && (forall k | 0 <= k < |es| :: Good(data, es[k], crc32)) && Covers(es)
  {
    hide Good, Walk, Covers, EXPECTED, U16, LE16, LE32, Decode, Header;
    if IcoProblems(data, crc32) == [] {
      var count := U16(data[4..6]);
      if |data| < 6 + 16 * count {
        WalkOverruns(data, 0, count, crc32);
      }
      var es := seq(count, k requires 0 <= k < count => RecordOf(data, k));
      HeaderReads(data, count);
      forall k | 0 <= k < count
        ensures es[k].Valid() && data[6 + 16 * k..22 + 16 * k] == es[k].Encode()
      {
        EncodeDecode(data[6 + 16 * k..22 + 16 * k]);
      }
      VerdictOfDirectory(data, es, crc32);
    }
    forall es | HasDirectory(data, es) && (forall k | 0 <= k < |es| :: Good(data, es[k], crc32)) && Covers(es)
      ensures IcoProblems(data, crc32) == []
    {
      VerdictOfDirectory(data, es, crc32);
    }
  }

  /** Which problem of the `i`-th entry means what. */
  ghost predicate IsFault(data: seq<Byte>, i: nat, e: Entry, crc32: Crc, p: Problem) {
    match p
    case BadFormat(j, planes, bpp) => j == i && planes == e.planes && bpp == e.bpp && !(planes <= 1 && bpp == 32)
    case ImageOverruns(j, offset, size) => j == i && offset == e.offset && size == e.size && offset + size > |data|
    case NotPngCompressed(j) => j == i && Inside(data, e) && !(Png.MAGIC <= Blob(data, e))
    case SizeMismatch(j, actual, declared) =>
      && j == i && Inside(data, e) && declared == e.Declared() && actual != declared
      && var blob := Blob(data, e);
         && Png.MAGIC <= blob && |blob| >= 24 && blob[12..16] == Png.IHDR
         && actual == (U32(blob[16..20]), U32(blob[20..24]))
    case PngFault(j, fault) =>
      && j == i && Inside(data, e) && Png.MAGIC <= Blob(data, e)
      && Png.PngProblem(Blob(data, e), None, crc32) == Some(fault)
    case _ => false
  }

  lemma EntryProblemMeans(data: seq<Byte>, i: nat, e: Entry, crc32: Crc, p: Problem)
    requires e.Valid()
    ensures p in EntryProblems(data, i, e, crc32) <==> IsFault(data, i, e, crc32, p)
  {
    hide U32, Png.PngProblem, Pixels;
  }

  lemma {:induction false} WalkProblems(data: seq<Byte>, i: nat, es: seq<Entry>, crc32: Crc, p: Problem)
    requires i <= |es| && 6 + 16 * |es| <= |data| && forall k | i <= k < |es| :: es[k] == RecordOf(data, k)
    ensures p in Walk(data, i, |es|, crc32).problems
       <==> exists k :: i <= k < |es| && p in EntryProblems(data, k, es[k], crc32)
    decreases |es| - i
  {
    hide EntryProblems, EntrySizes, Decode;
    if i < |es| {
      WalkProblems(data, i + 1, es, crc32, p);
    }
  }

  lemma MissingFromMeans(sizes: seq<Size>, p: Problem)
    ensures p in MissingFrom(sizes)
       <==> p.MissingSizes? && p.sizes != {} && forall z :: z in p.sizes <==> z in EXPECTED && z !in sizes
  {
    hide EXPECTED;
    var missing := set z | z in EXPECTED && z !in sizes;
    if p.MissingSizes? && forall z :: z in p.sizes <==> z in EXPECTED && z !in sizes {
      assert p.sizes == missing;
    }
  }

  /** With a directory, the report holds exactly the faults of its entries and the sizes that no entry with
      a PNG signature declares. */
  lemma ReportMeans(data: seq<Byte>, es: seq<Entry>, crc32: Crc, p: Problem)
    requires HasDirectory(data, es)
    ensures p in IcoProblems(data, crc32)
       <==> || (exists k :: 0 <= k < |es| && IsFault(data, k, es[k], crc32, p))
            || (p.MissingSizes? && p.sizes != {}
                && forall z :: z in p.sizes <==> z in EXPECTED && z !in Walk(data, 0, |es|, crc32).sizes)
  {
    hide IsFault, Walk, EXPECTED, U16, LE16, LE32, Decode, EntryProblems, MissingFrom;
    HeaderReads(data, |es|);
    forall k | 0 <= k < |es|
      ensures es[k] == RecordOf(data, k)
      ensures p in EntryProblems(data, k, es[k], crc32) <==> IsFault(data, k, es[k], crc32, p)
    {
      DecodeEncode(es[k]);
      EntryProblemMeans(data, k, es[k], crc32, p);
    }
    WalkProblems(data, 0, es, crc32, p);
    MissingFromMeans(Walk(data, 0, |es|, crc32).sizes, p);
  }

  lemma {:induction false} WalkSizes(data: seq<Byte>, i: nat, es: seq<Entry>, crc32: Crc, z: Size)
    requires i <= |es| && 6 + 16 * |es| <= |data| && forall k | i <= k < |es| :: es[k] == RecordOf(data, k)
    ensures z in Walk(data, i, |es|, crc32).sizes
       <==> exists k :: i <= k < |es| && Inside(data, es[k]) && Png.MAGIC <= Blob(data, es[k]) && es[k].Declared() == z
    decreases |es| - i
  {
    hide EntryProblems, Decode, Pixels;
    if i < |es| {
      WalkSizes(data, i + 1, es, crc32, z);
    }
  }

  // --------------------------------------------------------------------- the encoder

  datatype Image = Image(width: Byte, height: Byte, png: seq<Byte>) {
    function Declared(): Size {
      (Pixels(width), Pixels(height))
    }
  }

  /** The bytes of the first `n` images. */
  function Blobs(images: seq<Image>, n: nat): seq<Byte>
    requires n <= |images|
  {
    if n == 0 then [] else Blobs(images, n - 1) + images[n - 1].png
  }

  predicate Packable(images: seq<Image>) {
    0 < |images| < TWO_16 && 6 + 16 * |images| + |Blobs(images, |images|)| < TWO_32
  }

  lemma {:induction false} BlobAt(images: seq<Image>, i: nat, n: nat)
    requires i < n <= |images|
    ensures |Blobs(images, i)| + |images[i].png| <= |Blobs(images, n)|
    ensures Blobs(images, n)[|Blobs(images, i)|..|Blobs(images, i)| + |images[i].png|] == images[i].png
  {
    if i < n - 1 {
      BlobAt(images, i, n - 1);
    }
  }

  function EntryFor(images: seq<Image>, i: nat): (e: Entry)
    requires Packable(images) && i < |images|
    ensures e.Valid() && e.planes == 0 && e.bpp == 32 && e.Declared() == images[i].Declared()
  {
    BlobAt(images, i, |images|);
    Entry(images[i].width, images[i].height, 0, 0, 0, 32, |images[i].png|,
          6 + 16 * |images| + |Blobs(images, i)|)
  }

  function Records(images: seq<Image>, n: nat): (s: seq<Byte>)
    requires Packable(images) && n <= |images|
    ensures |s| == 16 * n
  {
    if n == 0 then [] else Records(images, n - 1) + EntryFor(images, n - 1).Encode()
  }

  lemma {:induction false} RecordAt(images: seq<Image>, i: nat, n: nat)
    requires Packable(images) && i < n <= |images|
    ensures Records(images, n)[16 * i..16 * i + 16] == EntryFor(images, i).Encode()
  {
    hide EntryFor;
    assert Records(images, n)[..16 * (n - 1)] == Records(images, n - 1);
    if i < n - 1 {
      RecordAt(images, i, n - 1);
    }
  }

  function Pack(images: seq<Image>): seq<Byte>
    requires Packable(images)
  {
    Header(|images|) + (Records(images, |images|) + Blobs(images, |images|))
  }

  /** Packing writes the records of the images, and each record points at its own image. */
  lemma {:induction false} PackedDirectory(images: seq<Image>, es: seq<Entry>)
    requires Packable(images) && |es| == |images|
    requires forall i | 0 <= i < |es| :: es[i] == EntryFor(images, i)
    ensures HasDirectory(Pack(images), es)
    ensures forall i | 0 <= i < |es| :: Inside(Pack(images), es[i]) && Blob(Pack(images), es[i]) == images[i].png
  {
    hide Header, Blobs, Records;
    var data, n := Pack(images), |images|;
    var records, blobs := Records(images, n), Blobs(images, n);
    assert data[..6] == Header(n) && data[6..] == records + blobs;
    forall i | 0 <= i < n
      ensures data[6 + 16 * i..22 + 16 * i] == es[i].Encode()
      ensures Inside(data, es[i]) && Blob(data, es[i]) == images[i].png
    {
      RecordAt(images, i, n);
      SliceOfSlice(data, 6, |data|, 16 * i, 16 * i + 16);
      assert (records + blobs)[16 * i..16 * i + 16] == records[16 * i..16 * i + 16];
      BlobAt(images, i, n);
      assert data[6 + 16 * n..] == blobs;
      SliceOfSlice(data, 6 + 16 * n, |data|, |Blobs(images, i)|, |Blobs(images, i)| + |images[i].png|);
    }
  }

  lemma PackedGood(data: seq<Byte>, e: Entry, image: Image, crc32: Crc)
    requires e.planes == 0 && e.bpp == 32 && e.Declared() == image.Declared()
    requires Inside(data, e) && Blob(data, e) == image.png
    ensures Good(data, e, crc32) <==> IsImageOf(image.png, image.Declared(), crc32)
  {
    hide IsImageOf, Pixels;
  }

  lemma SameSizesCover(es: seq<Entry>, images: seq<Image>)
    requires |es| == |images| && forall i | 0 <= i < |es| :: es[i].Declared() == images[i].Declared()
    ensures Covers(es) <==> forall z | z in EXPECTED :: exists i :: 0 <= i < |images| && images[i].Declared() == z
  {
    hide EXPECTED, Pixels;
  }

  /** Packed images pass exactly when each is a well-formed PNG of its declared size and all sizes occur. */
  lemma PackedAcceptedExactly(images: seq<Image>, crc32: Crc)
    requires Packable(images)
    ensures IcoProblems(Pack(images), crc32) == []
       <==> && (forall i | 0 <= i < |images| :: IsImageOf(images[i].png, images[i].Declared(), crc32))
            && (forall z | z in EXPECTED :: exists i :: 0 <= i < |images| && images[i].Declared() == z)
  {
    hide *;
    var es := seq(|images|, i requires 0 <= i < |images| => EntryFor(images, i));
    PackedDirectory(images, es);
    VerdictOfDirectory(Pack(images), es, crc32);
    forall i | 0 <= i < |images|
      ensures Good(Pack(images), es[i], crc32) <==> IsImageOf(images[i].png, images[i].Declared(), crc32)
    {
      PackedGood(Pack(images), es[i], images[i], crc32);
    }
    SameSizesCover(es, images);
  }
}
