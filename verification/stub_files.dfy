/**
 * The stub commands of scripts/gen_tauri_icons_stub.py over a file tree: generate, check and clean
 * share one tree with real build artifacts and must never lose one.  File contents are byte strings.
 */
module StubFiles {
  import opened Wrappers
  import opened PyText

  // ------------------------------------------------------------- the path registry

  datatype Platform = Windows | Darwin | Linux | Unix

  datatype Kind = Sidecar | Worker | Native

  datatype Triple = WinX64Msvc | WinArm64Msvc | MacX64 | MacArm64 | LinuxX64 | LinuxArm64 | WinX64Gnu

  /** Paths below the project root; each constructor stands for its own file names. */
  datatype Path =
    | ExternalBin(kind: Kind, triple: Triple)
    | NativeResource(platform: Platform)
    | ScriptSource(name: string)
    | ScriptCopy(name: string)
    | Other(name: string)

  datatype Spec = Spec(path: Path, platform: Platform, kind: Kind)

  const SCRIPTS: seq<string> := [
    "install_permissions.py", "uninstall_permissions.py", "99-lausu.rules", "00-lausu-capslock.conf", "lausu.polkit"]

  const SIDECAR_TRIPLES: seq<Triple> := [WinX64Msvc, WinArm64Msvc, MacX64, MacArm64, LinuxX64, LinuxArm64]

  predicate IsWindowsTriple(t: Triple) {
    t == WinX64Msvc || t == WinArm64Msvc
  }

  function BinSpecs(triples: seq<Triple>): seq<Spec> {
    if triples == [] then []
    else
      var t := triples[0];
      var platform := if IsWindowsTriple(t) then Windows else Unix;
      [Spec(ExternalBin(Sidecar, t), platform, Sidecar), Spec(ExternalBin(Worker, t), platform, Worker)]
      + BinSpecs(triples[1..])
  }

  const GNU_SPECS: seq<Spec> :=
    [Spec(ExternalBin(Sidecar, WinX64Gnu), Windows, Sidecar), Spec(ExternalBin(Worker, WinX64Gnu), Windows, Worker)]

  const NATIVE_SPECS: seq<Spec> :=
    [Spec(NativeResource(Windows), Windows, Native), Spec(NativeResource(Darwin), Darwin, Native),
     Spec(NativeResource(Linux), Linux, Native)]

  /** `_all_stub_specs`: sidecars and workers, the GNU mirrors, the native listeners. */
  const ALL_SPECS: seq<Spec> := BinSpecs(SIDECAR_TRIPLES) + GNU_SPECS + NATIVE_SPECS

  /** The same registry, path by path. */
  function SpecAt(p: Path): Option<Spec> {
    match p
    case ExternalBin(kind, t) =>
      if kind == Native then None
      else Some(Spec(p, if IsWindowsTriple(t) || t == WinX64Gnu then Windows else Unix, kind))
    case NativeResource(platform) => if platform == Unix then None else Some(Spec(p, platform, Native))
    case _ => None
  }

  lemma {:induction false} BinSpecsMean(triples: seq<Triple>, p: Path)
    requires WinX64Gnu !in triples
    ensures forall s | s in BinSpecs(triples) :: SpecAt(s.path) == Some(s)
    ensures p.ExternalBin? && p.kind != Native && p.triple in triples ==> SpecAt(p).value in BinSpecs(triples)
  {
    if triples != [] {
      BinSpecsMean(triples[1..], p);
      assert triples == [triples[0]] + triples[1..];
    }
  }

  lemma AllTriples(t: Triple)
    ensures t in SIDECAR_TRIPLES <==> t != WinX64Gnu
  {
    var ts := SIDECAR_TRIPLES;
    assert ts[0] == WinX64Msvc && ts[1] == WinArm64Msvc && ts[2] == MacX64 && ts[3] == MacArm64
        && ts[4] == LinuxX64 && ts[5] == LinuxArm64;
  }

  lemma FixedSpecs(p: Path)
    ensures forall s | s in GNU_SPECS || s in NATIVE_SPECS :: SpecAt(s.path) == Some(s)
    ensures p.ExternalBin? && p.kind != Native && p.triple == WinX64Gnu ==> SpecAt(p).value in GNU_SPECS
    ensures p.NativeResource? && p.platform != Unix ==> SpecAt(p).value in NATIVE_SPECS
  {
    var gnu, native := GNU_SPECS, NATIVE_SPECS;
    if p.ExternalBin? && p.kind != Native && p.triple == WinX64Gnu {
      assert SpecAt(p).value == gnu[0] || SpecAt(p).value == gnu[1];
    }
    if p.NativeResource? && p.platform != Unix {
      assert SpecAt(p).value == native[0] || SpecAt(p).value == native[1] || SpecAt(p).value == native[2];
    }
  }

  /** The list of specs and the path-by-path registry are the same; in particular no path occurs
      with two different contents. */
  lemma {:induction false} RegistryAt(p: Path)
    ensures forall s | s in ALL_SPECS :: SpecAt(s.path) == Some(s)
    ensures SpecAt(p).Some? ==> SpecAt(p).value in ALL_SPECS && SpecAt(p).value.path == p
  {
    hide BinSpecs, SIDECAR_TRIPLES, GNU_SPECS, NATIVE_SPECS;
    AllTriples(WinX64Gnu);
    BinSpecsMean(SIDECAR_TRIPLES, p);
    FixedSpecs(p);
    if p.ExternalBin? {
      AllTriples(p.triple);
    }
  }

  lemma {:induction false} RegistryIsFunctional()
    ensures forall s | s in ALL_SPECS :: SpecAt(s.path) == Some(s)
    ensures forall p | SpecAt(p).Some? :: SpecAt(p).value in ALL_SPECS && SpecAt(p).value.path == p
  {
    hide ALL_SPECS, SpecAt;
    RegistryAt(Other(""));
    forall p | SpecAt(p).Some?
      ensures SpecAt(p).value in ALL_SPECS && SpecAt(p).value.path == p
    {
      RegistryAt(p);
    }
  }

  // ---------------------------------------------------------------------- file names

  function TripleName(t: Triple): string {
    match t
    case WinX64Msvc => "x86_64-pc-windows-msvc"
    case WinArm64Msvc => "aarch64-pc-windows-msvc"
    case MacX64 => "x86_64-apple-darwin"
    case MacArm64 => "aarch64-apple-darwin"
    case LinuxX64 => "x86_64-unknown-linux-gnu"
    case LinuxArm64 => "aarch64-unknown-linux-gnu"
    case WinX64Gnu => "x86_64-pc-windows-gnu"
  }

  function BinTail(t: Triple): string {
    TripleName(t) + if IsWindowsTriple(t) || t == WinX64Gnu then ".exe" else ""
  }

  function ListenerName(platform: Platform): string {
    match platform
    case Windows => "windows-key-listener.exe"
    case Darwin => "macos-key-listener"
    case Linux => "linux-key-listener"
    case Unix => ""
  }

  /** The file a path stands for, below the project root. */
  function FileName(p: Path): string {
    match p
    case ExternalBin(kind, t) =>
      "src-tauri/bin/" + ((if kind == Sidecar then "python-sidecar-" else "lausu-worker-") + BinTail(t))
    case NativeResource(platform) => "src-tauri/resources/native/" + ListenerName(platform)
    case ScriptCopy(name) => "src-tauri/resources/linux-scripts/" + name
    case ScriptSource(name) => "scripts/linux/" + name
    case Other(name) => name
  }

  /** What the three commands touch or read. */
  predicate IsKnown(p: Path) {
    SpecAt(p).Some? || p.ScriptCopy? || p.ScriptSource?
  }

  lemma BinTailsDiffer(t: Triple, u: Triple)
    ensures BinTail(t) == BinTail(u) <==> t == u
  {
    assert |BinTail(WinX64Msvc)| == 26 && |BinTail(WinArm64Msvc)| == 27 && |BinTail(MacX64)| == 19;
    assert |BinTail(MacArm64)| == 20 && |BinTail(LinuxX64)| == 24 && |BinTail(LinuxArm64)| == 25;
    assert |BinTail(WinX64Gnu)| == 25 && BinTail(WinX64Gnu)[0] == 'x' && BinTail(LinuxArm64)[0] == 'a';
  }

  /** Four characters of a file name tell which kind of path it is. */
  lemma FileNameKinds(p: Path)
    requires IsKnown(p)
    ensures var s := FileName(p);
            && |s| > 13 && (s[1] == 'c' <==> p.ScriptSource?)
            && (!p.ScriptSource? ==>
                  |s| > 20 && (s[10] == 'b' <==> p.ExternalBin?) && (s[20] == 'l' ==> !p.NativeResource?))
            && (p.ScriptCopy? ==> s[20] == 'l')
  {
    hide BinTail;
    var bin, native := "src-tauri/bin/", "src-tauri/resources/native/";
    var copies, source := "src-tauri/resources/linux-scripts/", "scripts/linux/";
    assert |bin| == 14 && |native| == 27 && |copies| == 34 && |source| == 14;
    assert source[1] == 'c' && bin[1] == native[1] == copies[1] == 'r';
    assert bin[10] == 'b' && native[10] == copies[10] == 'r' && native[20] == 'n' && copies[20] == 'l';
  }

  /** Different paths stand for different files: the datatype adds no distinctness of its own. */
  lemma FileNamesDiffer(p: Path, q: Path)
    requires IsKnown(p) && IsKnown(q)
    ensures FileName(p) == FileName(q) <==> p == q
  {
    hide BinTail;
    FileNameKinds(p);
    FileNameKinds(q);
    if FileName(p) == FileName(q) {
      var bin, native := "src-tauri/bin/", "src-tauri/resources/native/";
      var copies, source := "src-tauri/resources/linux-scripts/", "scripts/linux/";
      assert |bin| == 14 && |native| == 27 && |copies| == 34 && |source| == 14;
      match (p, q)
      case (ExternalBin(k, t), ExternalBin(j, u)) =>
        BinNamesDiffer(k, t, j, u, bin);
      case (NativeResource(a), NativeResource(b)) =>
        assert FileName(p)[27..] == ListenerName(a) && FileName(q)[27..] == ListenerName(b);
        assert ListenerName(a)[0] == ListenerName(b)[0];
      case (ScriptCopy(a), ScriptCopy(b)) =>
        assert FileName(p)[34..] == a && FileName(q)[34..] == b;
      case (ScriptSource(a), ScriptSource(b)) =>
        assert FileName(p)[14..] == a && FileName(q)[14..] == b;
      case _ =>
        assert false;
    }
  }

  lemma BinNamesDiffer(k: Kind, t: Triple, j: Kind, u: Triple, bin: string)
    requires k != Native && j != Native && |bin| == 14
    requires bin + ((if k == Sidecar then "python-sidecar-" else "lausu-worker-") + BinTail(t))
          == bin + ((if j == Sidecar then "python-sidecar-" else "lausu-worker-") + BinTail(u))
    ensures k == j && t == u
  {
    hide BinTail;
    var sidecar, worker := "python-sidecar-", "lausu-worker-";
    var a := (if k == Sidecar then sidecar else worker) + BinTail(t);
    var b := (if j == Sidecar then sidecar else worker) + BinTail(u);
    assert a == (bin + a)[14..] == (bin + b)[14..] == b;
    assert a[0] == b[0] && sidecar[0] == 'p' && worker[0] == 'l';
    var n := if k == Sidecar then |sidecar| else |worker|;
    assert a[n..] == BinTail(t) && b[n..] == BinTail(u);
    BinTailsDiffer(t, u);
  }

  predicate EndsIn(s: string, suffix: string) {
    |s| >= |suffix| && s[|s| - |suffix|..] == suffix
  }

  lemma BinTailPlatform(t: Triple)
    ensures |BinTail(t)| >= 4 && (EndsIn(BinTail(t), ".exe") <==> IsWindowsTriple(t) || t == WinX64Gnu)
  {
    var exe := ".exe";
    assert exe[0] == '.';
    assert EndsIn(TripleName(t) + exe, exe);
    assert EndsIn(BinTail(t), exe) ==> BinTail(t)[|BinTail(t)| - 4..][0] == '.';
    assert TripleName(MacX64)[15] == 'r' && TripleName(MacArm64)[16] == 'r';
    assert TripleName(LinuxX64)[20] == '-' && TripleName(LinuxArm64)[21] == '-';
  }

  lemma ListenerPlatform(platform: Platform)
    requires platform != Unix
    ensures |ListenerName(platform)| >= 4 && (EndsIn(ListenerName(platform), ".exe") <==> platform == Windows)
  {
    var exe, name := ".exe", ListenerName(platform);
    assert exe[0] == '.';
    assert platform == Windows ==> name[20..] == exe;
    assert EndsIn(name, exe) ==> name[|name| - 4..][0] == '.';
  }

  lemma SuffixOfSum(a: string, b: string, suffix: string)
    requires |b| >= |suffix|
    ensures EndsIn(a + b, suffix) <==> EndsIn(b, suffix)
  {
    assert (a + b)[|a + b| - |suffix|..] == b[|b| - |suffix|..];
  }

  /** An owned file gets the batch-file stub exactly when its name ends in `.exe`. */
  lemma WindowsExactlyExe(p: Path)
    requires SpecAt(p).Some?
    ensures SpecAt(p).value.platform == Windows <==> EndsIn(FileName(p), ".exe")
  {
    hide BinTail, EndsIn, ListenerName;
    match p
    case ExternalBin(kind, t) =>
      var base := if kind == Sidecar then "python-sidecar-" else "lausu-worker-";
      BinTailPlatform(t);
      SuffixOfSum(base, BinTail(t), ".exe");
      SuffixOfSum("src-tauri/bin/", base + BinTail(t), ".exe");
    case NativeResource(platform) =>
      ListenerPlatform(platform);
      SuffixOfSum("src-tauri/resources/native/", ListenerName(platform), ".exe");
  }

  ghost predicate NoSpecTwice(specs: seq<Spec>) {
    forall i, j | 0 <= i < j < |specs| :: specs[i] != specs[j]
  }

  lemma {:induction false} BinSpecsOnce(triples: seq<Triple>)
    requires forall i, j | 0 <= i < j < |triples| :: triples[i] != triples[j]
    ensures NoSpecTwice(BinSpecs(triples))
    ensures forall s | s in BinSpecs(triples) :: s.path.ExternalBin? && s.path.triple in triples
  {
    if triples != [] {
      BinSpecsOnce(triples[1..]);
      var t, rest := triples[0], BinSpecs(triples[1..]);
      assert t !in triples[1..];
      assert forall s | s in rest :: s.path.triple != t;
      var specs := BinSpecs(triples);
      assert specs[2..] == rest;
      forall i, j | 0 <= i < j < |specs| ensures specs[i] != specs[j] {
        if i >= 2 {
          assert rest[i - 2] != rest[j - 2];
        } else if j >= 2 {
          assert specs[j] == rest[j - 2] && specs[j] in rest;
        }
      }
    }
  }

  /** No spec is listed twice, so the commands visit every owned file once. */
  lemma NoSpecListedTwice()
    ensures NoSpecTwice(ALL_SPECS)
  {
    hide BinSpecs;
    BinSpecsOnce(SIDECAR_TRIPLES);
    AllTriples(WinX64Gnu);
    FixedSpecsOnce();
    SpecsInParts(BinSpecs(SIDECAR_TRIPLES), GNU_SPECS, NATIVE_SPECS);
  }

  lemma FixedSpecsOnce()
    ensures NoSpecTwice(GNU_SPECS) && NoSpecTwice(NATIVE_SPECS)
    ensures forall s | s in GNU_SPECS :: s.path.ExternalBin? && s.path.triple == WinX64Gnu
    ensures forall s | s in NATIVE_SPECS :: s.path.NativeResource?
  {
  }

  lemma SpecsInParts(bins: seq<Spec>, gnu: seq<Spec>, native: seq<Spec>)
    requires NoSpecTwice(bins) && NoSpecTwice(gnu) && NoSpecTwice(native)
    requires forall s | s in bins :: s !in gnu && s !in native
    requires forall s | s in gnu :: s !in native
    ensures NoSpecTwice(bins + gnu + native)
  {
    var all := bins + gnu + native;
    var n, m := |bins|, |bins| + |gnu|;
    forall i | 0 <= i < |all|
      ensures i < n ==> all[i] == bins[i] && all[i] in bins
      ensures n <= i < m ==> all[i] == gnu[i - n] && all[i] in gnu
      ensures m <= i ==> all[i] == native[i - m] && all[i] in native
    {
    }
  }

  // ----------------------------------------------------------------- stub contents

  const STUB_MARKER: string := "STUB: not a real sidecar"
  const MIN_REAL_BINARY_SIZE: nat := 512

  function KindName(kind: Kind): (s: string)
    ensures |s| <= 7
  {
    match kind
    case Sidecar => "sidecar"
    case Worker => "worker"
    case Native => "native"
  }

  function StubContent(platform: Platform, kind: Kind): string {
    if platform == Windows then
      "@echo off\recho " + (STUB_MARKER + (" (" + KindName(kind) + ")" + " >&2\rexit /b 1\r"))
    else
      "#!/bin/sh\necho '" + (STUB_MARKER + (" (" + KindName(kind) + ")" + "' >&2\nexit 1\n"))
  }

  /** The marker within the first 8 KB. */
  predicate IsStub(data: string) {
    Contains(data[..if |data| < 8192 then |data| else 8192], STUB_MARKER)
  }

  /** The marker stands at `i`, within the first 8 KB. */
  predicate MarkerAt(data: string, i: nat) {
    i + |STUB_MARKER| <= |data| && i + |STUB_MARKER| <= 8192 && data[i..i + |STUB_MARKER|] == STUB_MARKER
  }

  /** What a compiled binary looks like, byte by byte: large, and the marker nowhere in its first 8 KB. */
  ghost predicate IsRealArtifact(data: string) {
    |data| >= 512 && forall i: nat :: !MarkerAt(data, i)
  }

  /** A file is taken for a stub exactly when the marker stands somewhere in its first 8 KB. */
  lemma StubExactly(data: string)
    ensures IsStub(data) <==> exists i: nat :: MarkerAt(data, i)
  {
    hide STUB_MARKER;
    var head := data[..if |data| < 8192 then |data| else 8192];
    ContainsIffOccurs(head, STUB_MARKER);
    if i :| OccursAt(head, STUB_MARKER, i) {
      assert head[i..i + |STUB_MARKER|] == data[i..i + |STUB_MARKER|];
      assert MarkerAt(data, i);
    }
    if i: nat :| MarkerAt(data, i) {
      assert head[i..i + |STUB_MARKER|] == data[i..i + |STUB_MARKER|];
      assert OccursAt(head, STUB_MARKER, i);
    }
  }

  lemma RealIsNoStub(data: string)
    ensures IsRealArtifact(data) <==> |data| >= MIN_REAL_BINARY_SIZE && !IsStub(data)
  {
    StubExactly(data);
  }

  lemma StubContentIsStub(platform: Platform, kind: Kind)
    ensures 0 < |StubContent(platform, kind)| < MIN_REAL_BINARY_SIZE
    ensures IsStub(StubContent(platform, kind))
  {
    var content := StubContent(platform, kind);
    var pre := if platform == Windows then "@echo off\recho " else "#!/bin/sh\necho '";
    assert content[..|content|] == content;
    assert content[|pre|..|pre| + |STUB_MARKER|] == STUB_MARKER;
    assert OccursAt(content, STUB_MARKER, |pre|);
    ContainsIffOccurs(content, STUB_MARKER);
  }

  function Label(kind: Kind): string {
    STUB_MARKER + " (" + KindName(kind) + ")"
  }

  /** A stub names its kind behind the marker. */
  lemma StubNamesKind(platform: Platform, kind: Kind)
    ensures Contains(StubContent(platform, kind), Label(kind))
  {
    hide STUB_MARKER;
    var content := StubContent(platform, kind);
    var head := if platform == Windows then "@echo off\recho " else "#!/bin/sh\necho '";
    var tail := if platform == Windows then " >&2\rexit /b 1\r" else "' >&2\nexit 1\n";
    assert content == head + Label(kind) + tail by {
      assert Label(kind) == STUB_MARKER + (" (" + KindName(kind) + ")");
    }
    OccursBetween(head, Label(kind), tail);
  }

  lemma OccursBetween(head: string, middle: string, tail: string)
    ensures Contains(head + middle + tail, middle)
  {
    var s := head + middle + tail;
    assert s[|head|..|head| + |middle|] == middle;
    assert OccursAt(s, middle, |head|);
    ContainsIffOccurs(s, middle);
  }

  /** Platform family and kind are all a stub depends on, and both can be told from it. */
  lemma StubsDiffer(platform: Platform, kind: Kind, platform': Platform, kind': Kind)
    ensures StubContent(platform, kind) == StubContent(platform', kind')
            <==> (platform == Windows <==> platform' == Windows) && kind == kind'
    ensures StubContent(platform, kind)[0] == '#' <==> platform != Windows
  {
    hide STUB_MARKER;
    var a, b := StubContent(platform, kind), StubContent(platform', kind');
    assert a[0] == (if platform == Windows then '@' else '#') && b[0] == (if platform' == Windows then '@' else '#');
    if platform == Windows <==> platform' == Windows {
      var at := (if platform == Windows then 15 else 16) + |STUB_MARKER| + 2;
      assert a[at] == KindName(kind)[0] && b[at] == KindName(kind')[0];
    }
  }

  datatype Problem = StubMismatch | NotOurs | EmptyFile | StubTruncated | TooSmall

  /** `_stub_problems`: at most one problem. */
  function StubProblem(data: string, platform: Platform, kind: Kind): Option<Problem> {
    var canonical := StubContent(platform, kind);
    if |data| == |canonical| then
      if data == canonical then None else if IsStub(data) then Some(StubMismatch) else Some(NotOurs)
    else if |data| == 0 then Some(EmptyFile)
    else if |data| < MIN_REAL_BINARY_SIZE then
      if IsStub(data) then Some(StubTruncated) else Some(TooSmall)
    else None
  }

  /** A file at a stub path passes exactly when it is the stub itself or has a real size. */
  lemma PassesExactly(data: string, platform: Platform, kind: Kind)
    ensures StubProblem(data, platform, kind) == None
       <==> data == StubContent(platform, kind) || |data| >= MIN_REAL_BINARY_SIZE
  {
    hide StubContent, IsStub;
    StubContentIsStub(platform, kind);
  }

  /** Size alone is enough: a file that carries the marker passes once it is padded. */
  lemma LargeStubPasses(platform: Platform, kind: Kind) returns (data: string)
    ensures IsStub(data) && StubProblem(data, platform, kind) == None
  {
    hide StubProblem;
    hide StubContent, IsStub, STUB_MARKER;
    var content := StubContent(platform, kind);
    StubContentIsStub(platform, kind);
    data := content + seq(MIN_REAL_BINARY_SIZE, i => 'x');
    PassesExactly(data, platform, kind);
    StubExactly(content);
    var at: nat :| MarkerAt(content, at);
    assert data[at..at + |STUB_MARKER|] == content[at..at + |STUB_MARKER|];
    assert MarkerAt(data, at);
    StubExactly(data);
  }

  // ------------------------------------------------------- what each command leaves

  type Files = map<Path, string>

  function At(files: Files, p: Path): Option<string> {
    if p in files then Some(files[p]) else None
  }

  predicate IsScriptCopy(p: Path) {
    p.ScriptCopy? && p.name in SCRIPTS
  }

  /** The file at `p` after generate. */
  function GeneratedAt(files: Files, p: Path): Option<string> {
    if IsScriptCopy(p) && ScriptSource(p.name) in files then Some(files[ScriptSource(p.name)])
    else if SpecAt(p).Some?
            && (p !in files || StubProblem(files[p], SpecAt(p).value.platform, SpecAt(p).value.kind).Some?)
    then Some(StubContent(SpecAt(p).value.platform, SpecAt(p).value.kind))
    else At(files, p)
  }

  /** The file at `p` after clean. */
  function CleanedAt(files: Files, p: Path): Option<string> {
    if SpecAt(p).Some? && p in files && IsStub(files[p]) then None else At(files, p)
  }

  ghost predicate PassesCheck(files: Files) {
    && (forall p | SpecAt(p).Some? ::
          p in files && StubProblem(files[p], SpecAt(p).value.platform, SpecAt(p).value.kind) == None)
    && (forall name | name in SCRIPTS ::
          ScriptSource(name) in files && At(files, ScriptCopy(name)) == Some(files[ScriptSource(name)]))
  }

  ghost predicate IsGenerated(files: Files, files': Files) {
    forall p :: At(files', p) == GeneratedAt(files, p)
  }

  ghost predicate IsCleaned(files: Files, files': Files) {
    forall p :: At(files', p) == CleanedAt(files, p)
  }

  ghost predicate Marked(data: string) {
    exists i: nat :: MarkerAt(data, i)
  }

  /** Clean takes away exactly the owned files that carry the marker in their first 8 KB. */
  lemma CleanedExactly(files: Files, files': Files)
    requires IsCleaned(files, files')
    ensures forall p :: At(files', p)
              == if SpecAt(p).Some? && p in files && Marked(files[p]) then None else At(files, p)
  {
    hide IsStub, MarkerAt, SpecAt;
    forall p ensures At(files', p) == if SpecAt(p).Some? && p in files && Marked(files[p]) then None else At(files, p) {
      if p in files { StubExactly(files[p]); }
    }
  }

  /** How many of the specs' files carry the marker (or, with `stubs` false, exist without it). */
  function CountOwned(files: Files, specs: seq<Spec>, stubs: bool): nat {
    if specs == [] then 0
    else
      var s := specs[|specs| - 1];
      CountOwned(files, specs[..|specs| - 1], stubs)
      + (if s.path in files && IsStub(files[s.path]) == stubs then 1 else 0)
  }

  /** The working tree the commands act on. */
  class StubTree {
    var files: Files

    constructor (files: Files)
      ensures this.files == files
    {
      this.files := files;
    }

    /** `_sync_linux_scripts`. */
    method SyncLinuxScripts()
      modifies this
      ensures forall p :: At(files, p)
                == if IsScriptCopy(p) && ScriptSource(p.name) in old(files) then Some(old(files)[ScriptSource(p.name)])
                   else At(old(files), p)
    {
      hide SCRIPTS;
      ghost var before := files;
      for i := 0 to |SCRIPTS|
        invariant forall p :: At(files, p)
                    == if p.ScriptCopy? && p.name in SCRIPTS[..i] && ScriptSource(p.name) in before
                       then Some(before[ScriptSource(p.name)]) else At(before, p)
      {
        var name := SCRIPTS[i];
        var src, dst := ScriptSource(name), ScriptCopy(name);
        assert At(files, src) == At(before, src);
        if src in files {
          if dst !in files || files[dst] != files[src] {
            files := files[dst := files[src]];
          }
        }
        assert SCRIPTS[..i + 1] == SCRIPTS[..i] + [name];
      }
      assert SCRIPTS[..|SCRIPTS|] == SCRIPTS;
    }

    /** `_write_stub_file_if_needed`. */
    method WriteStubFileIfNeeded(s: Spec)
      requires SpecAt(s.path) == Some(s)
      modifies this
      ensures forall p :: At(files, p) == if p == s.path then GeneratedAt(old(files), p) else At(old(files), p)
    {
      if s.path in files && StubProblem(files[s.path], s.platform, s.kind) == None {
        return;
      }
      files := files[s.path := StubContent(s.platform, s.kind)];
    }

    method Generate()
      modifies this
      ensures IsGenerated(old(files), files)
    {
      hide StubContent, IsStub, StubProblem, ALL_SPECS, SCRIPTS, SpecAt;
      ghost var before := files;
      SyncLinuxScripts();
      ghost var synced := files;
      RegistryIsFunctional();
      for i := 0 to |ALL_SPECS|
        invariant forall p :: At(files, p)
                    == if SpecAt(p).Some? && SpecAt(p).value in ALL_SPECS[..i] then GeneratedAt(before, p)
                       else At(synced, p)
      {
        var s := ALL_SPECS[i];
        assert ALL_SPECS[..i + 1] == ALL_SPECS[..i] + [s];
        ghost var now := files;
        HealTwice(before, now, s);
        WriteStubFileIfNeeded(s);
      }
      assert ALL_SPECS[..|ALL_SPECS|] == ALL_SPECS;
    }

    /** Exit code of `--check`, and how many findings it prints. */
    method Check() returns (code: int, findings: nat)
      ensures code == (if PassesCheck(files) then 0 else 1)
      ensures findings == 0 <==> code == 0
    {
      hide StubContent, IsStub, StubProblem, ALL_SPECS, SCRIPTS, SpecAt, PassesCheck;
      findings := 0;
      RegistryIsFunctional();
      for i := 0 to |ALL_SPECS|
        invariant findings == 0 <==> forall j | 0 <= j < i :: SpecHolds(files, ALL_SPECS[j])
      {
        var s := ALL_SPECS[i];
        if s.path !in files {
          findings := findings + 1;
        } else if StubProblem(files[s.path], s.platform, s.kind).Some? {
          findings := findings + 1;
        }
      }
      ghost var stubsHold := findings == 0;
      SpecsHold(files);
      for i := 0 to |SCRIPTS|
        invariant findings == 0 <==> stubsHold && forall j | 0 <= j < i :: ScriptHolds(files, SCRIPTS[j])
      {
        var src, dst := ScriptSource(SCRIPTS[i]), ScriptCopy(SCRIPTS[i]);
        if src !in files {
          findings := findings + 1;
        } else if dst !in files {
          findings := findings + 1;
        } else if files[dst] != files[src] {
          findings := findings + 1;
        }
      }
      code := if findings != 0 then 1 else 0;
    }

    /** The numbers it prints are those of the stubs deleted and of the other owned files left. */
    method Clean() returns (removed: nat, skipped: nat)
      modifies this
      ensures IsCleaned(old(files), files)
      ensures forall p :: At(files, p)
                == if SpecAt(p).Some? && p in old(files) && Marked(old(files)[p]) then None else At(old(files), p)
      ensures removed == CountOwned(old(files), ALL_SPECS, true)
      ensures skipped == CountOwned(old(files), ALL_SPECS, false)
    {
      hide StubContent, IsStub, StubProblem, ALL_SPECS, SCRIPTS, SpecAt;
      ghost var before := files;
      removed, skipped := 0, 0;
      RegistryIsFunctional();
      NoSpecListedTwice();
      for i := 0 to |ALL_SPECS|
        invariant removed == CountOwned(before, ALL_SPECS[..i], true)
        invariant skipped == CountOwned(before, ALL_SPECS[..i], false)
        invariant forall p :: At(files, p)
                    == if SpecAt(p).Some? && SpecAt(p).value in ALL_SPECS[..i] then CleanedAt(before, p)
                       else At(before, p)
      {
        var s := ALL_SPECS[i];
        assert ALL_SPECS[..i + 1] == ALL_SPECS[..i] + [s];
        assert ALL_SPECS[..i + 1][..i] == ALL_SPECS[..i];
        assert s !in ALL_SPECS[..i];
        assert At(files, s.path) == At(before, s.path);
        if s.path in files {
          if !IsStub(files[s.path]) {
            skipped := skipped + 1;
          } else {
            files := files - {s.path};
            removed := removed + 1;
          }
        }
      }
      assert ALL_SPECS[..|ALL_SPECS|] == ALL_SPECS;
      CleanedExactly(before, files);
    }
  }

  predicate SpecHolds(files: Files, s: Spec) {
    s.path in files && StubProblem(files[s.path], s.platform, s.kind) == None
  }

  predicate ScriptHolds(files: Files, name: string) {
    ScriptSource(name) in files && At(files, ScriptCopy(name)) == Some(files[ScriptSource(name)])
  }

  lemma SpecsHold(files: Files)
    ensures PassesCheck(files)
       <==> && (forall j | 0 <= j < |ALL_SPECS| :: SpecHolds(files, ALL_SPECS[j]))
            && (forall j | 0 <= j < |SCRIPTS| :: ScriptHolds(files, SCRIPTS[j]))
  {
    hide StubProblem, ALL_SPECS, SCRIPTS, SpecAt;
    RegistryIsFunctional();
    if forall j | 0 <= j < |ALL_SPECS| :: SpecHolds(files, ALL_SPECS[j]) {
      forall p | SpecAt(p).Some?
        ensures SpecHolds(files, SpecAt(p).value) && SpecAt(p).value.path == p
      {
      }
    }
    if PassesCheck(files) {
      forall j | 0 <= j < |ALL_SPECS| ensures SpecHolds(files, ALL_SPECS[j]) {
        assert SpecAt(ALL_SPECS[j].path) == Some(ALL_SPECS[j]);
      }
    }
  }

  /** Healing a path a second time changes nothing. */
  lemma HealTwice(before: Files, now: Files, s: Spec)
    requires SpecAt(s.path) == Some(s)
    requires At(now, s.path) == At(before, s.path) || At(now, s.path) == GeneratedAt(before, s.path)
    ensures GeneratedAt(now, s.path) == GeneratedAt(before, s.path)
  {
    hide StubContent, IsStub;
    PassesExactly(StubContent(s.platform, s.kind), s.platform, s.kind);
  }

  // ------------------------------------------------------------------ main results

  datatype Command = GenerateStubs | CheckStubs | CleanStubs

  ghost predicate Does(command: Command, files: Files, files': Files) {
    match command
    case GenerateStubs => IsGenerated(files, files')
    case CheckStubs => files' == files
    case CleanStubs => IsCleaned(files, files')
  }

  /** The trees before, between and after a sequence of commands. */
  ghost predicate IsRun(states: seq<Files>, commands: seq<Command>) {
    |states| == |commands| + 1 && forall i | 0 <= i < |commands| :: Does(commands[i], states[i], states[i + 1])
  }

  ghost predicate SourcesExist(files: Files) {
    forall name | name in SCRIPTS :: ScriptSource(name) in files
  }

  lemma StepAt(command: Command, files: Files, files': Files, p: Path)
    requires Does(command, files, files')
    ensures SpecAt(p).None? && !IsScriptCopy(p) ==> At(files', p) == At(files, p)
    ensures SpecAt(p).Some? ==>
              var s := SpecAt(p).value;
              && (At(files', p) == At(files, p) || At(files', p) == None
                  || At(files', p) == Some(StubContent(s.platform, s.kind)))
              && (p in files && IsRealArtifact(files[p]) ==> At(files', p) == At(files, p))
              && (At(files', p) == None && p in files ==> IsStub(files[p]))
  {
    hide StubContent, IsStub, SCRIPTS, IsRealArtifact;
    if SpecAt(p).Some? && p in files {
      RealIsNoStub(files[p]);
      PassesExactly(files[p], SpecAt(p).value.platform, SpecAt(p).value.kind);
    }
    match command
    case GenerateStubs => assert At(files', p) == GeneratedAt(files, p);
    case CheckStubs =>
    case CleanStubs => assert At(files', p) == CleanedAt(files, p);
  }

  /** Over any sequence of commands a real artifact at a stub path stays byte for byte. */
  lemma {:induction false} RealArtifactsSurvive(states: seq<Files>, commands: seq<Command>, p: Path, i: nat)
    requires IsRun(states, commands) && i < |states|
    requires SpecAt(p).Some? && p in states[0] && IsRealArtifact(states[0][p])
    ensures p in states[i] && states[i][p] == states[0][p]
  {
    hide IsRealArtifact, Does, SpecAt;
    if i > 0 {
      RealArtifactsSurvive(states, commands, p, i - 1);
      assert Does(commands[i - 1], states[i - 1], states[i]);
      StepAt(commands[i - 1], states[i - 1], states[i], p);
      assert At(states[i], p) == At(states[i - 1], p);
    }
  }

  lemma GenerateExists(files: Files) returns (files': Files)
    ensures IsGenerated(files, files')
  {
    hide StubContent, StubProblem, ALL_SPECS, SCRIPTS, SpecAt;
    RegistryIsFunctional();
    var owned := set i | 0 <= i < |ALL_SPECS| :: ALL_SPECS[i].path;
    var copies := set i | 0 <= i < |SCRIPTS| :: ScriptCopy(SCRIPTS[i]);
    files' := map q | q in files.Keys + owned + copies && GeneratedAt(files, q).Some? :: GeneratedAt(files, q).value;
    forall p
      ensures At(files', p) == GeneratedAt(files, p)
    {
      if SpecAt(p).Some? {
        var i :| 0 <= i < |ALL_SPECS| && ALL_SPECS[i] == SpecAt(p).value;
        assert ALL_SPECS[i].path in owned;
      } else if IsScriptCopy(p) {
        var i :| 0 <= i < |SCRIPTS| && SCRIPTS[i] == p.name;
        assert ScriptCopy(SCRIPTS[i]) in copies;
      }
    }
  }

  lemma CleanExists(p: Path, data: string) returns (files': Files)
    requires SpecAt(p).Some? && IsStub(data)
    ensures IsCleaned(map[p := data], files') && p !in files'
  {
    hide IsStub, SpecAt;
    files' := map[];
  }

  /** One command may take away any other content. */
  lemma NotReal(p: Path, data: string) returns (command: Command, files': Files)
    requires SpecAt(p).Some? && !IsRealArtifact(data)
    ensures Does(command, map[p := data], files') && At(files', p) != Some(data)
  {
    hide IsStub, StubContent, SCRIPTS, IsRealArtifact;
    RealIsNoStub(data);
    if IsStub(data) {
      files' := CleanExists(p, data);
      command := CleanStubs;
    } else {
      files' := GenerateExists(map[p := data]);
      command := GenerateStubs;
      var s := SpecAt(p).value;
      StubContentIsStub(s.platform, s.kind);
      PassesExactly(data, s.platform, s.kind);
      CopiesAreNoStubs(p);
      assert At(files', p) == GeneratedAt(map[p := data], p);
    }
  }

  /** Over all sequences of commands a content at a stub path is safe exactly when it is a real artifact. */
  lemma SafeExactlyRealArtifacts(p: Path, data: string)
    requires SpecAt(p).Some?
    ensures (forall states, commands, i
               | IsRun(states, commands) && 0 <= i < |states| && At(states[0], p) == Some(data) ::
               At(states[i], p) == Some(data))
       <==> IsRealArtifact(data)
  {
    hide IsRealArtifact, Does, SpecAt;
    if IsRealArtifact(data) {
      forall states, commands, i | IsRun(states, commands) && 0 <= i < |states| && At(states[0], p) == Some(data)
        ensures At(states[i], p) == Some(data)
      {
        RealArtifactsSurvive(states, commands, p, i);
      }
    } else {
      var command, files' := NotReal(p, data);
      var states, commands := [map[p := data], files'], [command];
      assert IsRun(states, commands) && At(states[0], p) == Some(data) && At(states[1], p) != Some(data);
    }
  }

  /** Over any sequence of commands a stub path holds its first content, its canonical stub, or nothing;
      paths that are neither stubs nor script copies never change. */
  lemma {:induction false} OnlyStubsAppear(states: seq<Files>, commands: seq<Command>, p: Path, i: nat)
    requires IsRun(states, commands) && i < |states|
    ensures SpecAt(p).Some? ==>
              var s := SpecAt(p).value;
              At(states[i], p) == At(states[0], p) || At(states[i], p) == None
              || At(states[i], p) == Some(StubContent(s.platform, s.kind))
    ensures SpecAt(p).None? && !IsScriptCopy(p) ==> At(states[i], p) == At(states[0], p)
  {
    hide StubContent, Does, SpecAt, IsStub, IsScriptCopy;
    if i > 0 {
      OnlyStubsAppear(states, commands, p, i - 1);
      assert Does(commands[i - 1], states[i - 1], states[i]);
      StepAt(commands[i - 1], states[i - 1], states[i], p);
    }
  }

  /** Generate leaves no stub problem, and the check passes right after it exactly when every
      canonical Linux script was there to be copied. */
  lemma GenerateHeals(files: Files, files': Files)
    requires IsGenerated(files, files')
    ensures forall s | s in ALL_SPECS :: SpecHolds(files', s)
    ensures PassesCheck(files') <==> SourcesExist(files)
  {
    hide StubContent, IsStub, StubProblem, SCRIPTS, ALL_SPECS, SpecAt;
    RegistryIsFunctional();
    forall s | s in ALL_SPECS
      ensures SpecHolds(files', s)
    {
      CopiesAreNoStubs(s.path);
      PassesExactly(StubContent(s.platform, s.kind), s.platform, s.kind);
      assert At(files', s.path) == GeneratedAt(files, s.path);
    }
    SpecsHold(files');
    forall name | name in SCRIPTS
      ensures ScriptHolds(files', name) <==> ScriptSource(name) in files
    {
      SourceIsNoSpec(name);
      assert At(files', ScriptSource(name)) == GeneratedAt(files, ScriptSource(name)) == At(files, ScriptSource(name));
      assert At(files', ScriptCopy(name)) == GeneratedAt(files, ScriptCopy(name));
    }
  }

  lemma CopiesAreNoStubs(p: Path)
    ensures IsScriptCopy(p) ==> SpecAt(p) == None
  {
  }

  lemma SourceIsNoSpec(name: string)
    ensures SpecAt(ScriptSource(name)) == None == SpecAt(ScriptCopy(name))
  {
  }

  /** `--check || generate`: the check passes exactly when generating would change nothing and no
      canonical script is missing. */
  lemma CheckPassesIffGenerateIdle(files: Files)
    ensures PassesCheck(files) <==> IsGenerated(files, files) && SourcesExist(files)
  {
    hide StubContent, IsStub, StubProblem, SCRIPTS, SpecAt;
    if IsGenerated(files, files) {
      GenerateHeals(files, files);
    }
    if PassesCheck(files) {
      forall p
        ensures At(files, p) == GeneratedAt(files, p)
      {
      }
    }
  }

  lemma GeneratedTwiceAt(files: Files, files': Files, p: Path)
    requires IsGenerated(files, files')
    ensures GeneratedAt(files', p) == At(files', p)
  {
    hide StubContent, IsStub, StubProblem, SCRIPTS, SpecAt, ALL_SPECS;
    GenerateHeals(files, files');
    assert At(files', p) == GeneratedAt(files, p);
    if IsScriptCopy(p) {
      SourceIsNoSpec(p.name);
      assert At(files', ScriptSource(p.name)) == GeneratedAt(files, ScriptSource(p.name));
    } else if SpecAt(p).Some? {
      RegistryAt(p);
      assert SpecHolds(files', SpecAt(p).value);
    }
  }

  lemma SameFiles(files: Files, files': Files)
    requires forall p :: At(files, p) == At(files', p)
    ensures files == files'
  {
    forall p ensures p in files <==> p in files' { assert At(files, p) == At(files', p); }
    forall p | p in files ensures files[p] == files'[p] { assert At(files, p) == At(files', p); }
  }

  /** Generating twice is generating once. */
  lemma GenerateIdempotent(files: Files, files': Files, files'': Files)
    requires IsGenerated(files, files') && IsGenerated(files', files'')
    ensures files'' == files'
  {
    hide GeneratedAt, At;
    forall p
      ensures At(files'', p) == At(files', p)
    {
      GeneratedTwiceAt(files, files', p);
    }
    SameFiles(files'', files');
  }

  /** Generate then clean leaves, at every stub path, exactly the real artifact that was there before. */
  lemma GenerateThenClean(files: Files, files': Files, files'': Files, p: Path)
    requires IsGenerated(files, files') && IsCleaned(files', files'') && SpecAt(p).Some?
    ensures At(files'', p) == if p in files && IsRealArtifact(files[p]) then Some(files[p]) else None
  {
    hide StubContent, IsStub, SCRIPTS, IsRealArtifact;
    var s := SpecAt(p).value;
    StubContentIsStub(s.platform, s.kind);
    assert At(files', p) == GeneratedAt(files, p);
    assert At(files'', p) == CleanedAt(files', p);
    if p in files {
      RealIsNoStub(files[p]);
      PassesExactly(files[p], s.platform, s.kind);
    }
  }
}
