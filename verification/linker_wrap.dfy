/**
 * The response-file rewriter of src-tauri/toolchain/linker_wrap.c: paths are un-escaped in place in
 * a C buffer, copied artifacts are escaped again into a bounded one, and every other line stays.
 */
module LinkerWrap {
  import opened Wrappers

  const MAX_PATH: nat := 260
  const LINE_BUFFER: nat := 16384
  const WL: string := "-Wl,"

  // ------------------------------------------------------------------- C strings

  /** `strlen`, or the whole length when there is no terminator. */
  function StrLen(s: seq<char>): (n: nat)
    ensures n <= |s|
    ensures forall i | 0 <= i < n :: s[i] != '\0'
    ensures n < |s| ==> s[n] == '\0'
  {
    if s == [] || s[0] == '\0' then 0 else 1 + StrLen(s[1..])
  }

  function CStr(s: seq<char>): string {
    s[..StrLen(s)]
  }

  lemma {:induction false} CStrOf(text: string, rest: seq<char>)
    requires '\0' !in text
    ensures CStr(text + ['\0'] + rest) == text
  {
    var s := text + ['\0'] + rest;
    assert s[|text|] == '\0';
    assert forall i | 0 <= i < |text| :: s[i] == text[i] != '\0';
    assert s[..|text|] == text;
  }

  // --------------------------------------------------------------- escape sequences

  /** Doubled backslashes become single, left to right. */
  function Unescape(s: string): string {
    if s == "" then ""
    else if s[0] == '\\' && |s| > 1 && s[1] == '\\' then "\\" + Unescape(s[2..])
    else [s[0]] + Unescape(s[1..])
  }

  function Escape(s: string): (r: string)
    ensures |s| <= |r| <= 2 * |s|
  {
    if s == "" then "" else (if s[0] == '\\' then "\\\\" else [s[0]]) + Escape(s[1..])
  }

  /** Un-escaping undoes escaping, for every path. */
  lemma {:induction false} UnescapeEscape(s: string)
    ensures Unescape(Escape(s)) == s
  {
    if s != "" {
      UnescapeEscape(s[1..]);
      var rest := Escape(s[1..]);
      if s[0] == '\\' {
        assert ("\\\\" + rest)[2..] == rest;
      } else {
        assert ([s[0]] + rest)[1..] == rest;
      }
    }
  }

  function Backslashes(n: nat): string {
    seq(n, i => '\\')
  }

  lemma OneMore(n: nat, rest: string)
    ensures Backslashes(n + 1) + rest == "\\" + (Backslashes(n) + rest)
  {
  }

  lemma UnescapePair(rest: string)
    ensures Unescape("\\\\" + rest) == "\\" + Unescape(rest)
  {
    assert ("\\\\" + rest)[2..] == rest;
  }

  lemma {:induction false} UnescapeRun(n: nat, rest: string)
    requires rest == "" || rest[0] != '\\'
    ensures Unescape(Backslashes(n) + rest) == Backslashes((n + 1) / 2) + Unescape(rest)
  {
    var s := Backslashes(n) + rest;
    if n >= 2 {
      UnescapeRun(n - 2, rest);
      UnescapePair(Backslashes(n - 2) + rest);
      OneMore((n - 1) / 2, Unescape(rest));
      OneMore(n - 1, rest);
      OneMore(n - 2, rest);
      assert s == "\\\\" + (Backslashes(n - 2) + rest);
    } else if n == 1 {
      assert s[0] == '\\' && s[1..] == rest;
      assert Backslashes(1) == "\\";
    } else {
      assert s == rest;
    }
  }

  /** A run of backslashes is halved, rounding up; characters around the runs stay. */
  lemma {:induction false} UnescapeRuns(before: string, n: nat, rest: string)
    requires '\\' !in before && (rest == "" || rest[0] != '\\')
    ensures Unescape(before + Backslashes(n) + rest) == before + Backslashes((n + 1) / 2) + Unescape(rest)
  {
    hide Backslashes;
    UnescapeRun(n, rest);
    PlainHead(before, Backslashes(n) + rest);
    assert before + (Backslashes(n) + rest) == before + Backslashes(n) + rest;
    assert before + (Backslashes((n + 1) / 2) + Unescape(rest)) == before + Backslashes((n + 1) / 2) + Unescape(rest);
  }

  lemma {:induction false} PlainHead(before: string, rest: string)
    requires '\\' !in before
    ensures Unescape(before + rest) == before + Unescape(rest)
  {
    if before == "" {
      assert before + rest == rest;
    } else {
      PlainHead(before[1..], rest);
      assert (before + rest)[0] == before[0] && (before + rest)[1..] == before[1..] + rest;
      assert before + Unescape(rest) == [before[0]] + (before[1..] + Unescape(rest));
    }
  }

  lemma {:induction false} EscapeSnoc(s: string, c: char)
    ensures Escape(s + [c]) == Escape(s) + (if c == '\\' then "\\\\" else [c])
  {
    if s == "" {
      assert [c][1..] == "" && "" + [c] == [c];
    } else {
      assert (s + [c])[1..] == s[1..] + [c];
      EscapeSnoc(s[1..], c);
    }
  }

  lemma {:induction false} EscapePlain(s: string, c: char)
    requires c !in s && c != '\\'
    ensures c !in Escape(s)
  {
    if s != "" {
      EscapePlain(s[1..], c);
    }
  }

  /** One turn of the un-escape loop: what is still to be written, by position. */
  lemma UnescapeAt(whole: string, d: nat, line: string, p: nat)
    requires d <= |whole| && p < |line| && whole[d..] == Unescape(line[p..])
    ensures var pair := line[p] == '\\' && p + 1 < |line| && line[p + 1] == '\\';
            && d < |whole| && whole[d] == line[p]
            && whole[d + 1..] == Unescape(line[if pair then p + 2 else p + 1..])
  {
    var tail := line[p..];
    assert tail[0] == line[p] && tail[1..] == line[p + 1..];
    if |tail| > 1 {
      assert tail[1] == line[p + 1] && tail[2..] == line[p + 2..];
    }
    assert whole[d + 1..] == whole[d..][1..];
  }

  lemma StrLenBounds(s: seq<char>)
    requires '\0' in s
    ensures StrLen(s) < |s|
  {
  }

  /** The loop of `unescape_path`: the write cursor never gets ahead of the read cursor, and
      nothing behind the old terminator is touched. */
  method CollapsePairs(buf: array<char>, start: nat, ghost n: nat)
    requires start <= n < buf.Length && buf[n] == '\0' && forall i | start <= i < n :: buf[i] != '\0'
    modifies buf
    ensures '\0' in buf[start..]
    ensures CStr(buf[start..]) == Unescape(old(buf[start..n]))
    ensures forall i | 0 <= i < start || n < i < buf.Length :: buf[i] == old(buf[i])
  {
    hide Unescape, StrLen, CStr;
    ghost var line := buf[..n];
    ghost var whole := Unescape(line[start..]);
    assert line[start..] == buf[start..n];
    assert '\0' !in line[start..];
    NoNulUnescape(line[start..]);
    var p, q := start, start;
    while buf[p] != '\0'
      invariant start <= q <= p <= n && q - start <= |whole|
      invariant forall i | 0 <= i < start || p <= i < buf.Length :: buf[i] == old(buf[i])
      invariant forall i | start <= i < q :: buf[i] == whole[i - start]
      invariant whole[q - start..] == Unescape(line[p..])
      decreases n - p
    {
      UnescapeAt(whole, q - start, line, p);
      if buf[p] == '\\' && buf[p + 1] == '\\' {
        buf[q] := '\\';
        p, q := p + 2, q + 1;
      } else {
        buf[q] := buf[p];
        p, q := p + 1, q + 1;
      }
    }
    buf[q] := '\0';
    UnescapeNothing(line[p..]);
    assert |whole| == q - start;
    assert buf[start..][..q - start] == whole;
    EndsAt(buf[start..], whole);
  }

  lemma EndsAt(s: seq<char>, done: string)
    requires |done| < |s| && s[..|done|] == done && s[|done|] == '\0' && '\0' !in done
    ensures '\0' in s && CStr(s) == done
  {
    assert s == done + ['\0'] + s[|done| + 1..];
    CStrOf(done, s[|done| + 1..]);
  }

  lemma UnescapeNothing(s: string)
    ensures s == "" ==> Unescape(s) == ""
  {
  }

  /** `unescape_path`. */
  method UnescapePath(buf: array<char>) returns (start: nat, hadWl: bool)
    requires '\0' in buf[..]
    modifies buf
    ensures hadWl == (WL <= old(CStr(buf[..]))) && start == (if hadWl then 4 else 0)
    ensures start < buf.Length && start <= old(|CStr(buf[..])|) && '\0' in buf[start..]
    ensures CStr(buf[start..]) == Unescape(old(CStr(buf[..]))[start..])
    ensures forall i | 0 <= i < start || old(StrLen(buf[..])) < i < buf.Length :: buf[i] == old(buf[i])
  {
    hide Unescape, StrLen;
    ghost var n := StrLen(buf[..]);
    StrLenBounds(buf[..]);
    hadWl := false;
    start := 0;
    PrefixTest(buf[..]);
    if buf.Length > 4 && buf[0] == '-' && buf[1] == 'W' && buf[2] == 'l' && buf[3] == ',' {
      hadWl, start := true, 4;
    }
    assert buf[start..n] == CStr(buf[..])[start..];
    CollapsePairs(buf, start, n);
  }

  lemma {:induction false} PrefixTest(s: seq<char>)
    requires '\0' in s
    ensures WL <= CStr(s) <==> |s| > 4 && s[0] == '-' && s[1] == 'W' && s[2] == 'l' && s[3] == ','
    ensures StrLen(s) < |s|
  {
    hide StrLen;
    StrLenBounds(s);
    var n := StrLen(s);
    var wl := WL;
    assert |wl| == 4 && wl[0] == '-' && wl[1] == 'W' && wl[2] == 'l' && wl[3] == ',';
    if |s| > 4 && s[0] == '-' && s[1] == 'W' && s[2] == 'l' && s[3] == ',' {
      assert n != 0 && n != 1 && n != 2 && n != 3;
      assert s[..n][..4] == wl;
    }
  }

  /** The escape loop: it stops one pair short of the buffer's end, so it always leaves room for
      the terminator, and it is complete exactly when everything but the last character fits. */
  method EscapePath(path: string, esc: array<char>)
    requires '\0' !in path && esc.Length >= 2
    modifies esc
    ensures '\0' in esc[..]
    ensures CStr(esc[..]) == Escape(path[..EscapedCount(path, esc.Length - 2)])
  {
    hide StrLen, Escape;
    var p, q := 0, 0;
    ghost var done: string := "";
    EscapeNothing(path[..0]);
    while p < |path| && q < esc.Length - 2
      invariant 0 <= p <= |path| && 0 <= q < esc.Length
      invariant |done| == q && (forall i | 0 <= i < q :: esc[i] == done[i])
      invariant done == Escape(path[..p])
      invariant forall i | 0 <= i < p :: |Escape(path[..i])| < esc.Length - 2
    {
      assert path[..p + 1] == path[..p] + [path[p]];
      EscapeSnoc(path[..p], path[p]);
      if path[p] == '\\' {
        esc[q], esc[q + 1] := '\\', '\\';
        done := done + "\\\\";
        q := q + 2;
      } else {
        esc[q] := path[p];
        done := done + [path[p]];
        q := q + 1;
      }
      p := p + 1;
    }
    esc[q] := '\0';
    EscapedCountIs(path, esc.Length - 2, p);
    EscapePlain(path[..p], '\0');
    assert esc[..] == done + ['\0'] + esc[q + 1..];
    CStrOf(done, esc[q + 1..]);
    assert esc[..][q] == '\0';
  }

  lemma EscapeNothing(s: string)
    ensures s == "" ==> Escape(s) == ""
  {
  }

  /** How many characters the escape loop takes in when it stops at `limit` written ones. */
  function EscapedCount(path: string, limit: nat): (k: nat)
    ensures k <= |path|
  {
    CountFrom(path, limit, 0)
  }

  function CountFrom(path: string, limit: nat, k: nat): (r: nat)
    requires k <= |path|
    ensures k <= r <= |path|
    decreases |path| - k
  {
    if k < |path| && |Escape(path[..k])| < limit then CountFrom(path, limit, k + 1) else k
  }

  lemma EscapedCountIs(path: string, limit: nat, p: nat)
    requires p <= |path| && (forall i | 0 <= i < p :: |Escape(path[..i])| < limit)
    requires p == |path| || |Escape(path[..p])| >= limit
    ensures EscapedCount(path, limit) == p
  {
    CountReaches(path, limit, 0, p);
  }

  lemma {:induction false} CountReaches(path: string, limit: nat, k: nat, p: nat)
    requires k <= p <= |path| && (forall i | 0 <= i < p :: |Escape(path[..i])| < limit)
    requires p == |path| || |Escape(path[..p])| >= limit
    ensures CountFrom(path, limit, k) == p
    decreases p - k
  {
    if k < p {
      CountReaches(path, limit, k + 1, p);
    }
  }

  /** The buffer takes a path whole exactly when all but its last character stay below the limit. */
  lemma EscapedWhole(path: string, limit: nat)
    ensures EscapedCount(path, limit) == |path| <==> path == "" || |Escape(path[..|path| - 1])| < limit
  {
    if path != "" && |Escape(path[..|path| - 1])| < limit {
      forall i | 0 <= i < |path|
        ensures |Escape(path[..i])| < limit
      {
        EscapeMonotone(path, i, |path| - 1);
      }
      EscapedCountIs(path, limit, |path|);
    } else if path != "" {
      CountStops(path, limit, 0);
    }
  }

  lemma {:induction false} EscapeMonotone(path: string, i: nat, j: nat)
    requires i <= j <= |path|
    ensures |Escape(path[..i])| <= |Escape(path[..j])|
    decreases j - i
  {
    if i < j {
      EscapeMonotone(path, i, j - 1);
      assert path[..j] == path[..j - 1] + [path[j - 1]];
      EscapeSnoc(path[..j - 1], path[j - 1]);
    }
  }

  lemma {:induction false} CountStops(path: string, limit: nat, k: nat)
    requires k < |path| && |Escape(path[..|path| - 1])| >= limit
    ensures CountFrom(path, limit, k) < |path|
    decreases |path| - k
  {
    if k + 1 < |path| {
      CountStops(path, limit, k + 1);
    }
  }

  /** Any path a MAX_PATH buffer can hold fits the escape buffer whole. */
  lemma EscapeBufferSuffices(path: string)
    requires |path| < MAX_PATH
    ensures EscapedCount(path, MAX_PATH * 2 + 8 - 2) == |path|
    ensures path[..EscapedCount(path, MAX_PATH * 2 + 8 - 2)] == path
  {
    forall i | 0 <= i < |path|
      ensures |Escape(path[..i])| < MAX_PATH * 2 + 8 - 2
    {
    }
    EscapedCountIs(path, MAX_PATH * 2 + 8 - 2, |path|);
  }

  // -------------------------------------------------------------- artifact lines

  /** `_stricmp` folds ASCII letters. */
  function Lower(c: char): char {
    if 'A' <= c <= 'Z' then c - 'A' + 'a' else c
  }

  predicate IsSeparator(c: char) {
    c == '\\' || c == '/'
  }

  const SUFFIXES: seq<string> := [".rcgu.o", "symbols.o", "list.def", "rmeta.o"]

  predicate SameFolded(a: string, b: string) {
    |a| == |b| && forall i | 0 <= i < |a| :: Lower(a[i]) == Lower(b[i])
  }

  predicate EndsWith(path: string, suffix: string) {
    |path| >= |suffix| && SameFolded(path[|path| - |suffix|..], suffix)
  }

  /** `is_temp_artifact`. */
  predicate IsTempArtifact(path: string) {
    exists k :: 0 <= k < |SUFFIXES| && EndsWith(path, SUFFIXES[k])
  }

  /** `s` is `word` up to the case of its ASCII letters: 65 to 90 are the capitals, 32 below the small. */
  ghost predicate IsSpelling(s: string, word: string) {
    && |s| == |word|
    && forall i | 0 <= i < |s| :: s[i] == word[i] || (65 <= s[i] as int <= 90 && s[i] as int + 32 == word[i] as int)
  }

  ghost predicate IsArtifactEnding(s: string) {
    IsSpelling(s, ".rcgu.o") || IsSpelling(s, "symbols.o") || IsSpelling(s, "list.def") || IsSpelling(s, "rmeta.o")
  }

  /** The artifacts are exactly the paths that end in some spelling of one of the four suffixes. */
  lemma ArtifactExactly(path: string)
    ensures IsTempArtifact(path) <==> exists n: nat :: n <= |path| && IsArtifactEnding(path[n..])
  {
    hide IsSpelling, SameFolded;
    var all := SUFFIXES;
    assert all[0] == ".rcgu.o" && all[1] == "symbols.o" && all[2] == "list.def" && all[3] == "rmeta.o";
    forall m, n: nat | 0 <= m < 4 && n <= |path|
      ensures IsSpelling(path[n..], SUFFIXES[m]) <==> n == |path| - |SUFFIXES[m]| && EndsWith(path, SUFFIXES[m])
    {
      FoldedIsSpelling(path[n..], m);
    }
    if m :| 0 <= m < |SUFFIXES| && EndsWith(path, SUFFIXES[m]) {
      var n: nat := |path| - |SUFFIXES[m]|;
      assert IsSpelling(path[n..], SUFFIXES[m]);
      assert IsArtifactEnding(path[n..]);
    }
    if n: nat :| n <= |path| && IsArtifactEnding(path[n..]) {
      var m :| 0 <= m < 4 && IsSpelling(path[n..], SUFFIXES[m]);
      assert EndsWith(path, SUFFIXES[m]);
    }
  }

  lemma FoldedIsSpelling(s: string, m: nat)
    requires m < |SUFFIXES|
    ensures IsSpelling(s, SUFFIXES[m]) <==> |s| == |SUFFIXES[m]| && SameFolded(s, SUFFIXES[m])
  {
    hide SUFFIXES;
    SuffixesAreSmall(m);
    var suffix := SUFFIXES[m];
    if |s| == |suffix| {
      assert forall i | 0 <= i < |s| :: Lower(s[i]) == Lower(suffix[i]) <==>
               s[i] == suffix[i] || (65 <= s[i] as int <= 90 && s[i] as int + 32 == suffix[i] as int);
    }
  }

  lemma SuffixesAreSmall(m: nat)
    requires m < |SUFFIXES|
    ensures forall i | 0 <= i < |SUFFIXES[m]| :: !('A' <= SUFFIXES[m][i] <= 'Z')
  {
    var all := SUFFIXES;
    assert all[0] == ".rcgu.o" && all[1] == "symbols.o" && all[2] == "list.def" && all[3] == "rmeta.o";
  }

  function BaseName(path: string): string {
    if path == "" || IsSeparator(path[|path| - 1]) then "" else BaseName(path[..|path| - 1]) + [path[|path| - 1]]
  }

  /** The base name is the longest tail without a separator. */
  lemma {:induction false} BaseNameIs(path: string) returns (k: nat)
    ensures k <= |path| && BaseName(path) == path[k..]
    ensures forall i | k <= i < |path| :: !IsSeparator(path[i])
    ensures k > 0 ==> IsSeparator(path[k - 1])
  {
    if path == "" || IsSeparator(path[|path| - 1]) {
      k := |path|;
    } else {
      k := BaseNameIs(path[..|path| - 1]);
      assert path[k..] == path[..|path| - 1][k..] + [path[|path| - 1]];
      assert forall i | k <= i < |path| - 1 :: path[i] == path[..|path| - 1][i];
    }
  }

  lemma SuffixesArePlain(k: nat)
    requires k < |SUFFIXES|
    ensures SUFFIXES[k] != "" && forall i | 0 <= i < |SUFFIXES[k]| :: !IsSeparator(Lower(SUFFIXES[k][i]))
  {
    var all := SUFFIXES;
    assert all[0] == ".rcgu.o" && all[1] == "symbols.o" && all[2] == "list.def" && all[3] == "rmeta.o";
  }

  lemma TailDecides(prefix: string, base: string, m: nat)
    requires prefix == "" || IsSeparator(prefix[|prefix| - 1])
    requires m < |SUFFIXES|
    ensures EndsWith(prefix + base, SUFFIXES[m]) <==> EndsWith(base, SUFFIXES[m])
    ensures EndsWith(base, SUFFIXES[m]) ==> base != ""
  {
    hide SUFFIXES;
    SuffixesArePlain(m);
    var suffix := SUFFIXES[m];
    var s := prefix + base;
    if |base| >= |suffix| {
      assert s[|s| - |suffix|..] == base[|base| - |suffix|..];
    } else if |s| >= |suffix| {
      var tail := s[|s| - |suffix|..];
      var i := |suffix| - |base| - 1;
      assert tail[i] == prefix[|prefix| - 1];
      assert IsSeparator(Lower(tail[i])) && !IsSeparator(Lower(suffix[i]));
    }
  }

  lemma BaseNameUnique(path: string, j: nat)
    requires j <= |path| && (forall i | j <= i < |path| :: !IsSeparator(path[i]))
    requires j > 0 ==> IsSeparator(path[j - 1])
    ensures BaseName(path) == path[j..]
  {
    var k := BaseNameIs(path);
  }

  lemma BaseOfBase(path: string, prefix: string)
    requires prefix == "" || IsSeparator(prefix[|prefix| - 1])
    ensures BaseName(prefix + BaseName(path)) == BaseName(path)
  {
    hide IsSeparator, BaseName;
    var k := BaseNameIs(path);
    var base := path[k..];
    var whole := prefix + base;
    assert forall i | 0 <= i < |base| :: !IsSeparator(base[i]);
    assert forall i | |prefix| <= i < |whole| :: whole[i] == base[i - |prefix|];
    BaseNameUnique(whole, |prefix|);
    assert whole[|prefix|..] == base;
  }

  lemma ArtifactTail(prefix: string, base: string)
    requires prefix == "" || IsSeparator(prefix[|prefix| - 1])
    ensures IsTempArtifact(prefix + base) <==> IsTempArtifact(base)
    ensures IsTempArtifact(base) ==> base != ""
  {
    hide SUFFIXES, IsSeparator, EndsWith;
    forall m | 0 <= m < |SUFFIXES|
      ensures EndsWith(prefix + base, SUFFIXES[m]) <==> EndsWith(base, SUFFIXES[m])
      ensures EndsWith(base, SUFFIXES[m]) ==> base != ""
    {
      TailDecides(prefix, base, m);
    }
  }

  /** An artifact is recognised by its base name alone, which is never empty. */
  lemma ArtifactBase(path: string, prefix: string)
    requires prefix == "" || IsSeparator(prefix[|prefix| - 1])
    ensures IsTempArtifact(prefix + BaseName(path)) <==> IsTempArtifact(path)
    ensures IsTempArtifact(path) ==> BaseName(path) != ""
  {
    hide IsTempArtifact, IsSeparator, BaseName;
    var k := BaseNameIs(path);
    ArtifactTail(path[..k], BaseName(path));
    ArtifactTail(prefix, BaseName(path));
    assert path == path[..k] + path[k..];
  }

  function Truncate(s: string, n: nat): string {
    if |s| <= n then s else s[..n]
  }

  /** What `snprintf(dst, MAX_PATH, "%s\\%s", objdir, base)` leaves in the buffer. */
  function CopyTarget(objdir: string, base: string): string {
    Truncate(objdir + "\\" + base, MAX_PATH - 1)
  }

  predicate HasFlag(line: string) {
    WL <= line
  }

  function PathOf(line: string): string {
    Unescape(if HasFlag(line) then line[4..] else line)
  }

  predicate NamesArtifact(line: string) {
    PathOf(line) != "" && IsTempArtifact(PathOf(line)) && BaseName(PathOf(line)) != ""
  }

  /** The line written for `line` when copying its artifact succeeded or failed. */
  function RewrittenLine(line: string, objdir: string, copied: bool): string {
    if NamesArtifact(line) && copied then
      (if HasFlag(line) then WL else "") + Escape(CopyTarget(objdir, BaseName(PathOf(line))))
    else line
  }

  // ----------------------------------------------------------------- the C functions

  method FindBase(path: string) returns (base: string)
    ensures base == BaseName(path)
  {
    var start := 0;
    for scan := 0 to |path|
      invariant 0 <= start <= scan
      invariant forall i | start <= i < scan :: !IsSeparator(path[i])
      invariant start > 0 ==> IsSeparator(path[start - 1])
    {
      if path[scan] == '\\' || path[scan] == '/' {
        start := scan + 1;
      }
    }
    ghost var k := BaseNameIs(path);
    assert k == start;
    base := path[start..];
  }

  method CheckTempArtifact(path: string) returns (r: bool)
    ensures r == IsTempArtifact(path)
  {
    hide SUFFIXES;
    for i := 0 to |SUFFIXES|
      invariant forall k | 0 <= k < i :: !EndsWith(path, SUFFIXES[k])
    {
      var sl := |SUFFIXES[i]|;
      if |path| >= sl && EndsWith(path, SUFFIXES[i]) {
        return true;
      }
    }
    return false;
  }

  method LoadCString(text: string, size: nat) returns (buf: array<char>)
    requires '\0' !in text && |text| < size
    ensures fresh(buf) && buf.Length == size && '\0' in buf[..] && CStr(buf[..]) == text
  {
    buf := new char[size](i requires 0 <= i => if i < |text| then text[i] else '\0');
    assert buf[..] == text + ['\0'] + buf[|text| + 1..];
    CStrOf(text, buf[|text| + 1..]);
    assert buf[|text|] in buf[..];
  }

  /** The body of the line loop in `preserve_artifacts`. */
  method RewriteLine(line: string, objdir: string, copied: bool) returns (written: string)
    requires '\0' !in line && |line| < LINE_BUFFER && '\0' !in objdir
    ensures written == RewrittenLine(line, objdir, copied)
  {
    hide Unescape, StrLen, Escape, IsTempArtifact, BaseName;
    var work := LoadCString(line, LINE_BUFFER);
    var start, hadWl := UnescapePath(work);
    var path := CStr(work[start..]);
    assert path == PathOf(line) by {
      if HasFlag(line) { assert line[start..] == line[4..]; } else { assert line[start..] == line; }
    }
    var artifact := CheckTempArtifact(path);
    if path != "" && artifact {
      var base := FindBase(path);
      if base != "" {
        var dst := CopyTarget(objdir, base);
        if copied {
          var esc := new char[MAX_PATH * 2 + 8];
          NoNulInBase(line, path);
          EscapePath(dst, esc);
          EscapeBufferSuffices(dst);
          var text := CStr(esc[..]);
          return if hadWl then WL + text else "" + text;
        } else {
          return line;
        }
      }
    }
    written := line;
  }

  lemma {:induction false} NoNulUnescape(s: string)
    requires '\0' !in s
    ensures '\0' !in Unescape(s)
    decreases |s|
  {
    if s != "" {
      NoNulUnescape(s[1..]);
      if |s| > 1 {
        NoNulUnescape(s[2..]);
      }
    }
  }

  lemma NoNulInBase(line: string, path: string)
    requires '\0' !in line && path == PathOf(line)
    ensures '\0' !in BaseName(path)
  {
    NoNulUnescape(if HasFlag(line) then line[4..] else line);
    var k := BaseNameIs(path);
  }

  // ---------------------------------------------------------- main results on a line

  /** The copy target fits its buffer. */
  predicate Fits(objdir: string, base: string) {
    |objdir| + 1 + |base| < MAX_PATH
  }

  /** A copied artifact line keeps its flag and leads to exactly `objdir\base`, unless the target
      was cut off at MAX_PATH: then, and only then, it leads elsewhere. */
  lemma CopiedLineLeadsToCopy(line: string, objdir: string)
    requires NamesArtifact(line) && !(WL <= objdir + "\\")
    ensures var written := RewrittenLine(line, objdir, true);
            var base := BaseName(PathOf(line));
            && HasFlag(written) == HasFlag(line) && PathOf(written) == CopyTarget(objdir, base)
            && (CopyTarget(objdir, base) == objdir + "\\" + base <==> Fits(objdir, base))
            && (!Fits(objdir, base) ==> |PathOf(written)| == 259 && PathOf(written) <= objdir + "\\" + base)
  {
    hide Unescape, Escape, NamesArtifact, BaseName;
    var target := CopyTarget(objdir, BaseName(PathOf(line)));
    UnescapeEscape(target);
    var written := RewrittenLine(line, objdir, true);
    if HasFlag(line) {
      assert written[4..] == Escape(target) && WL <= written;
    } else {
      assert written == Escape(target);
      NoFlagInTarget(objdir, BaseName(PathOf(line)));
    }
  }

  lemma NoFlagInTarget(objdir: string, base: string)
    requires !(WL <= objdir + "\\")
    ensures !HasFlag(Escape(CopyTarget(objdir, base)))
  {
    var wl, s := WL, objdir + "\\" + base;
    var target := CopyTarget(objdir, base);
    assert |wl| == 4 && '\\' !in wl;
    assert s[|objdir|] == '\\';
    assert |objdir| >= 4 ==> s[..4] == (objdir + "\\")[..4];
    if wl <= Escape(target) {
      EscapedPrefix(target, wl);
      assert false;
    }
  }

  lemma {:induction false} EscapedPrefix(s: string, w: string)
    requires '\\' !in w && w <= Escape(s)
    ensures w <= s
  {
    if w != "" {
      var rest := Escape(s[1..]);
      assert Escape(s)[0] == w[0] != '\\';
      assert Escape(s) == [s[0]] + rest && rest == Escape(s)[1..];
      EscapedPrefix(s[1..], w[1..]);
      assert w == [w[0]] + w[1..] && s == [s[0]] + s[1..];
    }
  }

  /** A line that escapes a path, with or without the flag, reads as that path. */
  lemma EscapedLineReads(path: string)
    ensures HasFlag("-Wl," + Escape(path)) && PathOf("-Wl," + Escape(path)) == path
    ensures !("-Wl," <= path) ==> !HasFlag(Escape(path)) && PathOf(Escape(path)) == path
  {
    UnescapeEscape(path);
    var flagged, wl := "-Wl," + Escape(path), "-Wl,";
    assert flagged[4..] == Escape(path) && wl <= flagged;
    if wl <= Escape(path) {
      EscapedPrefix(path, wl);
    }
  }

  /** The copy target of a copy target is itself, cut off or not. */
  lemma TargetIsFixed(objdir: string, base: string)
    requires forall i | 0 <= i < |base| :: !IsSeparator(base[i])
    ensures CopyTarget(objdir, BaseName(CopyTarget(objdir, base))) == CopyTarget(objdir, base)
  {
    hide BaseName;
    var target, room := CopyTarget(objdir, base), MAX_PATH - 1 - (|objdir| + 1);
    if room >= 0 {
      var kept := if |base| <= room then base else base[..room];
      assert target == objdir + "\\" + kept;
      assert target[|objdir|] == '\\' && target[|objdir| + 1..] == kept;
      BaseNameUnique(target, |objdir| + 1);
    } else {
      assert target == objdir[..MAX_PATH - 1];
      assert CopyTarget(objdir, BaseName(target)) == objdir[..MAX_PATH - 1];
    }
  }

  /** Rewriting is a fixed point: the written line, rewritten again, stays, even when its target was
      cut off; when it was not, the written line still names an artifact. */
  lemma RewriteIsFixed(line: string, objdir: string, again: bool)
    requires NamesArtifact(line) && !(WL <= objdir + "\\")
    ensures var written := RewrittenLine(line, objdir, true);
            && RewrittenLine(written, objdir, again) == written
            && (Fits(objdir, BaseName(PathOf(line))) ==> NamesArtifact(written))
  {
    hide Unescape, Escape, BaseName, IsTempArtifact, Fits, IsSeparator, CopyTarget;
    var base := BaseName(PathOf(line));
    CopiedLineLeadsToCopy(line, objdir);
    var k := BaseNameIs(PathOf(line));
    TargetIsFixed(objdir, base);
    if Fits(objdir, base) {
      var prefix := objdir + "\\";
      assert IsSeparator('\\') by { BackslashSeparates(); }
      ArtifactBase(PathOf(line), prefix);
      BaseOfBase(PathOf(line), prefix);
    }
  }

  lemma BackslashSeparates()
    ensures IsSeparator('\\')
  {
  }

  /** Two copied lines collide exactly when their flags and (possibly cut off) targets agree; for
      targets that fit this means: flags and base names, however different their directories were. */
  lemma CopiesCollideIffSameBase(line: string, line': string, objdir: string)
    requires NamesArtifact(line) && NamesArtifact(line') && !(WL <= objdir + "\\")
    ensures var b, b' := BaseName(PathOf(line)), BaseName(PathOf(line'));
            && (RewrittenLine(line, objdir, true) == RewrittenLine(line', objdir, true)
                <==> HasFlag(line) == HasFlag(line') && CopyTarget(objdir, b) == CopyTarget(objdir, b'))
            && (Fits(objdir, b) && Fits(objdir, b') ==> (CopyTarget(objdir, b) == CopyTarget(objdir, b') <==> b == b'))
  {
    hide Unescape, Escape, NamesArtifact, BaseName;
    CopiedLineLeadsToCopy(line, objdir);
    CopiedLineLeadsToCopy(line', objdir);
    var b, b' := BaseName(PathOf(line)), BaseName(PathOf(line'));
    if objdir + "\\" + b == objdir + "\\" + b' {
      assert b == (objdir + "\\" + b)[|objdir| + 1..];
      assert b' == (objdir + "\\" + b')[|objdir| + 1..];
    }
  }

  /** A long base name is cut off: the file copied to, and written, is not `objdir\base`. */
  lemma LongTargetIsCut() returns (line: string, objdir: string)
    ensures |objdir| < MAX_PATH && NamesArtifact(line) && !(WL <= objdir + "\\")
    ensures PathOf(RewrittenLine(line, objdir, true)) != objdir + "\\" + BaseName(PathOf(line))
  {
    hide NamesArtifact, IsSeparator, BaseName, Escape, Unescape;
    var name := seq(20, i => 'a');
    var dir := seq(240, i => 'd');
    line := name + ".rcgu.o";
    objdir := "C:\\" + dir;
    var wl := WL;
    assert line == "" + name + ".rcgu.o" && "" + name == name;
    assert wl[0] == '-' && line[0] == 'a' && (objdir + "\\")[0] == 'C';
    PlainArtifact(name, "");
    CopiedLineLeadsToCopy(line, objdir);
    var k := BaseNameIs(line);
    NoSeparatorIn(line);
    assert k == 0 && |BaseName(line)| == 27 && |objdir| == 243;
  }

  lemma NoSeparatorIn(s: string)
    requires '\\' !in s && '/' !in s
    ensures forall i | 0 <= i < |s| :: !IsSeparator(s[i])
  {
  }

  /** `dir + name + ".rcgu.o"`, without backslashes, is an artifact line whose path is itself. */
  lemma PlainArtifact(name: string, dir: string)
    requires name != "" && '\\' !in dir + name && !(WL <= dir + name + ".rcgu.o")
    ensures var line := dir + name + ".rcgu.o"; NamesArtifact(line) && PathOf(line) == line
  {
    hide IsSeparator, BaseName, Unescape;
    var suffix, line := ".rcgu.o", dir + name + ".rcgu.o";
    UnescapePlain(line);
    assert SUFFIXES[0] == suffix && line[|line| - |suffix|..] == suffix;
    assert EndsWith(line, SUFFIXES[0]);
    ArtifactBase(line, "");
  }

  lemma {:induction false} UnescapePlain(s: string)
    requires '\\' !in s
    ensures Unescape(s) == s
  {
    if s != "" {
      UnescapePlain(s[1..]);
      assert s == [s[0]] + s[1..];
    }
  }

  // ------------------------------------------------------------------- whole files

  /** Length of the first line, its newline included. */
  function FirstLineLength(text: string): (n: nat)
    requires text != ""
    ensures 0 < n <= |text|
    ensures forall i | 0 <= i < n - 1 :: text[i] != '\n'
    ensures n < |text| ==> text[n - 1] == '\n'
  {
    if text[0] == '\n' || |text| == 1 then 1 else 1 + FirstLineLength(text[1..])
  }

  /** How much `fgets` takes: a line, or as much of it as the buffer holds. */
  function Taken(text: string): (n: nat)
    requires text != ""
    ensures 0 < n <= |text| && n < LINE_BUFFER
  {
    if FirstLineLength(text) < LINE_BUFFER then FirstLineLength(text) else LINE_BUFFER - 1
  }

  /** What the successive `fgets(line, sizeof line, fin)` calls return. */
  function Chunks(text: string): seq<string> {
    if text == "" then []
    else
      [text[..Taken(text)]] + Chunks(text[Taken(text)..])
  }

  function Concat(chunks: seq<string>): string {
    if chunks == [] then "" else chunks[0] + Concat(chunks[1..])
  }

  /** One `fgets`: at most 16383 characters, a newline only at the end, and stopping short of a
      newline or of the full buffer only at the end of the file. */
  ghost predicate IsRead(chunk: string, last: bool) {
    && 0 < |chunk| <= 16383 && '\n' !in chunk[..|chunk| - 1]
    && (chunk[|chunk| - 1] == '\n' || |chunk| == 16383 || last)
  }

  lemma FirstRead(text: string)
    requires text != ""
    ensures IsRead(text[..Taken(text)], text[Taken(text)..] == "")
  {
    var n := Taken(text);
    var chunk := text[..n];
    assert chunk[n - 1] == text[n - 1] && forall i | 0 <= i < n - 1 :: chunk[..n - 1][i] == text[i] != '\n';
  }

  /** The reads cover the file in order, each as long as `fgets` makes it. */
  lemma {:induction false} ReadsCoverFile(text: string)
    ensures Concat(Chunks(text)) == text
    ensures forall i | 0 <= i < |Chunks(text)| :: IsRead(Chunks(text)[i], i + 1 == |Chunks(text)|)
  {
    hide IsRead, Taken;
    if text != "" {
      var chunk, tail := text[..Taken(text)], text[Taken(text)..];
      ReadsCoverFile(tail);
      FirstRead(text);
      var rest := Chunks(tail);
      assert text == chunk + tail;
      assert Chunks(text) == [chunk] + rest && ([chunk] + rest)[1..] == rest;
    }
  }

  /** The lines of a text, without their newlines. */
  function Lines(text: string): seq<string> {
    if text == "" then []
    else
      var n := FirstLineLength(text);
      [if text[n - 1] == '\n' then text[..n - 1] else text[..n]] + Lines(text[n..])
  }

  predicate LinesFit(text: string) {
    text != "" ==> FirstLineLength(text) < LINE_BUFFER && LinesFit(text[FirstLineLength(text)..])
  }

  function StripEol(s: string): (r: string)
    ensures r <= s
  {
    if s != "" && (s[|s| - 1] == '\n' || s[|s| - 1] == '\r') then StripEol(s[..|s| - 1]) else s
  }

  /** The line buffer after `fgets` and the trailing-newline loop. */
  function Body(chunk: string): string {
    StripEol(CStr(chunk))
  }

  function WrittenFrom(chunks: seq<string>, objdir: string, copies: nat -> bool, k: nat): string {
    if chunks == [] then ""
    else RewrittenLine(Body(chunks[0]), objdir, copies(k)) + "\n" + WrittenFrom(chunks[1..], objdir, copies, k + 1)
  }

  /** `preserve_artifacts`: `copies(k)` tells whether copying the artifact of the k-th line read
      succeeded. */
  function PreservedText(text: string, objdir: string, copies: nat -> bool): string {
    WrittenFrom(Chunks(text), objdir, copies, 0)
  }

  lemma ChunkFits(text: string)
    requires text != ""
    ensures var body := Body(Chunks(text)[0]);
            |body| < LINE_BUFFER && '\0' !in body && '\n' !in body
  {
    var chunk := Chunks(text)[0];
    BodyIsClean(chunk);
  }

  lemma BodyIsClean(chunk: string)
    requires forall i | 0 <= i < |chunk| - 1 :: chunk[i] != '\n'
    ensures |Body(chunk)| <= |chunk| && '\0' !in Body(chunk) && '\n' !in Body(chunk)
  {
    var c := CStr(chunk);
    StripEolEnd(c);
    var body := Body(chunk);
    assert body == c[..|body|] == chunk[..|body|];
    if |body| == |chunk| && body != "" {
      assert body[|body| - 1] != '\n';
    }
  }

  lemma {:induction false} StripEolEnd(s: string)
    ensures StripEol(s) != "" ==> StripEol(s)[|StripEol(s)| - 1] != '\n' && StripEol(s)[|StripEol(s)| - 1] != '\r'
    ensures forall i | |StripEol(s)| <= i < |s| :: s[i] == '\n' || s[i] == '\r'
  {
    if s != "" && (s[|s| - 1] == '\n' || s[|s| - 1] == '\r') {
      StripEolEnd(s[..|s| - 1]);
    }
  }

  lemma ChunksAt(input: string, at: nat)
    requires at < |input|
    ensures var n := Taken(input[at..]);
            && Chunks(input[at..]) == [input[at..at + n]] + Chunks(input[at + n..])
            && |Body(input[at..at + n])| < LINE_BUFFER && '\0' !in Body(input[at..at + n])
  {
    var rest := input[at..];
    var n := Taken(rest);
    assert rest[..n] == input[at..at + n] && rest[n..] == input[at + n..];
    ChunkFits(rest);
  }

  /** The read loop, from the staged input to the rewritten output. */
  method PreserveArtifacts(input: string, objdir: string, copies: nat -> bool) returns (output: string)
    requires '\0' !in objdir
    ensures output == PreservedText(input, objdir, copies)
  {
    hide RewrittenLine, FirstLineLength, Body, Chunks, WrittenFrom, Taken;
    output := "";
    var at, k := 0, 0;
    assert input[0..] == input;
    assert output + PreservedText(input, objdir, copies) == PreservedText(input, objdir, copies);
    while at < |input|
      invariant 0 <= at <= |input|
      invariant output + WrittenFrom(Chunks(input[at..]), objdir, copies, k) == PreservedText(input, objdir, copies)
    {
      ChunksAt(input, at);
      var n := Taken(input[at..]);
      var line := Body(input[at..at + n]);
      var written := RewriteLine(line, objdir, copies(k));
      ChunksCons(input[at..at + n], Chunks(input[at + n..]), objdir, copies, k);
      AppendWritten(output, written, WrittenFrom(Chunks(input[at + n..]), objdir, copies, k + 1));
      output := output + (written + "\n");
      at, k := at + n, k + 1;
    }
    NothingWritten(input[at..], objdir, copies, k);
  }

  lemma AppendWritten(output: string, written: string, tail: string)
    ensures output + (written + "\n" + tail) == (output + (written + "\n")) + tail
  {
  }

  lemma NothingWritten(rest: string, objdir: string, copies: nat -> bool, k: nat)
    requires rest == ""
    ensures WrittenFrom(Chunks(rest), objdir, copies, k) == ""
  {
  }

  lemma ChunksCons(chunk: string, chunks: seq<string>, objdir: string, copies: nat -> bool, k: nat)
    ensures WrittenFrom([chunk] + chunks, objdir, copies, k)
         == RewrittenLine(Body(chunk), objdir, copies(k)) + "\n" + WrittenFrom(chunks, objdir, copies, k + 1)
  {
    assert ([chunk] + chunks)[1..] == chunks;
  }

  lemma {:induction false} FirstLineOf(l: string, rest: string)
    requires '\n' !in l
    ensures FirstLineLength(l + "\n" + rest) == |l| + 1
  {
    var s := l + "\n" + rest;
    if l == "" {
      assert s[0] == '\n';
    } else {
      assert s[1..] == l[1..] + "\n" + rest;
      FirstLineOf(l[1..], rest);
    }
  }

  lemma LinesCons(l: string, rest: string)
    requires '\n' !in l
    ensures Lines(l + "\n" + rest) == [l] + Lines(rest)
  {
    var s := l + "\n" + rest;
    FirstLineOf(l, rest);
    assert s[|l|] == '\n' && s[..|l|] == l && s[|l| + 1..] == rest;
  }

  lemma WrittenHasNoNewline(body: string, objdir: string, copied: bool)
    requires '\n' !in body && '\n' !in objdir
    ensures '\n' !in RewrittenLine(body, objdir, copied)
  {
    hide Unescape, NamesArtifact;
    if NamesArtifact(body) && copied {
      var path := PathOf(body);
      NoNewlineUnescape(if HasFlag(body) then body[4..] else body);
      var k := BaseNameIs(path);
      var target := CopyTarget(objdir, BaseName(path));
      assert '\n' !in target;
      EscapePlain(target, '\n');
      var wl := WL;
      assert '\n' !in wl;
    }
  }

  lemma {:induction false} NoNewlineUnescape(s: string)
    requires '\n' !in s
    ensures '\n' !in Unescape(s)
    decreases |s|
  {
    if s != "" {
      NoNewlineUnescape(s[1..]);
      if |s| > 1 {
        NoNewlineUnescape(s[2..]);
      }
    }
  }

  /** Each chunk read gives one output line. */
  lemma {:induction false} WrittenLines(chunks: seq<string>, objdir: string, copies: nat -> bool, k: nat)
    requires '\n' !in objdir && forall i | 0 <= i < |chunks| :: '\n' !in Body(chunks[i])
    ensures var out := Lines(WrittenFrom(chunks, objdir, copies, k));
            && |out| == |chunks|
            && forall i | 0 <= i < |out| :: out[i] == RewrittenLine(Body(chunks[i]), objdir, copies(k + i))
  {
    hide RewrittenLine, Body, Lines;
    if chunks == [] {
      NoLines();
    } else {
      var rest := chunks[1..];
      WrittenLines(rest, objdir, copies, k + 1);
      WrittenHasNoNewline(Body(chunks[0]), objdir, copies(k));
      var tail := Lines(WrittenFrom(rest, objdir, copies, k + 1));
      LinesCons(RewrittenLine(Body(chunks[0]), objdir, copies(k)), WrittenFrom(rest, objdir, copies, k + 1));
      var out := Lines(WrittenFrom(chunks, objdir, copies, k));
      assert forall i | 0 < i < |out| :: out[i] == tail[i - 1] && chunks[i] == rest[i - 1];
    }
  }

  lemma {:induction false} BodiesClean(text: string)
    ensures forall i | 0 <= i < |Chunks(text)| :: '\n' !in Body(Chunks(text)[i])
    decreases |text|
  {
    hide Body;
    if text != "" {
      ChunkFits(text);
      BodiesClean(text[Taken(text)..]);
    }
  }

  /** The output has one line per `fgets` call, in order. */
  lemma {:induction false} OutputLines(text: string, objdir: string, copies: nat -> bool)
    requires '\n' !in objdir
    ensures var out := Lines(PreservedText(text, objdir, copies));
            && |out| == |Chunks(text)|
            && forall i | 0 <= i < |out| :: out[i] == RewrittenLine(Body(Chunks(text)[i]), objdir, copies(i))
  {
    hide RewrittenLine, Body, Lines, Chunks;
    BodiesClean(text);
    WrittenLines(Chunks(text), objdir, copies, 0);
  }

  lemma NoLines()
    ensures Lines("") == []
  {
  }

  /** `fgets` returns one line per call exactly as long as every line fits its buffer. */
  lemma {:induction false} ChunksAreLines(text: string)
    ensures |Chunks(text)| >= |Lines(text)|
    ensures |Chunks(text)| == |Lines(text)| <==> LinesFit(text)
    decreases |text|
  {
    if text != "" {
      var n := FirstLineLength(text);
      if n < LINE_BUFFER {
        ChunksAreLines(text[n..]);
      } else {
        var rest := text[LINE_BUFFER - 1..];
        ChunksAreLines(rest);
        LinesAfterCut(text, LINE_BUFFER - 1);
      }
    }
  }

  lemma {:induction false} FirstLineAfterCut(text: string, cut: nat)
    requires cut < |text| && cut < FirstLineLength(text)
    ensures FirstLineLength(text[cut..]) == FirstLineLength(text) - cut
  {
    if cut > 0 {
      FirstLineAfterCut(text[1..], cut - 1);
      assert text[1..][cut - 1..] == text[cut..];
    } else {
      assert text[0..] == text;
    }
  }

  lemma LinesAfterCut(text: string, cut: nat)
    requires cut < |text| && cut < FirstLineLength(text)
    ensures |Lines(text[cut..])| == |Lines(text)|
  {
    FirstLineAfterCut(text, cut);
    var n := FirstLineLength(text);
    assert text[cut..][n - cut..] == text[n..];
  }

  /** With fitting lines, each chunk is one line and its line end. */
  lemma {:induction false} ChunkIsLine(text: string, i: nat)
    requires LinesFit(text) && i < |Lines(text)|
    ensures i < |Chunks(text)|
    ensures Chunks(text)[i] == Lines(text)[i] || Chunks(text)[i] == Lines(text)[i] + "\n"
    decreases |text|
  {
    var n := FirstLineLength(text);
    if i == 0 {
      assert text[n - 1] == '\n' ==> text[..n] == text[..n - 1] + "\n";
    } else {
      ChunkIsLine(text[n..], i - 1);
    }
  }

  /** The line end is no part of the line buffer's text, whether or not a NUL cut the line short. */
  lemma BodyOfLine(l: string, chunk: string)
    requires chunk == l || chunk == l + "\n"
    ensures Body(chunk) == Body(l)
  {
    if chunk == l + "\n" {
      if '\0' in l {
        CStrOfPrefix(l, "\n");
      } else {
        assert StrLen(l) == |l| && CStr(l) == l;
        assert StrLen(chunk) == |chunk| && CStr(chunk) == chunk;
        assert chunk[..|l|] == l;
      }
    }
  }

  lemma {:induction false} CStrOfPrefix(l: string, rest: string)
    requires '\0' in l
    ensures CStr(l + rest) == CStr(l)
  {
    if l[0] != '\0' {
      assert '\0' in l[1..];
      CStrOfPrefix(l[1..], rest);
      assert (l + rest)[1..] == l[1..] + rest;
      assert StrLen(l + rest) == 1 + StrLen(l[1..] + rest);
      StrLenBounds(l[1..]);
      StrLenBounds(l[1..] + rest);
      assert StrLen(l[1..]) == |CStr(l[1..])| == |CStr(l[1..] + rest)| == StrLen(l[1..] + rest);
    }
  }

  /** The line count is kept exactly when every line fits the line buffer. */
  lemma LineCountKept(text: string, objdir: string, copies: nat -> bool)
    requires '\n' !in objdir
    ensures |Lines(PreservedText(text, objdir, copies))| == |Lines(text)| <==> LinesFit(text)
  {
    OutputLines(text, objdir, copies);
    ChunksAreLines(text);
  }

  /** Line by line: every line, up to a NUL and without its line end, is rewritten on its own, in place;
      lines that name no artifact, or whose artifact could not be copied, stay as they are. */
  lemma LinesRewrittenInPlace(text: string, objdir: string, copies: nat -> bool, i: nat)
    requires '\n' !in objdir && LinesFit(text) && i < |Lines(text)|
    ensures var out := Lines(PreservedText(text, objdir, copies));
            var line := Body(Lines(text)[i]);
            && |out| == |Lines(text)|
            && out[i] == RewrittenLine(line, objdir, copies(i))
            && (!NamesArtifact(line) || !copies(i) ==> out[i] == line)
            && ('\0' !in text ==> line == StripEol(Lines(text)[i]))
  {
    hide NamesArtifact, Body, StrLen;
    OutputLines(text, objdir, copies);
    ChunksAreLines(text);
    ChunkIsLine(text, i);
    BodyOfLine(Lines(text)[i], Chunks(text)[i]);
    if '\0' !in text {
      LineChars(text, i);
      PlainBody(Lines(text)[i]);
    }
  }

  lemma PlainBody(l: string)
    requires '\0' !in l
    ensures Body(l) == StripEol(l)
  {
    assert StrLen(l) == |l| && CStr(l) == l;
  }

  lemma {:induction false} LineChars(text: string, i: nat)
    requires '\0' !in text && i < |Lines(text)|
    ensures '\0' !in Lines(text)[i]
    decreases |text|
  {
    if i > 0 {
      LineChars(text[FirstLineLength(text)..], i - 1);
    }
  }

  /** One line that fills the buffer becomes several. */
  lemma LongLineIsSplit(objdir: string, copies: nat -> bool) returns (text: string)
    requires '\n' !in objdir
    ensures |Lines(text)| == 1 && |text| == LINE_BUFFER
    ensures |Lines(PreservedText(text, objdir, copies))| > 1
  {
    text := seq(LINE_BUFFER, i => 'a');
    var n := FirstLineLength(text);
    assert n == |text|;
    assert text[n..] == "";
    NoLines();
    OutputLines(text, objdir, copies);
    ChunksAreLines(text);
  }

  // --------------------------------------------------------------- what the copies hold

  /** How `copy_file` ends: done, failed before the target was opened, or failed while writing it. */
  datatype Outcome = Copied | Unread | Spoiled

  /** One call of `copy_file`, by the files its two paths name. */
  datatype Copy = Copy(target: string, source: string, outcome: Outcome)

  /** For every file written to, the one it was last filled from; None when its last write failed. */
  function Filled(copies: seq<Copy>): map<string, Option<string>> {
    if copies == [] then map[]
    else
      var before, last := Filled(copies[..|copies| - 1]), copies[|copies| - 1];
      match last.outcome
      case Copied => before[last.target := Some(last.source)]
      case Unread => before
      case Spoiled => before[last.target := None]
  }

  predicate Writes(c: Copy, target: string) {
    c.target == target && c.outcome != Unread
  }

  /** The last write decides. */
  lemma {:induction false} LastWriteDecides(copies: seq<Copy>, target: string) returns (m: int)
    ensures -1 <= m < |copies| && forall i | m < i < |copies| :: !Writes(copies[i], target)
    ensures m == -1 ==> target !in Filled(copies)
    ensures m >= 0 ==> Writes(copies[m], target) && target in Filled(copies)
    ensures m >= 0 ==> Filled(copies)[target] == if copies[m].outcome == Copied then Some(copies[m].source) else None
  {
    m := -1;
    if copies != [] {
      var n := |copies| - 1;
      if Writes(copies[n], target) {
        m := n;
      } else {
        m := LastWriteDecides(copies[..n], target);
        assert forall i | 0 <= i < n :: copies[..n][i] == copies[i];
      }
    }
  }

  ghost predicate Holds(copies: seq<Copy>, target: string, source: string) {
    target in Filled(copies) && Filled(copies)[target] == Some(source)
  }

  ghost predicate AllHold(copies: seq<Copy>) {
    forall i | 0 <= i < |copies| && copies[i].outcome == Copied :: Holds(copies, copies[i].target, copies[i].source)
  }

  /** No two different files are copied to one. */
  ghost predicate NoClash(copies: seq<Copy>) {
    forall i, j | 0 <= i < j < |copies| && copies[i].outcome == copies[j].outcome == Copied ::
      copies[i].target == copies[j].target ==> copies[i].source == copies[j].source
  }

  /** A failed write over a copy is made good by a later copy. */
  ghost predicate Mended(copies: seq<Copy>) {
    forall i, j | 0 <= i < j < |copies| && copies[i].outcome == Copied && copies[j].outcome == Spoiled ::
      copies[i].target == copies[j].target ==> CopiedAfter(copies, j, copies[i].target)
  }

  ghost predicate CopiedAfter(copies: seq<Copy>, j: int, target: string) {
    exists k :: j < k < |copies| && k >= 0 && copies[k].outcome == Copied && copies[k].target == target
  }

  lemma AllHoldExactly(copies: seq<Copy>)
    ensures AllHold(copies) <==> NoClash(copies) && Mended(copies)
  {
    hide Filled;
    if NoClash(copies) && Mended(copies) {
      forall i | 0 <= i < |copies| && copies[i].outcome == Copied
        ensures Holds(copies, copies[i].target, copies[i].source)
      {
        var m := LastWriteDecides(copies, copies[i].target);
        assert Writes(copies[i], copies[i].target) && i <= m;
        assert !CopiedAfter(copies, m, copies[i].target) by {
          assert forall k | m < k < |copies| :: !Writes(copies[k], copies[i].target);
        }
        assert copies[m].outcome == Copied;
      }
    }
    if AllHold(copies) {
      forall i, j | 0 <= i < j < |copies| && copies[i].outcome == Copied && copies[j].outcome == Spoiled
                    && copies[i].target == copies[j].target
        ensures CopiedAfter(copies, j, copies[i].target)
      {
        var m := LastWriteDecides(copies, copies[i].target);
        assert Writes(copies[j], copies[i].target) && j <= m;
        assert Holds(copies, copies[i].target, copies[i].source);
        assert copies[m].outcome == Copied;
      }
    }
  }

  /** The lines as the loop sees them. */
  function Bodies(text: string): (r: seq<string>)
    ensures |r| == |Chunks(text)| && forall i | 0 <= i < |r| :: r[i] == Body(Chunks(text)[i])
  {
    seq(|Chunks(text)|, i requires 0 <= i < |Chunks(text)| => Body(Chunks(text)[i]))
  }

  /** The copy made for one line, if it names an artifact; `file` tells which file a path names. */
  function CopyFor(line: string, objdir: string, outcome: Outcome, file: string -> string): Copy {
    Copy(file(CopyTarget(objdir, BaseName(PathOf(line)))), file(PathOf(line)),
         if NamesArtifact(line) then outcome else Unread)
  }

  function CopiesFor(lines: seq<string>, objdir: string, outcomes: nat -> Outcome, file: string -> string)
    : (r: seq<Copy>)
    ensures |r| == |lines|
    ensures forall i | 0 <= i < |r| :: r[i] == CopyFor(lines[i], objdir, outcomes(i), file)
  {
    seq(|lines|, i requires 0 <= i < |lines| => CopyFor(lines[i], objdir, outcomes(i), file))
  }

  /** The whole rewrite: in the output, every line whose artifact was copied leads to a file last filled
      from that line's own artifact, exactly when no two different artifacts were copied to one file
      and no copy was spoiled for good. */
  lemma OutputLeadsToOwnArtifacts(text: string, objdir: string, outcomes: nat -> Outcome, file: string -> string)
    requires '\n' !in objdir && !(WL <= objdir + "\\")
    ensures var out := Lines(PreservedText(text, objdir, (k: nat) => outcomes(k) == Copied));
            var lines := Bodies(text);
            var copies := CopiesFor(lines, objdir, outcomes, file);
            && |out| == |lines|
            && ((forall k | 0 <= k < |lines| && copies[k].outcome == Copied ::
                   Holds(copies, file(PathOf(out[k])), file(PathOf(lines[k]))))
                <==> NoClash(copies) && Mended(copies))
  {
    hide NamesArtifact, RewrittenLine, CopyTarget, PathOf, Holds, NoClash, Mended, Body, Chunks, BaseName;
    var copied := (k: nat) => outcomes(k) == Copied;
    var out, lines := Lines(PreservedText(text, objdir, copied)), Bodies(text);
    var copies := CopiesFor(lines, objdir, outcomes, file);
    OutputLines(text, objdir, copied);
    AllHoldExactly(copies);
    forall k | 0 <= k < |lines| && copies[k].outcome == Copied
      ensures file(PathOf(out[k])) == copies[k].target && file(PathOf(lines[k])) == copies[k].source
    {
      assert copied(k);
      CopiedLineLeadsToCopy(lines[k], objdir);
    }
  }

  lemma ArtifactIn(dir: string, line: string)
    requires dir == "a/" || dir == "b/"
    requires line == dir + "x" + ".rcgu.o"
    ensures NamesArtifact(line) && PathOf(line) == line && BaseName(line) == "x.rcgu.o"
  {
    hide NamesArtifact, IsSeparator, BaseName, PathOf;
    var wl, x := WL, "x.rcgu.o";
    assert wl[0] == '-' && line[0] != '-' && line[1] == '/' && line[2..] == x;
    PlainArtifact("x", dir);
    NoSeparatorIn(x);
    assert IsSeparator(line[1]) by { SlashSeparates(); }
    BaseNameUnique(line, 2);
  }

  lemma SlashSeparates()
    ensures IsSeparator('/')
  {
  }

  /** Two artifacts of one name from different directories: the first line ends up with the second's. */
  lemma SameNameClashes(file: string -> string) returns (lines: seq<string>, objdir: string, copies: seq<Copy>)
    requires file("a/x.rcgu.o") != file("b/x.rcgu.o")
    ensures |lines| == 2 && copies == CopiesFor(lines, objdir, k => Copied, file)
    ensures forall l | l in lines :: NamesArtifact(l) && Fits(objdir, BaseName(PathOf(l))) && !(WL <= objdir + "\\")
    ensures !Holds(copies, copies[0].target, file(PathOf(lines[0])))
  {
    hide NamesArtifact, PathOf, BaseName, Filled, Holds, CopyTarget;
    var a, b := "a/x.rcgu.o", "b/x.rcgu.o";
    objdir := "C:";
    var wl := WL;
    assert wl[0] == '-' && (objdir + "\\")[0] == 'C';
    ArtifactIn("a/", a);
    ArtifactIn("b/", b);
    lines := [a, b];
    copies := CopiesFor(lines, objdir, k => Copied, file);
    assert copies[0] == CopyFor(a, objdir, Copied, file) && copies[1] == CopyFor(b, objdir, Copied, file);
    SecondFills(copies);
  }

  lemma SecondFills(copies: seq<Copy>)
    requires |copies| == 2 && copies[0].target == copies[1].target && copies[1].outcome == Copied
    requires copies[0].source != copies[1].source
    ensures !Holds(copies, copies[0].target, copies[0].source)
  {
    assert Filled(copies)[copies[1].target] == Some(copies[1].source);
  }
}
