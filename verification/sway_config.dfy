/**
 * The sway branch of the Linux permission installer and its inverse in the uninstaller
 * (scripts/linux/install_permissions.py): two independent line-by-line rewriters that have to
 * fit together over arbitrary user configurations.  Texts are what `read_text` returns, that is,
 * without carriage returns.
 */
module SwayConfig {
  import opened PyText
  import opened XkbOptions

  const MARKER: string := "# Lausu. Caps Lock neutralization"
  const LEGACY_MARKER: string := "# Lausu \U{2014} Caps Lock neutralization"
  const RESTORE_MARKER: string := "# Lausu (original, preserved for restore):"

  /** The part of the manifest the sway restore reads. */
  datatype Manifest = Manifest(swayModified: bool, original: string)

  // -------------------------------------------------------------- kinds of lines

  predicate SetsXkb(tokens: seq<string>, atLeast: nat) {
    |tokens| >= atLeast >= 3 && tokens[0] == "input" && tokens[1] == "*" && tokens[2] == "xkb_options"
  }

  /** What the installer looks for: `input * xkb_options` with a value. */
  predicate IsLive(line: string) {
    var stripped := Strip(line);
    stripped != "" && stripped[0] != '#' && SetsXkb(Tokens(stripped), 4)
  }

  /** What the uninstaller looks for: the same directive, value or not. */
  predicate IsBare(line: string) {
    SetsXkb(Tokens(Strip(line)), 3)
  }

  predicate IsBackup(line: string) {
    RESTORE_MARKER <= Strip(line)
  }

  predicate IsBlock(line: string) {
    Strip(line) == MARKER || Strip(line) == LEGACY_MARKER
  }

  // ---------------------------------------------------------------- installation

  function FirstLive(lines: seq<string>): (f: nat)
    ensures f <= |lines|
    ensures forall i | 0 <= i < f :: !IsLive(lines[i])
    ensures f < |lines| ==> IsLive(lines[f])
  {
    if lines == [] || IsLive(lines[0]) then 0 else 1 + FirstLive(lines[1..])
  }

  function WithoutLive(lines: seq<string>): (r: seq<string>)
    ensures forall i | 0 <= i < |r| :: !IsLive(r[i])
  {
    if lines == [] then []
    else (if IsLive(lines[0]) then [] else [lines[0]]) + WithoutLive(lines[1..])
  }

  /** The options a directive line sets. */
  function OptionsOf(line: string): seq<string> {
    ParseComma(Strip(AfterWords(RStrip(line), 3)))
  }

  function BackupLine(line: string): string {
    RESTORE_MARKER + " " + RStrip(line) + "\n"
  }

  /** `input * xkb_options <value>`, without its line end. */
  function Directive(value: string): string {
    "input" + [' '] + ("*" + [' '] + ("xkb_options" + [' '] + value))
  }

  function MergedOptions(line: string): seq<string> {
    MergeOption(OptionsOf(line), CAPS_NONE)
  }

  function MergedLine(line: string): string {
    Directive(FormatComma(MergedOptions(line))) + "\n"
  }

  function InstalledLines(lines: seq<string>): seq<string>
    requires FirstLive(lines) < |lines|
  {
    var f := FirstLive(lines);
    lines[..f] + ([BackupLine(lines[f]), MergedLine(lines[f])] + WithoutLive(lines[f + 1..]))
  }

  const APPENDED: string := "\n" + (MARKER + "\n" + (Directive(CAPS_NONE) + "\n"))

  /** A missing final newline is supplied before appending. */
  function Completed(text: string): string {
    if text != "" && text[|text| - 1] != '\n' then text + "\n" else text
  }

  predicate HasMarker(text: string) {
    Contains(text, MARKER) || Contains(text, LEGACY_MARKER)
  }

  function Install(text: string): (string, Manifest) {
    var lines := SplitLines(text);
    var f := FirstLive(lines);
    if f < |lines| then (Join(InstalledLines(lines)), Manifest(true, RStrip(lines[f])))
    else if !HasMarker(text) then (Completed(text) + APPENDED, Manifest(true, ""))
    else (text, Manifest(true, ""))
  }

  // ----------------------------------------------------------------- restoration

  function RestoreLines(lines: seq<string>, original: string, restored: bool): seq<string>
    decreases |lines|
  {
    if lines == [] then []
    else if IsBackup(lines[0]) then RestoreLines(lines[1..], original, restored)
    else if IsBlock(lines[0]) then
      var rest := if |lines| > 1 && IsBare(lines[1]) then lines[2..] else lines[1..];
      if original != "" && !restored then [original + "\n"] + RestoreLines(rest, original, true)
      else RestoreLines(rest, original, restored)
    else if !restored && IsBare(lines[0]) then
      (if original != "" then [original + "\n"] else []) + RestoreLines(lines[1..], original, true)
    else [lines[0]] + RestoreLines(lines[1..], original, restored)
  }

  function Uninstall(text: string, manifest: Manifest): string {
    if manifest.swayModified then Join(RestoreLines(SplitLines(text), manifest.original, false)) else text
  }

  function RoundTrip(text: string): string {
    Uninstall(Install(text).0, Install(text).1)
  }

  // ------------------------------------------------------------------- the loops

  /** Exactly the live lines among the first `upTo`, in ascending order. */
  ghost predicate AreLiveIndices(lines: seq<string>, found: seq<nat>, upTo: nat)
    requires upTo <= |lines|
  {
    && (forall k | 0 <= k < |found| :: found[k] < upTo && IsLive(lines[found[k]]))
    && (forall j, k | 0 <= j < k < |found| :: found[j] < found[k])
    && (forall i | 0 <= i < upTo && IsLive(lines[i]) :: i in found)
  }

  method FindSwayXkbOptionsLines(lines: seq<string>) returns (indices: seq<nat>)
    ensures AreLiveIndices(lines, indices, |lines|)
    ensures indices != [] <==> FirstLive(lines) < |lines|
    ensures indices != [] ==> indices[0] == FirstLive(lines)
  {
    hide IsLive;
    indices := [];
    for idx := 0 to |lines|
      invariant AreLiveIndices(lines, indices, idx)
    {
      if IsLive(lines[idx]) {
        indices := indices + [idx];
      }
    }
    ghost var f := FirstLive(lines);
    assert f < |lines| ==> f in indices;
    assert indices != [] ==> IsLive(lines[indices[0]]);
  }

  function NextIndex(lines: seq<string>, indices: seq<nat>, k: nat): nat {
    if k < |indices| then indices[k] else |lines|
  }

  lemma NoneLiveBetween(lines: seq<string>, found: seq<nat>, k: nat)
    requires AreLiveIndices(lines, found, |lines|) && k < |found|
    ensures found[k] < NextIndex(lines, found, k + 1) <= |lines|
    ensures forall i | found[k] < i < NextIndex(lines, found, k + 1) :: !IsLive(lines[i])
  {
    hide IsLive;
    forall i | found[k] < i < NextIndex(lines, found, k + 1)
      ensures !IsLive(lines[i])
    {
      assert forall j | 0 <= j < |found| :: found[j] != i;
    }
  }

  /** The list while duplicates from `cut` on are already gone. */
  function PartlyDropped(before: seq<string>, replacement: string, first: nat, cut: nat): seq<string>
    requires first < cut <= |before|
  {
    before[..first] + [replacement] + before[first + 1..cut] + WithoutLive(before[cut..])
  }

  lemma DropNext(before: seq<string>, replacement: string, first: nat, idx: nat, cut: nat)
    requires first < idx < cut <= |before|
    requires IsLive(before[idx]) && forall i | idx < i < cut :: !IsLive(before[i])
    ensures var lines := PartlyDropped(before, replacement, first, cut);
            && idx < |lines|
            && lines[..idx] + lines[idx + 1..] == PartlyDropped(before, replacement, first, idx)
  {
    hide IsLive, WithoutLive;
    DropOneMatch(before, idx, cut);
    var head, tail := before[..first] + [replacement], WithoutLive(before[cut..]);
    var lines := PartlyDropped(before, replacement, first, cut);
    assert lines == head + before[first + 1..cut] + tail;
    assert |head| == first + 1;
    assert lines[..idx] == head + before[first + 1..idx];
    assert lines[idx + 1..] == before[idx + 1..cut] + tail;
    assert head + before[first + 1..idx] + (before[idx + 1..cut] + tail)
        == head + before[first + 1..idx] + WithoutLive(before[idx..]);
  }

  lemma DropDone(before: seq<string>, replacement: string, first: nat, cut: nat)
    requires first < cut <= |before| && forall i | first < i < cut :: !IsLive(before[i])
    ensures PartlyDropped(before, replacement, first, cut)
         == before[..first] + [replacement] + WithoutLive(before[first + 1..])
  {
    hide IsLive;
    NoMatchesBetween(before, first + 1, cut);
    var head := before[..first] + [replacement];
    assert head + before[first + 1..cut] + WithoutLive(before[cut..])
        == head + (before[first + 1..cut] + WithoutLive(before[cut..]));
  }

  /** `for idx in reversed(match_indices[1:]): del lines[idx]`, after the first match was replaced. */
  method DropDuplicates(before: seq<string>, replacement: string) returns (lines: seq<string>)
    requires FirstLive(before) < |before|
    ensures lines == before[..FirstLive(before)] + [replacement] + WithoutLive(before[FirstLive(before) + 1..])
  {
    hide IsLive;
    var matchIndices := FindSwayXkbOptionsLines(before);
    var first := matchIndices[0];
    lines := before[first := replacement];
    var k := |matchIndices|;
    assert before[first + 1..|before|] == before[first + 1..];
    assert lines == PartlyDropped(before, replacement, first, |before|);
    while k > 1
      invariant 1 <= k <= |matchIndices|
      invariant first < NextIndex(before, matchIndices, k) <= |before|
      invariant lines == PartlyDropped(before, replacement, first, NextIndex(before, matchIndices, k))
    {
      k := k - 1;
      var idx := matchIndices[k];
      NoneLiveBetween(before, matchIndices, k);
      DropNext(before, replacement, first, idx, NextIndex(before, matchIndices, k + 1));
      lines := lines[..idx] + lines[idx + 1..];
    }
    NoneLiveBetween(before, matchIndices, 0);
    DropDone(before, replacement, first, NextIndex(before, matchIndices, 1));
  }

  method InstallSway(existing: string) returns (text: string, manifest: Manifest)
    ensures (text, manifest) == Install(existing)
  {
    var lines := SplitLines(existing);
    var matchIndices := FindSwayXkbOptionsLines(lines);
    if matchIndices != [] {
      var first := matchIndices[0];
      var line := lines[first];
      ghost var tail := WithoutLive(lines[first + 1..]);
      JoinOfReplacement(lines[..first], BackupLine(line), MergedLine(line), tail);
      lines := DropDuplicates(lines, BackupLine(line) + MergedLine(line));
      text, manifest := Join(lines), Manifest(true, RStrip(line));
    } else if !HasMarker(existing) {
      text := existing;
      if existing != "" && existing[|existing| - 1] != '\n' {
        text := text + "\n";
      }
      text, manifest := text + APPENDED, Manifest(true, "");
    } else {
      text, manifest := existing, Manifest(true, "");
    }
  }

  lemma {:induction false} WithoutLiveConcat(a: seq<string>, b: seq<string>)
    ensures WithoutLive(a + b) == WithoutLive(a) + WithoutLive(b)
  {
    hide IsLive;
    if a == [] {
      assert a + b == b;
    } else {
      assert (a + b)[1..] == a[1..] + b;
      WithoutLiveConcat(a[1..], b);
    }
  }

  lemma {:induction false} WithoutLiveOfNone(lines: seq<string>)
    requires forall i | 0 <= i < |lines| :: !IsLive(lines[i])
    ensures WithoutLive(lines) == lines
  {
    if lines != [] {
      WithoutLiveOfNone(lines[1..]);
    }
  }

  lemma NoMatchesBetween(lines: seq<string>, from: nat, to: nat)
    requires from <= to <= |lines| && forall i | from <= i < to :: !IsLive(lines[i])
    ensures lines[from..to] + WithoutLive(lines[to..]) == WithoutLive(lines[from..])
  {
    hide IsLive;
    assert lines[from..] == lines[from..to] + lines[to..];
    WithoutLiveConcat(lines[from..to], lines[to..]);
    WithoutLiveOfNone(lines[from..to]);
  }

  lemma DropOneMatch(lines: seq<string>, idx: nat, cut: nat)
    requires idx < cut <= |lines| && IsLive(lines[idx]) && forall i | idx < i < cut :: !IsLive(lines[i])
    ensures lines[idx + 1..cut] + WithoutLive(lines[cut..]) == WithoutLive(lines[idx..])
  {
    hide IsLive;
    NoMatchesBetween(lines, idx + 1, cut);
    assert lines[idx..][1..] == lines[idx + 1..];
  }

  lemma JoinOfReplacement(before: seq<string>, backup: string, merged: string, after: seq<string>)
    ensures Join(before + [backup + merged] + after) == Join(before + ([backup, merged] + after))
  {
    assert before + [backup + merged] + after == before + ([backup + merged] + after);
    JoinConcat(before, [backup + merged] + after);
    JoinConcat(before, [backup, merged] + after);
    assert ([backup, merged] + after)[1..] == [merged] + after;
    assert ([merged] + after)[1..] == after;
    assert ([backup + merged] + after)[1..] == after;
    assert backup + (merged + Join(after)) == (backup + merged) + Join(after);
  }

  /** One turn of the restore loop: what it emits, where it goes on, and the flag. */
  method RestoreTurn(lines: seq<string>, i: nat, originalLine: string, restored: bool)
    returns (emitted: seq<string>, next: nat, restored': bool)
    requires i < |lines|
    ensures i < next <= |lines|
    ensures RestoreLines(lines[i..], originalLine, restored)
         == emitted + RestoreLines(lines[next..], originalLine, restored')
  {
    ghost var rest := lines[i..];
    assert rest[0] == lines[i] && rest[1..] == lines[i + 1..];
    emitted, next, restored' := [], i + 1, restored;
    if IsBackup(lines[i]) {
    } else if IsBlock(lines[i]) {
      if next < |lines| {
        TokensStrip(lines[next]);
        assert rest[1] == lines[next] && rest[2..] == lines[i + 2..];
        if SetsXkb(Tokens(lines[next]), 3) {
          next := next + 1;
        }
      }
      if originalLine != "" && !restored {
        emitted := [originalLine + "\n"];
        restored' := true;
      }
    } else if !restored && IsBare(lines[i]) {
      if originalLine != "" {
        emitted := [originalLine + "\n"];
      }
      restored' := true;
    } else {
      emitted := [lines[i]];
    }
  }

  method RestoreSway(existing: string, originalLine: string) returns (text: string)
    ensures text == Join(RestoreLines(SplitLines(existing), originalLine, false))
  {
    var lines := SplitLines(existing);
    var newLines: seq<string> := [];
    var i := 0;
    var restored := false;
    assert lines[0..] == lines;
    while i < |lines|
      invariant 0 <= i <= |lines|
      invariant newLines + RestoreLines(lines[i..], originalLine, restored) == RestoreLines(lines, originalLine, false)
    {
      var emitted, next, flag := RestoreTurn(lines, i, originalLine, restored);
      assert newLines + (emitted + RestoreLines(lines[next..], originalLine, flag))
          == (newLines + emitted) + RestoreLines(lines[next..], originalLine, flag);
      newLines, i, restored := newLines + emitted, next, flag;
    }
    assert newLines + [] == newLines;
    text := Join(newLines);
  }
}
