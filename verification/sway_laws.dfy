/** What installing and uninstalling leave alone, and what installing achieves, on every configuration. */
module SwayLaws {
  import opened PyText
  import opened XkbOptions
  import opened SwayConfig
  import opened SwayRoundTrip

  // ---------------------------------------------------------------- our own lines, as texts

  /** A backup comment is the restore marker behind any white space, whatever follows. */
  lemma BackupIsText(line: string)
    ensures IsBackup(line)
       <==> exists b, rest :: Blanks(b) && line == b + ("# Lausu (original, preserved for restore):" + rest)
  {
    hide Strip;
    var marker := RESTORE_MARKER;
    assert marker[0] == '#' && marker[|marker| - 1] == ':';
    PrefixOfStripped(line, marker);
  }

  /** A block marker is one of the two marker comments alone between white space. */
  lemma BlockIsText(line: string)
    ensures IsBlock(line)
       <==> exists b, rest :: Blanks(b) && Blanks(rest)
              && (line == b + "# Lausu. Caps Lock neutralization" + rest
                  || line == b + "# Lausu \U{2014} Caps Lock neutralization" + rest)
  {
    hide Strip, Blanks;
    var marker, legacy := MARKER, LEGACY_MARKER;
    assert marker[0] == legacy[0] == '#' && marker[|marker| - 1] == legacy[|legacy| - 1] == 'n';
    WholeOfStripped(line, marker);
    WholeOfStripped(line, legacy);
  }

  /** The installer holds back exactly when one of the marker comments occurs somewhere in the text. */
  lemma HasMarkerIsText(text: string)
    ensures HasMarker(text)
       <==> exists i :: OccursAt(text, "# Lausu. Caps Lock neutralization", i)
                        || OccursAt(text, "# Lausu \U{2014} Caps Lock neutralization", i)
  {
    hide OccursAt;
    ContainsIffOccurs(text, MARKER);
    ContainsIffOccurs(text, LEGACY_MARKER);
  }

  // ------------------------------------------------------------- lines that are nobody's business

  /** The lines that are neither directives nor ours. */
  function Plain(lines: seq<string>): seq<string> {
    if lines == [] then []
    else (if IsMarked(lines[0]) || IsBare(lines[0]) then [] else [lines[0]]) + Plain(lines[1..])
  }

  lemma {:induction false} PlainConcat(a: seq<string>, b: seq<string>)
    ensures Plain(a + b) == Plain(a) + Plain(b)
  {
    hide IsMarked, IsBare;
    if a == [] {
      assert a + b == b;
    } else {
      assert (a + b)[1..] == a[1..] + b;
      PlainConcat(a[1..], b);
    }
  }

  lemma PlainCons(line: string, rest: seq<string>)
    ensures Plain([line] + rest) == (if IsMarked(line) || IsBare(line) then [] else [line]) + Plain(rest)
  {
    hide IsMarked, IsBare;
    assert ([line] + rest)[1..] == rest;
  }

  /** The uninstaller keeps every plain line of any file, in order, and adds none. */
  lemma {:induction false} UninstallKeepsPlain(lines: seq<string>, original: string, restored: bool)
    requires original != "" ==> IsBare(original + "\n") || IsMarked(original + "\n")
    ensures Plain(RestoreLines(lines, original, restored)) == Plain(lines)
    decreases |lines|
  {
    hide IsBare, IsBackup, IsBlock;
    if lines != [] {
      var block := !IsBackup(lines[0]) && IsBlock(lines[0]);
      var rest := if block && |lines| > 1 && IsBare(lines[1]) then lines[2..] else lines[1..];
      UninstallKeepsPlain(rest, original, true);
      UninstallKeepsPlain(rest, original, restored);
      assert |lines| > 1 ==> lines[1..][1..] == lines[2..];
      PlainCons(original + "\n", RestoreLines(rest, original, true));
      PlainCons(lines[0], RestoreLines(rest, original, restored));
      assert [] + RestoreLines(rest, original, true) == RestoreLines(rest, original, true);
    }
  }

  /** How often a line occurs. */
  function Times(lines: seq<string>, x: string): nat {
    if lines == [] then 0 else (if lines[0] == x then 1 else 0) + Times(lines[1..], x)
  }

  lemma TimesCons(line: string, rest: seq<string>, x: string)
    ensures Times([line] + rest, x) == (if line == x then 1 else 0) + Times(rest, x)
  {
    assert ([line] + rest)[1..] == rest;
  }

  /** It writes the saved line at most once, and otherwise only what was there, no more often. */
  lemma {:induction false} OriginalAtMostOnce(lines: seq<string>, original: string, restored: bool, x: string)
    ensures Times(RestoreLines(lines, original, restored), x)
         <= Times(lines, x) + (if original != "" && !restored && x == original + "\n" then 1 else 0)
    decreases |lines|
  {
    hide IsBare, IsBackup, IsBlock;
    if lines != [] {
      var block := !IsBackup(lines[0]) && IsBlock(lines[0]);
      var rest := if block && |lines| > 1 && IsBare(lines[1]) then lines[2..] else lines[1..];
      assert |lines| > 1 ==> lines[1..][1..] == lines[2..];
      OriginalAtMostOnce(rest, original, restored, x);
      OriginalAtMostOnce(rest, original, true, x);
      TimesCons(original + "\n", RestoreLines(rest, original, true), x);
      TimesCons(lines[0], RestoreLines(rest, original, restored), x);
      assert [] + RestoreLines(rest, original, true) == RestoreLines(rest, original, true);
    }
  }

  lemma {:induction false} WithoutLiveIsPlain(lines: seq<string>)
    ensures Plain(WithoutLive(lines)) == Plain(lines)
  {
    hide IsLive, IsBare, IsMarked;
    if lines != [] {
      WithoutLiveIsPlain(lines[1..]);
      if IsLive(lines[0]) {
        LiveIsPlain(lines[0]);
        assert WithoutLive(lines) == [] + WithoutLive(lines[1..]) == WithoutLive(lines[1..]);
        assert Plain(lines) == [] + Plain(lines[1..]) == Plain(lines[1..]);
      } else {
        PlainCons(lines[0], WithoutLive(lines[1..]));
      }
    }
  }

  lemma PlainAround(pre: seq<string>, line: string, rest: seq<string>, backup: string, merged: string,
                    kept: seq<string>)
    requires IsBare(line) && IsBare(merged) && IsMarked(backup) && Plain(kept) == Plain(rest)
    ensures Plain(pre + ([backup, merged] + kept)) == Plain(pre + ([line] + rest))
  {
    hide IsBare, IsMarked, Plain;
    PlainConcat(pre, [line] + rest);
    PlainCons(line, rest);
    assert [backup, merged] + kept == [backup] + ([merged] + kept);
    PlainConcat(pre, [backup] + ([merged] + kept));
    PlainCons(backup, [merged] + kept);
    PlainCons(merged, kept);
    assert [] + Plain(kept) == Plain(kept) && [] + Plain(rest) == Plain(rest);
  }

  lemma InstalledParts(lines: seq<string>)
    requires FirstLive(lines) < |lines|
    ensures var f := FirstLive(lines);
            InstalledLines(lines)
            == lines[..f] + ([BackupLine(lines[f]), MergedLine(lines[f])] + WithoutLive(lines[f + 1..]))
  {
    hide FirstLive, IsLive, BackupLine, MergedLine, WithoutLive;
  }

  /** So does the installer when it rewrites a directive. */
  lemma InstallKeepsPlain(lines: seq<string>)
    requires FirstLive(lines) < |lines| && NoBreaks(RStrip(lines[FirstLive(lines)]))
    ensures Plain(InstalledLines(lines)) == Plain(lines)
  {
    hide *;
    var f := FirstLive(lines);
    var line, rest := lines[f], lines[f + 1..];
    FirstLiveParts(lines);
    InstalledParts(lines);
    WrittenLineKinds(line);
    LiveIsPlain(line);
    BackupIsMarked(BackupLine(line));
    WithoutLiveIsPlain(rest);
    PlainAround(lines[..f], line, rest, BackupLine(line), MergedLine(line), WithoutLive(rest));
  }

  lemma BackupIsMarked(line: string)
    requires IsBackup(line)
    ensures IsMarked(line)
  {
  }

  /** Whatever the configuration looked like, even where the round trip fails: installing over a directive
      and uninstalling gives back every other line that is not ours, in order. */
  lemma {:induction false} RoundTripKeepsPlain(text: string)
    requires NewlinesOnly(text) && FirstLive(SplitLines(text)) < |SplitLines(text)|
    ensures Plain(SplitLines(RoundTrip(text))) == Plain(SplitLines(text))
  {
    hide IsLive, IsBare, IsMarked, IsBackup, IsBlock, InstalledLines, RestoreLines, RStrip, NoBreaks, FirstLive,
         LineList, HasMarker, Terminated, Plain;
    var lines := SplitLines(text);
    var original := RStrip(lines[FirstLive(lines)]);
    SplitGivesLines(text);
    InstalledLineLists(lines);
    SplitOfJoin(InstalledLines(lines));
    RestoreLineList(InstalledLines(lines), original, false);
    SplitOfJoin(RestoreLines(InstalledLines(lines), original, false));
    OriginalComesBack(lines[FirstLive(lines)]);
    LiveIsPlain(original + "\n");
    InstallKeepsPlain(lines);
    UninstallKeepsPlain(InstalledLines(lines), original, false);
  }

  // ------------------------------------------------------------------- what installing achieves

  ghost predicate SetsCapsNone(lines: seq<string>) {
    exists i :: 0 <= i < |lines| && IsLive(lines[i]) && "caps:none" in OptionsOf(lines[i])
  }

  lemma MergedSetsCapsNone(lines: seq<string>)
    requires LineList(lines) && FirstLive(lines) < |lines|
    ensures SetsCapsNone(InstalledLines(lines))
  {
    hide LineList, IsLive, RStrip, MergedLine, BackupLine, OptionsOf, WithoutLive, FirstLive;
    var f := FirstLive(lines);
    InstalledLineLists(lines);
    MergedLineOptions(lines[f]);
    MergeExtends(OptionsOf(lines[f]), CAPS_NONE);
    assert InstalledLines(lines)[f + 1] == MergedLine(lines[f]);
  }

  lemma CapsOnlyParses()
    ensures ParseComma(CAPS_NONE) == [CAPS_NONE]
  {
    MergeKeepsOptions([]);
    ParseFormatOptions([CAPS_NONE]);
  }

  lemma CapsIsTrimmed()
    ensures CAPS_NONE != "" && Trimmed(CAPS_NONE)
  {
  }

  lemma BlockSetsCapsNone(lines: seq<string>)
    ensures SetsCapsNone(lines + BlockLines())
  {
    hide IsLive, OptionsOf, Directive, ParseComma, FormatComma, IsOption;
    CapsOnlyParses();
    CapsIsTrimmed();
    DirectiveIsLive(CAPS_NONE);
    var all := lines + BlockLines();
    assert all[|lines| + 2] == Directive(CAPS_NONE) + "\n";
    assert "caps:none" in [CAPS_NONE];
  }

  /** After installing, a directive sets `caps:none`, except exactly when one of the markers was there
      already without any directive: then the installer relies on it and writes nothing. */
  lemma {:induction false} InstallSetsCapsNone(text: string)
    requires NewlinesOnly(text)
    ensures SetsCapsNone(SplitLines(Install(text).0))
       <==> FirstLive(SplitLines(text)) < |SplitLines(text)| || !HasMarker(text)
  {
    hide IsLive, OptionsOf, InstalledLines, HasMarker, LineList, FirstLive, SetsCapsNone, RStrip, BlockLines,
         Terminated;
    var lines := SplitLines(text);
    SplitGivesLines(text);
    if FirstLive(lines) < |lines| {
      InstalledLineLists(lines);
      SplitOfJoin(InstalledLines(lines));
      MergedSetsCapsNone(lines);
    } else if !HasMarker(text) {
      var whole := SplitLines(Completed(text));
      CompletedLines(text);
      BlockLineKinds();
      JoinConcat(whole, BlockLines());
      BothTerminated(whole, BlockLines());
      SplitOfJoin(whole + BlockLines());
      BlockSetsCapsNone(whole);
    } else {
      NoLiveNoCaps(lines);
    }
  }

  lemma BothTerminated(a: seq<string>, b: seq<string>)
    requires AllTerminated(a) && AllTerminated(b)
    ensures LineList(a + b)
  {
    hide Terminated, Unterminated;
  }

  lemma NoLiveNoCaps(lines: seq<string>)
    requires FirstLive(lines) == |lines|
    ensures !SetsCapsNone(lines)
  {
    hide IsLive;
  }
}
