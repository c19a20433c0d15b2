/** Installing into a sway configuration and uninstalling again: exactly what comes back, and when. */
module SwayRoundTrip {
  import opened PyText
  import opened XkbOptions
  import opened SwayConfig

  // --------------------------------------------------- the lines the installer writes

  predicate NoBreaks(s: string) {
    forall i | 0 <= i < |s| :: !IsBreak(s[i])
  }

  lemma MarkerFacts()
    ensures NoBreaks(RESTORE_MARKER) && RESTORE_MARKER != "" && RESTORE_MARKER[0] == '#'
    ensures NoBreaks(MARKER) && MARKER != "" && MARKER[0] == '#' && Trimmed(MARKER)
    ensures LEGACY_MARKER != "" && LEGACY_MARKER[0] == '#'
    ensures !(RESTORE_MARKER <= MARKER)
  {
    assert MARKER[7] == '.' && RESTORE_MARKER[7] == ' ';
  }

  lemma {:induction false} RStripIdempotent(s: string)
    ensures RStrip(RStrip(s)) == RStrip(s)
  {
    var k := RStripIsPrefix(s);
  }

  lemma LiveIsPlain(line: string)
    requires IsLive(line)
    ensures IsBare(line) && !IsBackup(line) && !IsBlock(line)
  {
    MarkerFacts();
  }

  /** The line the uninstaller writes back is the directive that was there. */
  lemma OriginalComesBack(line: string)
    requires IsLive(line)
    ensures var back := RStrip(line) + "\n";
            RStrip(line) != "" && IsLive(back) && OptionsOf(back) == OptionsOf(line)
  {
    RStripIdempotent(line);
    RStripDropsSpace(RStrip(line), '\n');
  }

  lemma BackupLineIsBackup(line: string)
    requires IsLive(line)
    ensures IsBackup(BackupLine(line))
  {
    MarkerFacts();
    var k := RStripIsPrefix(line);
    var o := RStrip(line);
    assert o != "";
    var s := RESTORE_MARKER + " " + o;
    assert s[|s| - 1] == o[|o| - 1];
    RStripDropsSpace(s, '\n');
    assert RStrip(s) == s && LStrip(s) == s;
    assert RESTORE_MARKER <= s;
  }

  lemma TokensNonEmpty(s: string)
    requires s != "" && !IsSpace(s[0])
    ensures Tokens(s) != []
  {
    assert LStrip(s) == s;
  }

  lemma ThreeWords(a: string, b: string, c: string, value: string)
    requires IsWord(a) && IsWord(b) && IsWord(c)
    ensures var s := a + [' '] + (b + [' '] + (c + [' '] + value));
            Tokens(s) == [a] + ([b] + ([c] + Tokens(value))) && AfterWords(s, 3) == AfterWords(value, 0)
  {
    LeadingWord(c, ' ', value, 0);
    LeadingWord(b, ' ', c + [' '] + value, 1);
    LeadingWord(a, ' ', b + [' '] + (c + [' '] + value), 2);
  }

  lemma DirectiveTokens(value: string)
    ensures Tokens(Directive(value)) == ["input"] + (["*"] + (["xkb_options"] + Tokens(value)))
    ensures AfterWords(Directive(value), 3) == AfterWords(value, 0)
  {
    ThreeWords("input", "*", "xkb_options", value);
  }

  /** A directive line built from a trimmed value is live and carries exactly that value. */
  lemma DirectiveIsLive(value: string)
    requires value != "" && Trimmed(value)
    ensures var line := Directive(value) + "\n";
            IsLive(line) && OptionsOf(line) == ParseComma(value)
  {
    var s := Directive(value);
    assert s[0] == 'i' && s[|s| - 1] == value[|value| - 1];
    RStripDropsSpace(s, '\n');
    assert RStrip(s) == s && LStrip(s) == s;
    DirectiveTokens(value);
    TokensNonEmpty(value);
    StripFixesTrimmed(value);
    assert LStrip(value) == value;
  }

  lemma {:induction false} AfterWordsSuffix(s: string, n: nat) returns (k: nat)
    ensures k <= |s| && AfterWords(s, n) == s[k..]
    decreases n
  {
    hide LStrip, WordLength;
    k := LStripIsSuffix(s);
    var t := LStrip(s);
    if n > 0 && t != "" {
      var w := WordLength(t);
      var j := AfterWordsSuffix(t[w..], n - 1);
      assert t[w..] == s[k + w..];
      assert s[k + w..][j..] == s[k + w + j..];
      k := k + w + j;
    }
  }

  lemma MergedValueShape(line: string)
    requires NoBreaks(RStrip(line))
    ensures AreOptions(MergedOptions(line))
    ensures var value := FormatComma(MergedOptions(line));
            value != "" && Trimmed(value) && NoBreaks(value)
  {
    var o := RStrip(line);
    var tail := AfterWords(o, 3);
    var k := AfterWordsSuffix(o, 3);
    var i, j := StripIsSlice(tail);
    var plain := (set c | c in o) + (set c | c in CAPS_NONE);
    assert Strip(tail) == o[k + i..k + j];
    assert MadeOf(Strip(tail), plain);
    ParseGivesOptions(Strip(tail), plain);
    MergedFrom(OptionsOf(line), plain);
    forall c | c in plain ensures !IsBreak(c) { CapsIsPlain(); }
  }

  lemma MergedFrom(options: seq<string>, plain: set<char>)
    requires AreOptions(options) && forall i | 0 <= i < |options| :: MadeOf(options[i], plain)
    requires MadeOf(CAPS_NONE, plain)
    ensures var merged := MergeOption(options, CAPS_NONE);
            && AreOptions(merged) && Trimmed(FormatComma(merged)) && FormatComma(merged) != ""
            && MadeOf(FormatComma(merged), plain + {','})
  {
    MergeKeepsOptions(options);
    MergeExtends(options, CAPS_NONE);
    FormatCommaShape(MergeOption(options, CAPS_NONE), plain);
  }

  /** What the merged line holds: every option that was set before, in order, and caps:none. */
  lemma MergedLineOptions(line: string)
    requires IsLive(line) && NoBreaks(RStrip(line))
    ensures IsLive(MergedLine(line)) && Terminated(MergedLine(line))
    ensures OptionsOf(MergedLine(line)) == MergeOption(OptionsOf(line), CAPS_NONE)
    ensures MergedLine(MergedLine(line)) == MergedLine(line)
  {
    MergedValueShape(line);
    var value := FormatComma(MergedOptions(line));
    DirectiveIsLive(value);
    CommaRoundTrip(MergedOptions(line));
    MergeExtends(OptionsOf(line), CAPS_NONE);
    DirectiveTerminated(value);
  }

  lemma DirectiveTerminated(value: string)
    requires NoBreaks(value)
    ensures Terminated(Directive(value) + "\n")
  {
    var c, b, a := "xkb_options", "*", "input";
    assert NoBreaks(c + [' '] + value);
    assert NoBreaks(b + [' '] + (c + [' '] + value));
  }

  lemma CapsIsPlain()
    ensures NoBreaks(CAPS_NONE)
  {
  }

  lemma LineWithoutEnd(line: string)
    requires Terminated(line) || Unterminated(line)
    ensures NoBreaks(RStrip(line))
    ensures IsLive(line) ==> Terminated(RStrip(line) + "\n") && Terminated(BackupLine(line))
  {
    MarkerFacts();
    var k := RStripIsPrefix(line);
    if k == |line| && line != "" {
      assert !IsSpace(line[k - 1]);
    }
    var marked := RESTORE_MARKER + " ";
    assert NoBreaks(marked);
    assert BackupLine(line) == marked + RStrip(line) + "\n";
  }

  // ------------------------------------------------------------- restoring line lists

  predicate IsMarked(line: string) {
    IsBackup(line) || IsBlock(line)
  }

  ghost predicate NoneMarked(lines: seq<string>) {
    forall i | 0 <= i < |lines| :: !IsMarked(lines[i])
  }

  ghost predicate NoneBare(lines: seq<string>) {
    forall i | 0 <= i < |lines| :: !IsBare(lines[i])
  }

  lemma {:induction false} RestoredKeeps(lines: seq<string>, original: string)
    requires NoneMarked(lines)
    ensures RestoreLines(lines, original, true) == lines
  {
    hide IsBare, IsBackup, IsBlock;
    if lines != [] {
      assert !IsMarked(lines[0]);
      RestoredKeeps(lines[1..], original);
    }
  }

  lemma {:induction false} RestorePrefix(pre: seq<string>, rest: seq<string>, original: string)
    requires NoneMarked(pre) && NoneBare(pre)
    ensures RestoreLines(pre + rest, original, false) == pre + RestoreLines(rest, original, false)
  {
    hide IsBare, IsBackup, IsBlock;
    if pre == [] {
      assert pre + rest == rest;
    } else {
      assert !IsMarked(pre[0]) && !IsBare(pre[0]);
      assert (pre + rest)[1..] == pre[1..] + rest;
      RestorePrefix(pre[1..], rest, original);
    }
  }

  /** A bare directive ahead of the merged line is taken for it. */
  lemma {:induction false} BareIsTaken(pre: seq<string>, rest: seq<string>, original: string) returns (b: nat)
    requires NoneMarked(pre) && !NoneBare(pre)
    ensures b < |pre|
    ensures var r := RestoreLines(pre + rest, original, false);
            if original == "" then |r| == |pre| - 1 + |RestoreLines(rest, original, true)|
            else b < |r| && r[b] == original + "\n"
  {
    hide IsBare, IsBackup, IsBlock;
    assert !IsMarked(pre[0]);
    assert (pre + rest)[1..] == pre[1..] + rest;
    if IsBare(pre[0]) {
      b := 0;
      RestoredPrefix(pre[1..], rest, original);
    } else {
      b := BareIsTaken(pre[1..], rest, original);
      b := b + 1;
    }
  }

  lemma {:induction false} RestoredPrefix(pre: seq<string>, rest: seq<string>, original: string)
    requires NoneMarked(pre)
    ensures RestoreLines(pre + rest, original, true) == pre + RestoreLines(rest, original, true)
  {
    hide IsBare, IsBackup, IsBlock;
    if pre == [] {
      assert pre + rest == rest;
    } else {
      assert !IsMarked(pre[0]);
      assert (pre + rest)[1..] == pre[1..] + rest;
      RestoredPrefix(pre[1..], rest, original);
    }
  }

  /** Restoring never leaves a marker behind, whatever the file looks like. */
  lemma {:induction false} NoMarkerSurvives(lines: seq<string>, original: string, restored: bool)
    requires original != "" ==> !IsMarked(original + "\n")
    ensures NoneMarked(RestoreLines(lines, original, restored))
    decreases |lines|
  {
    hide IsBare, IsBackup, IsBlock;
    if lines != [] {
      var rest := if |lines| > 1 && IsBare(lines[1]) then lines[2..] else lines[1..];
      if !IsBackup(lines[0]) && IsBlock(lines[0]) {
        NoMarkerSurvives(rest, original, true);
        NoMarkerSurvives(rest, original, restored);
      } else {
        NoMarkerSurvives(lines[1..], original, true);
        NoMarkerSurvives(lines[1..], original, restored);
      }
    }
  }

  // ------------------------------------------------------------------- replace mode

  /** The original lines, the first directive right-stripped, later duplicates gone. */
  function Expected(lines: seq<string>): seq<string>
    requires FirstLive(lines) < |lines|
  {
    var f := FirstLive(lines);
    lines[..f] + ([RStrip(lines[f]) + "\n"] + WithoutLive(lines[f + 1..]))
  }

  /** What a user can check beforehand: no line of ours is there yet, and no directive without a
      value stands above the first one with a value. */
  ghost predicate Undisturbed(lines: seq<string>) {
    NoneMarked(lines) && NoneBare(lines[..FirstLive(lines)])
  }

  lemma NoneMarkedConcat(a: seq<string>, b: seq<string>)
    ensures NoneMarked(a + b) <==> NoneMarked(a) && NoneMarked(b)
  {
    hide IsMarked;
    var s := a + b;
    if NoneMarked(s) {
      assert forall i | 0 <= i < |a| :: a[i] == s[i];
      assert forall i | 0 <= i < |b| :: b[i] == s[|a| + i];
    }
  }

  lemma {:induction false} WithoutLiveMarks(lines: seq<string>)
    ensures NoneMarked(WithoutLive(lines)) <==> NoneMarked(lines)
  {
    hide IsLive, IsMarked;
    if lines != [] {
      WithoutLiveMarks(lines[1..]);
      assert lines == [lines[0]] + lines[1..];
      NoneMarkedConcat([lines[0]], lines[1..]);
      if IsLive(lines[0]) {
        LiveIsUnmarked(lines[0]);
        assert WithoutLive(lines) == WithoutLive(lines[1..]);
      } else {
        NoneMarkedConcat([lines[0]], WithoutLive(lines[1..]));
      }
    }
  }

  lemma LiveIsUnmarked(line: string)
    requires IsLive(line)
    ensures !IsMarked(line)
  {
    LiveIsPlain(line);
  }

  /** The backup comment is dropped and the merged line gives way to the original. */
  lemma RestoreReplacement(backup: string, merged: string, post: seq<string>, original: string)
    requires original != "" && IsBackup(backup) && IsBare(merged) && !IsMarked(merged) && NoneMarked(post)
    ensures RestoreLines([backup, merged] + post, original, false) == [original + "\n"] + post
  {
    hide IsBackup, IsBlock, IsBare;
    RestoredKeeps(post, original);
    assert ([backup, merged] + post)[1..] == [merged] + post;
    assert ([merged] + post)[1..] == post;
    assert RestoreLines([merged] + post, original, false) == [original + "\n"] + post;
  }

  /** The heart of replace mode, for any lines around the two the installer wrote. */
  lemma RestoreAround(pre: seq<string>, backup: string, merged: string, post: seq<string>, original: string,
                      other: seq<string>)
    requires original != "" && IsBackup(backup) && IsBare(merged) && !IsMarked(merged)
    requires IsLive(original + "\n") && forall i | 0 <= i < |pre| :: !IsLive(pre[i])
    ensures var result := RestoreLines(pre + ([backup, merged] + post), original, false);
            && NoneMarked(result)
            && (result == pre + ([original + "\n"] + post) <==> NoneMarked(pre) && NoneMarked(post) && NoneBare(pre))
            && (NoneMarked(pre) && !NoneBare(pre) ==> result != pre + other)
  {
    hide IsLive, IsBackup, IsBlock, IsBare;
    var back := original + "\n";
    LiveIsUnmarked(back);
    NoMarkerSurvives(pre + ([backup, merged] + post), original, false);
    NoneMarkedConcat(pre, [back] + post);
    NoneMarkedConcat([back], post);
    if NoneMarked(pre) {
      if NoneBare(pre) {
        RestorePrefix(pre, [backup, merged] + post, original);
        if NoneMarked(post) {
          RestoreReplacement(backup, merged, post, original);
        }
      } else {
        var b := BareIsTaken(pre, [backup, merged] + post, original);
        assert (pre + ([back] + post))[b] == pre[b] == (pre + other)[b];
      }
    }
  }

  lemma FirstLiveParts(lines: seq<string>)
    requires FirstLive(lines) < |lines|
    ensures var f := FirstLive(lines);
            && IsLive(lines[f]) && !IsMarked(lines[f])
            && lines == lines[..f] + ([lines[f]] + lines[f + 1..])
            && (NoneMarked(lines) <==> NoneMarked(lines[..f]) && NoneMarked(WithoutLive(lines[f + 1..])))
            && forall i | 0 <= i < f :: !IsLive(lines[..f][i])
  {
    hide IsLive, IsMarked;
    var f := FirstLive(lines);
    LiveIsUnmarked(lines[f]);
    WithoutLiveMarks(lines[f + 1..]);
    NoneMarkedConcat(lines[..f], [lines[f]] + lines[f + 1..]);
    NoneMarkedConcat([lines[f]], lines[f + 1..]);
  }

  lemma {:induction false} WrittenLineKinds(line: string)
    requires IsLive(line) && NoBreaks(RStrip(line))
    ensures RStrip(line) != "" && IsLive(RStrip(line) + "\n")
    ensures IsBackup(BackupLine(line)) && IsBare(MergedLine(line)) && !IsMarked(MergedLine(line))
  {
    hide IsLive, IsBare, IsBackup, BackupLine, MergedLine;
    OriginalComesBack(line);
    BackupLineIsBackup(line);
    MergedLineOptions(line);
    LiveIsPlain(MergedLine(line));
  }

  /** Line by line, the round trip gives the expected lines exactly on undisturbed configurations. */
  lemma ReplaceModeLines(lines: seq<string>)
    requires FirstLive(lines) < |lines| && NoBreaks(RStrip(lines[FirstLive(lines)]))
    ensures var result := RestoreLines(InstalledLines(lines), RStrip(lines[FirstLive(lines)]), false);
            && (result == Expected(lines) <==> Undisturbed(lines))
            && (result == lines ==> Undisturbed(lines))
  {
    hide IsLive, IsBare, IsMarked, IsBackup, BackupLine, MergedLine, RestoreLines, WithoutLive, RStrip, NoBreaks;
    var f := FirstLive(lines);
    var line := lines[f];
    var original := RStrip(line);
    var pre, post := lines[..f], WithoutLive(lines[f + 1..]);
    FirstLiveParts(lines);
    WrittenLineKinds(line);
    RestoreAround(pre, BackupLine(line), MergedLine(line), post, original, [line] + lines[f + 1..]);
  }

  // ------------------------------------------------------------- from lines to texts

  ghost predicate AllTerminated(lines: seq<string>) {
    forall i | 0 <= i < |lines| :: Terminated(lines[i])
  }

  lemma {:induction false} WithoutLiveLineList(lines: seq<string>)
    requires LineList(lines)
    ensures LineList(WithoutLive(lines))
  {
    if lines != [] {
      WithoutLiveLineList(lines[1..]);
      var rest := WithoutLive(lines[1..]);
      if !IsLive(lines[0]) {
        if |lines| == 1 {
          assert rest == [];
        }
        assert WithoutLive(lines) == [lines[0]] + rest;
      }
    }
  }

  lemma LineListTails(lines: seq<string>)
    requires LineList(lines) && lines != []
    ensures LineList(lines[1..]) && (|lines| > 1 ==> LineList(lines[2..]) && Terminated(lines[0]))
  {
    hide Terminated, Unterminated;
  }

  lemma {:induction false} RestoreLineList(lines: seq<string>, original: string, restored: bool)
    requires LineList(lines) && (original != "" ==> Terminated(original + "\n"))
    ensures LineList(RestoreLines(lines, original, restored))
    decreases |lines|
  {
    hide IsBare, IsBackup, IsBlock, LineList, Terminated, Unterminated;
    if lines != [] {
      var back := original + "\n";
      LineListTails(lines);
      var block := !IsBackup(lines[0]) && IsBlock(lines[0]);
      var rest := if block && |lines| > 1 && IsBare(lines[1]) then lines[2..] else lines[1..];
      RestoreLineList(rest, original, true);
      RestoreLineList(rest, original, restored);
      if original != "" {
        LineListStep(back, RestoreLines(rest, original, true));
      }
      assert [] + RestoreLines(rest, original, true) == RestoreLines(rest, original, true);
      if !IsMarked(lines[0]) && (restored || !IsBare(lines[0])) {
        LineListSplit(lines, 0);
        LineListStep(lines[0], RestoreLines(rest, original, restored));
      }
    } else {
      TerminatedLineList([]);
    }
  }

  lemma LineListConcat(a: seq<string>, b: seq<string>)
    requires AllTerminated(a) && LineList(b)
    ensures LineList(a + b)
  {
    hide Terminated, Unterminated;
  }

  lemma LineListSplit(lines: seq<string>, f: nat)
    requires LineList(lines) && f < |lines|
    ensures AllTerminated(lines[..f]) && LineList(lines[f + 1..])
    ensures Terminated(lines[f]) || Unterminated(lines[f])
  {
    hide Terminated, Unterminated;
  }

  lemma TerminatedLineList(lines: seq<string>)
    requires AllTerminated(lines)
    ensures LineList(lines)
  {
    hide Terminated, Unterminated;
  }

  lemma LineListAround(pre: seq<string>, written: seq<string>, rest: seq<string>)
    requires AllTerminated(pre) && AllTerminated(written) && LineList(rest)
    ensures LineList(pre + (written + rest))
  {
    LineListConcat(written, rest);
    LineListConcat(pre, written + rest);
  }

  lemma InstalledLineLists(lines: seq<string>)
    requires LineList(lines) && FirstLive(lines) < |lines|
    ensures var f := FirstLive(lines);
            && NoBreaks(RStrip(lines[f])) && Terminated(RStrip(lines[f]) + "\n")
            && LineList(InstalledLines(lines)) && LineList(Expected(lines))
  {
    hide Terminated, Unterminated, IsLive, BackupLine, MergedLine, RStrip, WithoutLive, NoBreaks, LineList, FirstLive,
         OptionsOf, MergeOption;
    var f := FirstLive(lines);
    var line := lines[f];
    LineListSplit(lines, f);
    LineWithoutEnd(line);
    MergedLineOptions(line);
    var pre, rest := lines[..f], lines[f + 1..];
    WithoutLiveLineList(rest);
    LineListAround(pre, [BackupLine(line), MergedLine(line)], WithoutLive(rest));
    LineListAround(pre, [RStrip(line) + "\n"], WithoutLive(rest));
  }

  // ------------------------------------------------------------------- main results

  /** In replace mode the round trip is the restore of the installed lines, text for text. */
  lemma ReplaceModeTexts(text: string)
    requires NewlinesOnly(text)
    requires FirstLive(SplitLines(text)) < |SplitLines(text)|
    ensures var lines := SplitLines(text);
            var original := RStrip(lines[FirstLive(lines)]);
            var result := RestoreLines(InstalledLines(lines), original, false);
            && NoBreaks(original)
            && (RoundTrip(text) == Join(Expected(lines)) <==> result == Expected(lines))
            && (RoundTrip(text) == text <==> result == lines)
  {
    hide IsLive, IsBare, IsBackup, IsBlock, LineList, InstalledLines, Expected, RestoreLines, HasMarker, NoBreaks,
         FirstLive, RStrip, Terminated;
    var lines := SplitLines(text);
    var original := RStrip(lines[FirstLive(lines)]);
    var result := RestoreLines(InstalledLines(lines), original, false);
    SplitGivesLines(text);
    InstalledLineLists(lines);
    SplitOfJoin(InstalledLines(lines));
    RestoreLineList(InstalledLines(lines), original, false);
    JoinInjective(result, Expected(lines));
    JoinInjective(result, lines);
  }

  /** Replace mode: installing and uninstalling gives the original text back with the first
      directive right-stripped and its later duplicates removed, exactly when the configuration
      was undisturbed. */
  lemma ReplaceModeRoundTrip(text: string)
    requires NewlinesOnly(text)
    requires FirstLive(SplitLines(text)) < |SplitLines(text)|
    ensures RoundTrip(text) == Join(Expected(SplitLines(text))) <==> Undisturbed(SplitLines(text))
  {
    hide IsLive, InstalledLines, Expected, RestoreLines, RoundTrip, Undisturbed;
    ReplaceModeTexts(text);
    ReplaceModeLines(SplitLines(text));
  }

  /** It gives back the very same text exactly when, besides, the directive was the only one and
      ended in a bare newline. */
  lemma {:induction false} ReplaceModeIdentity(text: string)
    requires NewlinesOnly(text)
    requires FirstLive(SplitLines(text)) < |SplitLines(text)|
    ensures var lines, f := SplitLines(text), FirstLive(SplitLines(text));
            (RoundTrip(text) == text
             <==> Undisturbed(lines) && lines[f] == RStrip(lines[f]) + "\n"
                  && NoneLiveFrom(lines, f + 1))
  {
    hide IsLive, InstalledLines, Expected, RestoreLines, RoundTrip, Undisturbed, NoneLiveFrom, FirstLive, RStrip;
    ReplaceModeTexts(text);
    ReplaceModeLines(SplitLines(text));
    ExpectedIsIdentity(SplitLines(text));
  }

  ghost predicate NoneLiveFrom(lines: seq<string>, from: nat) {
    forall i | from <= i < |lines| :: !IsLive(lines[i])
  }

  lemma {:induction false} ExpectedIsIdentity(lines: seq<string>)
    requires FirstLive(lines) < |lines|
    ensures var f := FirstLive(lines);
            (Expected(lines) == lines <==> lines[f] == RStrip(lines[f]) + "\n" && NoneLiveFrom(lines, f + 1))
  {
    hide IsLive, RStrip, WithoutLive, FirstLive;
    var f := FirstLive(lines);
    ReplacedIsIdentity(lines, f, RStrip(lines[f]) + "\n");
  }

  lemma ReplacedIsIdentity(lines: seq<string>, f: nat, back: string)
    requires f < |lines|
    ensures lines[..f] + ([back] + WithoutLive(lines[f + 1..])) == lines
       <==> lines[f] == back && NoneLiveFrom(lines, f + 1)
  {
    hide IsLive, WithoutLive;
    var post := lines[f + 1..];
    assert lines == lines[..f] + ([lines[f]] + post);
    SameAround(lines[..f], back, WithoutLive(post), lines[f], post);
    WithoutLiveIsIdentity(post);
    assert forall i | f < i < |lines| :: lines[i] == post[i - f - 1];
  }

  lemma WithoutLiveIsIdentity(lines: seq<string>)
    ensures WithoutLive(lines) == lines <==> forall i | 0 <= i < |lines| :: !IsLive(lines[i])
  {
    hide IsLive;
    if forall i | 0 <= i < |lines| :: !IsLive(lines[i]) {
      WithoutLiveOfNone(lines);
    }
  }

  lemma SameAround(pre: seq<string>, a: string, x: seq<string>, b: string, y: seq<string>)
    ensures pre + ([a] + x) == pre + ([b] + y) <==> a == b && x == y
  {
    var l, r := pre + ([a] + x), pre + ([b] + y);
    if l == r {
      assert l[|pre|] == a && r[|pre|] == b;
      assert l[|pre| + 1..] == x && r[|pre| + 1..] == y;
    }
  }

  lemma {:induction false} LastLineEnds(lines: seq<string>)
    requires LineList(lines) && lines != []
    ensures Join(lines) != "" && Join(lines)[|Join(lines)| - 1] == lines[|lines| - 1][|lines[|lines| - 1]| - 1]
  {
    if |lines| > 1 {
      LastLineEnds(lines[1..]);
    } else {
      assert Join(lines) == lines[0] + Join(lines[1..]) && Join(lines[1..]) == "";
    }
  }

  lemma CompletedLines(text: string)
    requires NewlinesOnly(text)
    ensures AllTerminated(SplitLines(Completed(text))) && Join(SplitLines(Completed(text))) == Completed(text)
  {
    var whole := Completed(text);
    assert NewlinesOnly(whole);
    SplitGivesLines(whole);
    if whole != "" {
      LastLineEnds(SplitLines(whole));
    }
  }

  function BlockLines(): seq<string> {
    ["\n", MARKER + "\n", Directive(CAPS_NONE) + "\n"]
  }

  lemma BlankLineKind()
    ensures !IsMarked("\n") && !IsBare("\n") && Terminated("\n")
  {
    MarkerFacts();
    var blank, none := "\n", "";
    assert blank[..0] == none && RStrip(none) == none && RStrip(blank) == none;
    assert Strip(blank) == none;
    assert Tokens(none) == [];
  }

  lemma MarkerLineKind()
    ensures IsBlock(MARKER + "\n") && !IsBackup(MARKER + "\n") && Terminated(MARKER + "\n")
  {
    MarkerFacts();
    RStripDropsSpace(MARKER, '\n');
    StripFixesTrimmed(MARKER);
  }

  lemma CapsLineKind()
    ensures IsBare(Directive(CAPS_NONE) + "\n") && Terminated(Directive(CAPS_NONE) + "\n")
  {
    CapsIsPlain();
    DirectiveTerminated(CAPS_NONE);
    DirectiveIsLive(CAPS_NONE);
    LiveIsPlain(Directive(CAPS_NONE) + "\n");
  }

  lemma BlockLineKinds()
    ensures AllTerminated(BlockLines()) && Join(BlockLines()) == APPENDED
  {
    hide Terminated;
    BlankLineKind();
    MarkerLineKind();
    CapsLineKind();
    var b1, b2, b3 := "\n", MARKER + "\n", Directive(CAPS_NONE) + "\n";
    JoinThree(b1, b2, b3);
  }

  lemma JoinThree(a: string, b: string, c: string)
    ensures Join([a, b, c]) == a + (b + c)
  {
    var all := [a, b, c];
    assert all[1..] == [b, c] && all[1..][1..] == [c] && all[1..][1..][1..] == [];
    assert Join([c]) == c + Join([c][1..]) == c;
    assert Join([b, c]) == b + Join([b, c][1..]);
  }

  /** Without a saved original the whole block goes and the blank line before it stays. */
  lemma RestoreOfThree(blank: string, marker: string, directive: string, restored: bool)
    requires !IsMarked(blank) && !IsBare(blank) && IsBlock(marker) && !IsBackup(marker) && IsBare(directive)
    ensures RestoreLines([blank, marker, directive], "", restored) == [blank]
  {
    hide IsBackup, IsBlock, IsBare;
    var b := [blank, marker, directive];
    var c := b[1..];
    assert c == [marker, directive] && c[2..] == [];
    assert RestoreLines(c, "", restored) == RestoreLines(c[2..], "", restored) == [];
  }

  lemma RestoreOfBlock()
    ensures RestoreLines(BlockLines(), "", false) == ["\n"] == RestoreLines(BlockLines(), "", true)
  {
    hide IsMarked, IsBackup, IsBlock, IsBare;
    BlankLineKind();
    MarkerLineKind();
    CapsLineKind();
    RestoreOfThree("\n", MARKER + "\n", Directive(CAPS_NONE) + "\n", false);
    RestoreOfThree("\n", MARKER + "\n", Directive(CAPS_NONE) + "\n", true);
  }

  /** A marker line makes the marker occur in the text. */
  lemma {:induction false} LineOccurs(lines: seq<string>, k: nat, sub: string) returns (at: nat)
    requires k < |lines| && Strip(lines[k]) == sub
    ensures OccursAt(Join(lines), sub, at)
  {
    var s := Join(lines);
    if k == 0 {
      var i, j := StripIsSlice(lines[0]);
      at := i;
      assert s[i..j] == lines[0][i..j];
    } else {
      var inner := LineOccurs(lines[1..], k - 1, sub);
      at := |lines[0]| + inner;
      assert s[at..at + |sub|] == Join(lines[1..])[inner..inner + |sub|];
    }
  }

  /** A trimmed word found in the completed text was in the text itself. */
  lemma OccursBeforeCompletion(text: string, sub: string, at: nat)
    requires sub != "" && Trimmed(sub) && OccursAt(Completed(text), sub, at)
    ensures Contains(text, sub)
  {
    var whole := Completed(text);
    assert sub[|sub| - 1] == whole[at + |sub| - 1];
    assert at + |sub| <= |text|;
    assert text[at..at + |sub|] == whole[at..at + |sub|];
    assert OccursAt(text, sub, at);
    ContainsIffOccurs(text, sub);
  }

  lemma NoMarkerNoBlock(text: string, k: nat)
    requires NewlinesOnly(text) && !HasMarker(text) && k < |SplitLines(Completed(text))|
    ensures !IsBlock(SplitLines(Completed(text))[k])
  {
    hide Terminated;
    var lines := SplitLines(Completed(text));
    CompletedLines(text);
    MarkerFacts();
    var sub := Strip(lines[k]);
    if IsBlock(lines[k]) {
      var at := LineOccurs(lines, k, sub);
      var i, j := StripIsSlice(lines[k]);
      OccursBeforeCompletion(text, sub, at);
      assert false;
    }
  }

  /** Append mode: the round trip keeps every original line, supplies a missing final newline,
      leaves one blank line and no directive, exactly when no line was a directive without a value
      or one of our backup comments. */
  lemma AppendModeRoundTrip(text: string)
    requires NewlinesOnly(text) && !HasMarker(text)
    requires FirstLive(SplitLines(text)) == |SplitLines(text)|
    ensures var lines := SplitLines(Completed(text));
            var clean := forall i | 0 <= i < |lines| :: !IsBare(lines[i]) && !IsBackup(lines[i]);
            && (RoundTrip(text) == Completed(text) + "\n" <==> clean)
            && (clean ==> SplitLines(RoundTrip(text)) == lines + ["\n"]
                          && forall l | l in SplitLines(RoundTrip(text)) :: !IsLive(l))
  {
    hide IsBare, IsBackup, IsBlock, IsLive, Terminated, Unterminated;
    var lines := SplitLines(Completed(text));
    CompletedLines(text);
    forall k | 0 <= k < |lines| ensures !IsBlock(lines[k]) { NoMarkerNoBlock(text, k); }
    var kept := lines + ["\n"];
    AppendedLines(text);
    RestoreAppended(lines);
    if NoneBare(lines) && NoneMarked(lines) {
      BlankLineKind();
      NoLiveLeft(kept);
    }
  }

  lemma AppendedLines(text: string)
    requires NewlinesOnly(text) && !HasMarker(text)
    requires FirstLive(SplitLines(text)) == |SplitLines(text)|
    ensures var lines := SplitLines(Completed(text));
            var result := RestoreLines(lines + BlockLines(), "", false);
            && SplitLines(RoundTrip(text)) == result
            && (RoundTrip(text) == Completed(text) + "\n" <==> result == lines + ["\n"])
  {
    hide IsLive, IsBare, IsMarked, Terminated, Unterminated, BlockLines, RestoreLines, FirstLive, LineList;
    var lines := SplitLines(Completed(text));
    var blank := ["\n"];
    var all, kept := lines + BlockLines(), lines + blank;
    CompletedLines(text);
    BlockLineKinds();
    BlankLineKind();
    JoinConcat(lines, BlockLines());
    JoinConcat(lines, blank);
    assert Join(blank) == "\n" + Join(blank[1..]) == "\n";
    TerminatedLineList(all);
    TerminatedLineList(kept);
    SplitOfJoin(all);
    RestoreLineList(all, "", false);
    SplitOfJoin(RestoreLines(all, "", false));
    JoinInjective(RestoreLines(all, "", false), kept);
  }

  lemma RestoreAppended(lines: seq<string>)
    ensures RestoreLines(lines + BlockLines(), "", false) == lines + ["\n"] <==> NoneBare(lines) && NoneMarked(lines)
  {
    hide IsBare, IsMarked, BlockLines;
    var blank := ["\n"];
    RestoreOfBlock();
    if !NoneMarked(lines) {
      NoMarkerSurvives(lines + BlockLines(), "", false);
      NoneMarkedConcat(lines, blank);
    } else if !NoneBare(lines) {
      var b := BareIsTaken(lines, BlockLines(), "");
      assert |RestoreLines(lines + BlockLines(), "", false)| < |lines + blank|;
    } else {
      RestorePrefix(lines, BlockLines(), "");
    }
  }

  lemma NoLiveLeft(lines: seq<string>)
    requires NoneBare(lines)
    ensures forall l | l in lines :: !IsLive(l)
  {
    forall l | l in lines ensures !IsLive(l) {
      if IsLive(l) { LiveIsPlain(l); }
    }
  }

  /** A configuration that already carries the marker but no directive is left alone by the
      installer, and comes back whole from the uninstaller exactly when no line is ours. */
  lemma MarkedModeRoundTrip(text: string)
    requires NewlinesOnly(text) && HasMarker(text)
    requires FirstLive(SplitLines(text)) == |SplitLines(text)|
    ensures Install(text).0 == text
    ensures RoundTrip(text) == text <==> NoneBare(SplitLines(text)) && NoneMarked(SplitLines(text))
  {
    var lines := SplitLines(text);
    SplitGivesLines(text);
    var result := RestoreLines(lines, "", false);
    RestoreLineList(lines, "", false);
    JoinInjective(result, lines);
    assert lines + [] == lines;
    if !NoneMarked(lines) {
      NoMarkerSurvives(lines, "", false);
    } else if !NoneBare(lines) {
      var b := BareIsTaken(lines, [], "");
      assert |result| < |lines|;
    } else {
      RestorePrefix(lines, [], "");
    }
  }

  lemma BareTokens(line: string)
    requires line == "input * xkb_options\n"
    ensures Tokens(line) == ["input", "*", "xkb_options"]
  {
    hide Tokens, AfterWords;
    var third := "xkb_options" + ['\n'] + "";
    assert line == "input" + [' '] + ("*" + [' '] + third);
    LeadingWord("input", ' ', "*" + [' '] + third, 0);
    LeadingWord("*", ' ', third, 0);
    LeadingWord("xkb_options", '\n', "", 0);
    NoTokens();
    assert ["input"] + (["*"] + (["xkb_options"] + [])) == ["input", "*", "xkb_options"];
  }

  lemma NoTokens()
    ensures Tokens("") == []
  {
  }

  lemma BareDirective(line: string)
    requires line == "input * xkb_options\n"
    ensures IsBare(line) && !IsLive(line)
  {
    hide Tokens, Strip;
    BareTokens(line);
    TokensStrip(line);
    TokensStrip(Strip(line));
  }

  lemma BareTerminated(line: string)
    requires line == "input * xkb_options\n"
    ensures Terminated(line)
  {
    assert |line| == 20;
    assert forall i | 0 <= i < 19 :: !IsBreak(line[i]);
  }

  /** The round trip does fail: a directive without a value above the first one with a value. */
  lemma BareDirectiveBreaksRoundTrip() returns (text: string)
    ensures NewlinesOnly(text) && FirstLive(SplitLines(text)) < |SplitLines(text)|
    ensures NoneMarked(SplitLines(text)) && RoundTrip(text) != Join(Expected(SplitLines(text)))
  {
    hide RoundTrip, Expected, IsLive, IsBare, Terminated, IsMarked;
    var bare, live := "input * xkb_options\n", Directive(CAPS_NONE) + "\n";
    var lines := [bare, live];
    text := Join(lines);
    BareDirective(bare);
    BareTerminated(bare);
    CapsIsPlain();
    CapsLineKind();
    DirectiveIsLive(CAPS_NONE);
    TerminatedLineList(lines);
    SplitOfJoin(lines);
    JoinedNewlinesOnly(bare, live);
    FirstLiveOfTwo(bare, live);
    LiveIsUnmarked(live);
    BareIsUnmarked(bare);
    assert lines[..1][0] == bare;
    assert !NoneBare(lines[..1]);
    ReplaceModeRoundTrip(text);
  }

  lemma FirstLiveOfTwo(bare: string, live: string)
    requires !IsLive(bare) && IsLive(live)
    ensures FirstLive([bare, live]) == 1
  {
    hide IsLive;
    assert [bare, live][1..] == [live];
  }

  lemma BareIsUnmarked(line: string)
    requires line == "input * xkb_options\n"
    ensures !IsMarked(line)
  {
    MarkerFacts();
    var i, j := StripIsSlice(line);
    assert '#' !in line;
    assert Strip(line) != "" ==> Strip(line)[0] == line[i];
  }

  lemma JoinedNewlinesOnly(bare: string, live: string)
    requires bare == "input * xkb_options\n" && live == Directive(CAPS_NONE) + "\n"
    ensures NewlinesOnly(Join([bare, live]))
  {
    assert [bare, live][1..] == [live] && [live][1..] == [];
    assert Join([live]) == live + Join([]) == live;
  }
}
