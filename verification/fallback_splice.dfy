/**
 * The generated fallback dict of scripts/populate_model_hashes.py: rendering the pinned repositories
 * as source text, and splicing that text into security.py between two searched-for anchors.
 */
module FallbackSplice {
  import opened Wrappers
  import opened PyText
  import opened Slices

  const ANCHOR_START: string := "# Hardcoded fallback,"
  const ANCHOR_MIDDLE: string := " mirrors model_hashes.json"
  const ANCHOR_END: string := " so that even if the JSON\n"
  const ANCHOR: string := ANCHOR_START + (ANCHOR_MIDDLE + ANCHOR_END)
  const OPENING: string := "    return {\n"
  const CLOSING: string := "\n    }\n"

  // ------------------------------------------------------------------ the manifest

  /** A manifest value: something else than an entry, or an entry with its files in order. */
  datatype Item = Note | Repo(revision: string, files: seq<File>)

  datatype File = File(path: string, digest: string)

  datatype Keyed = Keyed(id: string, item: Item)

  /** `_is_hf_repo` and the two skip rules of the renderer. */
  predicate IsPinned(e: Keyed) {
    && !("_" <= e.id) && e.id != "qwen" && e.item.Repo?
    && e.item.revision != "local" && e.item.revision != ""
  }

  function Pinned(manifest: seq<Keyed>): seq<Keyed> {
    if manifest == [] then []
    else (if IsPinned(manifest[0]) then [manifest[0]] else []) + Pinned(manifest[1..])
  }

  // ----------------------------------------------------------------- the rendering

  const RUFF_LINE_LENGTH: nat := 120

  function FileLine(f: File): string {
    var line := "                \"" + (f.path + ("\": \"" + (f.digest + "\",")));
    if |line| > RUFF_LINE_LENGTH then line + "  # noqa: E501" else line
  }

  function FileLines(files: seq<File>): seq<string> {
    if files == [] then [] else [FileLine(files[0])] + FileLines(files[1..])
  }

  function RepoLines(e: Keyed): seq<string>
    requires e.item.Repo?
  {
    HeadLines(e) + FileLines(e.item.files) + ["            },", "        },"]
  }

  function HeadLines(e: Keyed): seq<string>
    requires e.item.Repo?
  {
    ["        \"" + (e.id + "\": {"),
     "            \"revision\": \"" + (e.item.revision + "\","), "            \"files\": {"]
  }

  function BodyLines(manifest: seq<Keyed>): seq<string> {
    if manifest == [] then []
    else LinesOf(manifest[0]) + BodyLines(manifest[1..])
  }

  function Text(lines: seq<string>): string {
    if lines == [] then "" else lines[0] + "\n" + Text(lines[1..])
  }

  function LiteralLines(manifest: seq<Keyed>): seq<string> {
    ["    return {"] + BodyLines(manifest) + ["    }"]
  }

  function Literal(manifest: seq<Keyed>): string {
    Text(LiteralLines(manifest))
  }

  lemma {:induction false} FileLinesSnoc(files: seq<File>, f: File)
    ensures FileLines(files + [f]) == FileLines(files) + [FileLine(f)]
  {
    if files == [] {
      assert [] + [f] == [f] && [f][1..] == [];
    } else {
      assert (files + [f])[1..] == files[1..] + [f];
      FileLinesSnoc(files[1..], f);
    }
  }

  function LinesOf(e: Keyed): seq<string> {
    if IsPinned(e) then RepoLines(e) else []
  }

  lemma {:induction false} BodyLinesSnoc(manifest: seq<Keyed>, e: Keyed)
    ensures BodyLines(manifest + [e]) == BodyLines(manifest) + LinesOf(e)
  {
    hide LinesOf;
    if manifest == [] {
      assert [] + [e] == [e] && [e][1..] == [];
      assert BodyLines([e]) == LinesOf(e) + BodyLines([]);
    } else {
      assert (manifest + [e])[1..] == manifest[1..] + [e];
      BodyLinesSnoc(manifest[1..], e);
      assert BodyLines(manifest) == LinesOf(manifest[0]) + BodyLines(manifest[1..]);
    }
  }

  /** The inner loop of the renderer: one repository. */
  method FormatRepo(e: Keyed) returns (lines: seq<string>)
    requires e.item.Repo?
    ensures lines == RepoLines(e)
  {
    hide FileLine;
    lines := HeadLines(e);
    var files := e.item.files;
    assert files[..0] == [];
    for j := 0 to |files|
      invariant lines == HeadLines(e) + FileLines(files[..j])
    {
      assert files[..j + 1] == files[..j] + [files[j]];
      FileLinesSnoc(files[..j], files[j]);
      lines := lines + [FileLine(files[j])];
    }
    assert files[..|files|] == files;
    lines := lines + ["            },", "        },"];
  }

  /** `_format_fallback_literal`. */
  method FormatFallbackLiteral(manifest: seq<Keyed>) returns (literal: string)
    ensures literal == Literal(manifest)
  {
    hide RepoLines, BodyLines;
    var body: seq<string> := [];
    assert manifest[..0] == [];
    NoBodyLines();
    for i := 0 to |manifest|
      invariant body == BodyLines(manifest[..i])
    {
      assert manifest[..i + 1] == manifest[..i] + [manifest[i]];
      BodyLinesSnoc(manifest[..i], manifest[i]);
      if IsPinned(manifest[i]) {
        var lines := FormatRepo(manifest[i]);
        body := body + lines;
      }
    }
    assert manifest[..|manifest|] == manifest;
    literal := Text(["    return {"] + body + ["    }"]);
  }

  lemma NoBodyLines()
    ensures BodyLines([]) == []
  {
  }

  lemma PinnedIsRepo(e: Keyed)
    requires IsPinned(e)
    ensures e.item.Repo?
  {
  }

  // -------------------------------------------------------------------- the splice

  datatype Synced = NoAnchor | NoOpening | NoClosing | Spliced(text: string)

  /** `_sync_security_fallback`; the file is written only when the text changed. */
  function Sync(src: string, literal: string): Synced {
    match Find(src, ANCHOR, 0)
    case None => NoAnchor
    case Some(anchor) =>
      match Find(src, OPENING, anchor)
      case None => NoOpening
      case Some(open) =>
        match Find(src, CLOSING, open)
        case None => NoClosing
        case Some(close) => Spliced(src[..open] + literal + src[close + |CLOSING|..])
  }

  lemma FindIs(s: string, sub: string, start: nat, at: nat)
    requires start <= at && OccursAt(s, sub, at)
    requires forall i | start <= i < at :: !OccursAt(s, sub, i)
    ensures Find(s, sub, start) == Some(at)
  {
  }

  lemma OpeningFacts()
    ensures |OPENING| == 13 && OPENING[12] == '\n' && OPENING[0] == ' ' == OPENING[1]
    ensures forall i | 0 <= i < 12 :: OPENING[i] != '\n'
    ensures |CLOSING| == 7
  {
  }

  /** Every blank in the anchor comment stands alone, so the opening cannot start inside it. */
  predicate SingleSpaced(s: string) {
    forall i | 0 <= i < |s| && s[i] == ' ' :: i + 1 < |s| && s[i + 1] != ' '
  }

  lemma AnchorIsSingleSpaced()
    ensures SingleSpaced(ANCHOR)
  {
    var a, b, c := ANCHOR_START, ANCHOR_MIDDLE, ANCHOR_END;
    assert SingleSpaced(a);
    assert SingleSpaced(b);
    assert SingleSpaced(c);
    assert a[|a| - 1] == ',' && b[|b| - 1] == 'n';
    SingleSpacedConcat(b, c);
    SingleSpacedConcat(a, b + c);
  }

  lemma SingleSpacedConcat(a: string, b: string)
    requires SingleSpaced(a) && SingleSpaced(b) && a != "" && a[|a| - 1] != ' '
    ensures SingleSpaced(a + b)
  {
    var s := a + b;
    forall i | 0 <= i < |s| && s[i] == ' '
      ensures i + 1 < |s| && s[i + 1] != ' '
    {
      if i < |a| {
        assert a[i] == ' ' && a[i + 1] != ' ';
      } else {
        assert b[i - |a|] == ' ' && b[i - |a| + 1] != ' ';
      }
    }
  }

  lemma OpeningAfterAnchor(src: string, anchor: nat, open: nat)
    requires OccursAt(src, ANCHOR, anchor) && OccursAt(src, OPENING, open) && anchor <= open
    ensures anchor + |ANCHOR| <= open
  {
    hide ANCHOR, OPENING;
    OpeningFacts();
    AnchorIsSingleSpaced();
    if open < anchor + |ANCHOR| {
      var d := open - anchor;
      CharAt(src, ANCHOR, anchor, d);
      CharAt(src, OPENING, open, 0);
      CharAt(src, OPENING, open, 1);
      CharAt(src, ANCHOR, anchor, d + 1);
      assert false;
    }
  }

  lemma CharAt(s: string, sub: string, at: nat, i: nat)
    requires OccursAt(s, sub, at) && i < |sub|
    ensures at + i < |s| && s[at + i] == sub[i]
  {
    assert s[at..at + |sub|][i] == sub[i];
  }

  /** An occurrence that lies within a common part of two texts is one in both. */
  lemma OccursWithin(s: string, t: string, sub: string, i: nat, shift: nat, part: string, at: nat)
    requires at + |part| <= |s| && s[at..at + |part|] == part
    requires shift + |part| <= |t| && t[shift..shift + |part|] == part
    requires at <= i && i + |sub| <= at + |part|
    ensures OccursAt(s, sub, i) <==> OccursAt(t, sub, i - at + shift)
  {
    var k := i - at;
    SliceOfSlice(s, at, at + |part|, k, k + |sub|);
    SliceOfSlice(t, shift, shift + |part|, k, k + |sub|);
  }

  lemma {:induction false} AnchorFoundAgain(src: string, t: string, anchor: nat, open: nat)
    requires Find(src, ANCHOR, 0) == Some(anchor) && anchor + |ANCHOR| <= open <= |src|
    requires open <= |t| && t[..open] == src[..open]
    ensures Find(t, ANCHOR, 0) == Some(anchor)
  {
    hide ANCHOR, OPENING, CLOSING, Find, OccursAt;
    forall i | 0 <= i <= anchor
      ensures OccursAt(src, ANCHOR, i) <==> OccursAt(t, ANCHOR, i)
    {
      OccursWithin(src, t, ANCHOR, i, 0, src[..open], 0);
    }
    FindIs(t, ANCHOR, 0, anchor);
  }

  lemma {:induction false} ClosingFoundInLiteral(t: string, literal: string, open: nat, inner: nat)
    requires open + |literal| <= |t| && t[open..open + |literal|] == literal
    requires Find(literal, CLOSING, 0) == Some(inner)
    ensures Find(t, CLOSING, open) == Some(open + inner) && inner + |CLOSING| <= |literal|
  {
    hide ANCHOR, OPENING, CLOSING, Find;
    assert literal[0..0 + |literal|] == literal;
    forall i | 0 <= i <= inner
      ensures OccursAt(literal, CLOSING, i) <==> OccursAt(t, CLOSING, i + open)
    {
      OccursWithin(literal, t, CLOSING, i, open, literal, 0);
    }
    forall i | open <= i < open + inner
      ensures !OccursAt(t, CLOSING, i)
    {
      assert OccursAt(literal, CLOSING, i - open) <==> OccursAt(t, CLOSING, i - open + open);
    }
    FindIs(t, CLOSING, open, open + inner);
  }

  /** The spliced text is found at the same place again, up to its first closing line. */
  lemma SyncAgain(src: string, literal: string, open: nat, close: nat, anchor: nat, inner: nat)
    requires Find(src, ANCHOR, 0) == Some(anchor) && Find(src, OPENING, anchor) == Some(open)
    requires Find(src, CLOSING, open) == Some(close)
    requires OPENING <= literal && Find(literal, CLOSING, 0) == Some(inner)
    ensures var t := src[..open] + literal + src[close + |CLOSING|..];
            Sync(t, literal) == Spliced(src[..open] + literal + t[open + inner + |CLOSING|..])
  {
    hide ANCHOR, OPENING, CLOSING, Find, Sync;
    var pre, post := src[..open], src[close + |CLOSING|..];
    var t := pre + literal + post;
    OpeningAfterAnchor(src, anchor, open);
    Parts(pre, literal, post);
    AnchorFoundAgain(src, t, anchor, open);
    OpeningFoundAgain(src, t, literal, anchor, open);
    ClosingFoundInLiteral(t, literal, open, inner);
    SyncOf(t, literal, anchor, open, open + inner);
  }

  lemma Parts(pre: string, literal: string, post: string)
    ensures var t := pre + literal + post;
            && t[..|pre|] == pre && t[|pre|..|pre| + |literal|] == literal && t[|pre| + |literal|..] == post
  {
  }

  lemma SyncOf(t: string, literal: string, anchor: nat, open: nat, close: nat)
    requires Find(t, ANCHOR, 0) == Some(anchor) && Find(t, OPENING, anchor) == Some(open)
    requires Find(t, CLOSING, open) == Some(close)
    ensures Sync(t, literal) == Spliced(t[..open] + literal + t[close + |CLOSING|..])
  {
    hide ANCHOR, OPENING, CLOSING, Find;
  }

  lemma {:induction false} OpeningFoundAgain(src: string, t: string, literal: string, anchor: nat, open: nat)
    requires Find(src, OPENING, anchor) == Some(open) && OPENING <= literal
    requires open + |literal| <= |t| && t[..open] == src[..open] && t[open..open + |literal|] == literal
    ensures Find(t, OPENING, anchor) == Some(open)
  {
    hide OPENING, ANCHOR, CLOSING;
    OpeningFacts();
    assert t[open..open + 13] == literal[..13] == OPENING;
    forall i | anchor <= i < open
      ensures !OccursAt(t, OPENING, i)
    {
      if OccursAt(t, OPENING, i) {
        if i + 13 <= open {
          OccursWithin(src, t, OPENING, i, 0, src[..open], 0);
        } else {
          CharAt(t, OPENING, i, 12);
          CharAt(t, OPENING, open, i + 12 - open);
        }
        assert false;
      }
    }
    FindIs(t, OPENING, anchor, open);
  }

  lemma SpliceBounds(src: string, anchor: nat, open: nat, close: nat)
    requires Find(src, OPENING, anchor) == Some(open) && Find(src, CLOSING, open) == Some(close)
    ensures open <= close && close + |CLOSING| <= |src|
  {
    hide OPENING, CLOSING;
  }

  lemma EndFound(literal: string)
    requires OccursAt(literal, CLOSING, |literal| - |CLOSING|)
    ensures Find(literal, CLOSING, 0).Some?
    ensures Find(literal, CLOSING, 0).value + |CLOSING| <= |literal|
  {
    hide CLOSING;
  }

  lemma {:induction false} SyncParts(src: string, literal: string) returns (anchor: nat, open: nat, close: nat)
    requires Sync(src, literal).Spliced?
    ensures Find(src, ANCHOR, 0) == Some(anchor) && Find(src, OPENING, anchor) == Some(open)
    ensures Find(src, CLOSING, open) == Some(close) && open <= close && close + |CLOSING| <= |src|
    ensures Sync(src, literal) == Spliced(src[..open] + literal + src[close + |CLOSING|..])
  {
    hide ANCHOR, OPENING, CLOSING;
    anchor := Find(src, ANCHOR, 0).value;
    open := Find(src, OPENING, anchor).value;
    close := Find(src, CLOSING, open).value;
    SpliceBounds(src, anchor, open, close);
  }

  /** A sync replaces only what stands between the opening found behind the anchor and the first
      closing line behind that: everything before and everything after is untouched. */
  lemma {:induction false} SyncKeepsOutside(src: string, literal: string) returns (open: nat, close: nat)
    requires Sync(src, literal).Spliced?
    ensures OccursAt(src, OPENING, open) && OccursAt(src, CLOSING, close) && open <= close
    ensures forall i | open <= i < close :: !OccursAt(src, CLOSING, i)
    ensures var text, after := Sync(src, literal).text, src[close + |CLOSING|..];
            && |text| == open + |literal| + |after|
            && text[..open] == src[..open] && text[open..open + |literal|] == literal
            && text[open + |literal|..] == after
  {
    hide ANCHOR, OPENING, CLOSING, OccursAt, Sync;
    var anchor;
    anchor, open, close := SyncParts(src, literal);
    Parts(src[..open], literal, src[close + |CLOSING|..]);
  }

  /** Syncing twice with the same literal changes nothing the second time, exactly when the
      literal's first closing line is its last line. */
  lemma SyncIsFixedPoint(src: string, literal: string)
    requires Sync(src, literal).Spliced?
    requires OPENING <= literal && OccursAt(literal, CLOSING, |literal| - |CLOSING|)
    ensures Sync(Sync(src, literal).text, literal) == Sync(src, literal)
       <==> Find(literal, CLOSING, 0) == Some(|literal| - |CLOSING|)
  {
    hide ANCHOR, OPENING, CLOSING, Find, OccursAt, Sync;
    OpeningFacts();
    EndFound(literal);
    var anchor, open, close := SyncParts(src, literal);
    var inner := Find(literal, CLOSING, 0).value;
    SyncAgain(src, literal, open, close, anchor, inner);
    var pre, post := src[..open], src[close + 7..];
    TailOfSplice(pre, literal, post, inner + 7);
    SpliceRepeats(pre, literal, post, inner + 7);
  }

  lemma TailOfSplice(pre: string, literal: string, post: string, n: nat)
    requires n <= |literal|
    ensures (pre + literal + post)[|pre| + n..] == literal[n..] + post
  {
  }

  lemma SpliceRepeats(pre: string, literal: string, post: string, n: nat)
    requires n <= |literal|
    ensures pre + literal + (literal[n..] + post) == pre + literal + post <==> n == |literal|
  {
    if n == |literal| {
      assert literal[n..] + post == post;
    } else {
      assert |pre + literal + (literal[n..] + post)| > |pre + literal + post|;
    }
  }

  // ------------------------------------------------- literals of newline-free manifests

  predicate OneLine(s: string) {
    '\n' !in s
  }

  predicate FilesOneLine(files: seq<File>) {
    forall i | 0 <= i < |files| :: OneLine(files[i].path) && OneLine(files[i].digest)
  }

  /** No pinned id, revision, path or digest contains a newline. */
  predicate ManifestOneLine(manifest: seq<Keyed>) {
    forall i | 0 <= i < |manifest| && IsPinned(manifest[i]) ::
      OneLine(manifest[i].id) && OneLine(manifest[i].item.revision) && FilesOneLine(manifest[i].item.files)
  }

  /** A rendered line of the body: one line, indented by at least eight blanks. */
  predicate IsBodyLine(l: string) {
    OneLine(l) && |l| > 8 && forall i | 0 <= i < 8 :: l[i] == ' '
  }

  ghost predicate AreBodyLines(lines: seq<string>) {
    forall i | 0 <= i < |lines| :: IsBodyLine(lines[i])
  }

  lemma FileLineIsBody(f: File)
    requires OneLine(f.path) && OneLine(f.digest)
    ensures IsBodyLine(FileLine(f))
  {
    var a, b, c, d := "                \"", "\": \"", "\",", "  # noqa: E501";
    assert OneLine(a) && OneLine(b) && OneLine(c) && OneLine(d);
    assert OneLine(b + (f.digest + c));
  }

  lemma {:induction false} FileLinesAreBody(files: seq<File>)
    requires FilesOneLine(files)
    ensures AreBodyLines(FileLines(files))
  {
    hide FileLine, IsBodyLine, OneLine;
    if files != [] {
      FileLineIsBody(files[0]);
      FileLinesAreBody(files[1..]);
    }
  }

  lemma RepoHeadIsBody(e: Keyed)
    requires e.item.Repo? && OneLine(e.id) && OneLine(e.item.revision)
    ensures IsBodyLine("        \"" + (e.id + "\": {"))
    ensures IsBodyLine("            \"revision\": \"" + (e.item.revision + "\","))
    ensures IsBodyLine("            \"files\": {") && IsBodyLine("            },") && IsBodyLine("        },")
  {
    var a, b, c, d := "        \"", "\": {", "            \"revision\": \"", "\",";
    assert OneLine(a) && OneLine(b) && OneLine(c) && OneLine(d);
  }

  lemma {:induction false} BodyLinesAreBody(manifest: seq<Keyed>)
    requires ManifestOneLine(manifest)
    ensures AreBodyLines(BodyLines(manifest))
  {
    hide IsBodyLine, OneLine, IsPinned, FileLine;
    if manifest != [] {
      BodyLinesAreBody(manifest[1..]);
      if IsPinned(manifest[0]) {
        PinnedIsRepo(manifest[0]);
        RepoHeadIsBody(manifest[0]);
        FileLinesAreBody(manifest[0].item.files);
      }
    }
  }

  lemma {:induction false} TextConcat(a: seq<string>, b: seq<string>)
    ensures Text(a + b) == Text(a) + Text(b)
  {
    if a == [] {
      assert a + b == b;
    } else {
      assert (a + b)[1..] == a[1..] + b;
      TextConcat(a[1..], b);
    }
  }

  /** What follows a newline in a text is a suffix of its lines. */
  lemma {:induction false} AfterNewline(lines: seq<string>, i: nat) returns (k: nat)
    requires (forall j | 0 <= j < |lines| :: OneLine(lines[j])) && i < |Text(lines)| && Text(lines)[i] == '\n'
    ensures 0 < k <= |lines| && Text(lines)[i + 1..] == Text(lines[k..])
  {
    var t, rest := Text(lines), Text(lines[1..]);
    assert t == lines[0] + "\n" + rest;
    assert forall j | 0 <= j < |lines[0]| :: t[j] == lines[0][j] != '\n';
    if i == |lines[0]| {
      k := 1;
      assert t[i + 1..] == rest;
    } else {
      var j := i - |lines[0]| - 1;
      assert t[i] == rest[j] && t[i + 1..] == rest[j + 1..];
      k := AfterNewline(lines[1..], j);
      assert lines[1..][k..] == lines[k + 1..];
      k := k + 1;
    }
  }

  lemma ClosingFacts()
    ensures |CLOSING| == 7 && CLOSING[0] == '\n' && CLOSING[5] == '}'
  {
  }

  /** In a text whose lines before the last are body lines, the closing line is found only at the end. */
  lemma ClosingOnlyLast(opening: string, body: seq<string>, i: nat)
    requires OneLine(opening) && AreBodyLines(body)
    requires OccursAt(Text([opening] + body + ["    }"]), CLOSING, i)
    ensures i + |CLOSING| == |Text([opening] + body + ["    }"])|
  {
    hide CLOSING;
    ClosingFacts();
    var last := "    }";
    var lines := [opening] + body + [last];
    var t := Text(lines);
    forall j | 0 <= j < |lines| ensures OneLine(lines[j]) { LineKinds(opening, body, j); }
    CharAt(t, CLOSING, i, 0);
    CharAt(t, CLOSING, i, 5);
    var k := AfterNewline(lines, i);
    assert t[i + 1..][4] == t[i + 5] == '}';
    LastOrBody(lines, body, k, t[i + 1..]);
  }

  lemma LineKinds(opening: string, body: seq<string>, j: nat)
    requires OneLine(opening) && AreBodyLines(body) && j < |body| + 2
    ensures OneLine(([opening] + body + ["    }"])[j])
  {
    var last := "    }";
    assert OneLine(last);
    if 0 < j <= |body| {
      assert ([opening] + body + [last])[j] == body[j - 1];
      assert IsBodyLine(body[j - 1]);
    }
  }

  lemma LastOrBody(lines: seq<string>, body: seq<string>, k: nat, rest: string)
    requires |lines| == |body| + 2 && lines[1..|body| + 1] == body && lines[|body| + 1] == "    }"
    requires AreBodyLines(body) && 0 < k <= |lines| && rest == Text(lines[k..]) && |rest| > 4 && rest[4] == '}'
    ensures k == |lines| - 1 && |rest| == 6
  {
    if k < |lines| {
      assert lines[k..][0] == lines[k];
    }
    var last := [lines[|body| + 1]];
    assert last[1..] == [] && Text(last) == "    }" + "\n" + Text([]);
    assert k == |lines| - 1 ==> lines[k..] == last;
  }

  /** What the renderer guarantees for the splice: the literal opens and closes as the search expects,
      and closes only once. */
  lemma LiteralClosesOnce(manifest: seq<Keyed>)
    requires ManifestOneLine(manifest)
    ensures OPENING <= Literal(manifest)
    ensures OccursAt(Literal(manifest), CLOSING, |Literal(manifest)| - |CLOSING|)
    ensures Find(Literal(manifest), CLOSING, 0) == Some(|Literal(manifest)| - |CLOSING|)
  {
    hide BodyLines;
    var body := BodyLines(manifest);
    BodyLinesAreBody(manifest);
    LiteralEnds(body);
    var literal := Literal(manifest);
    var end := |literal| - |CLOSING|;
    var o := "    return {";
    assert OneLine(o);
    forall i | 0 <= i < end
      ensures !OccursAt(literal, CLOSING, i)
    {
      if OccursAt(literal, CLOSING, i) { ClosingOnlyLast(o, body, i); }
    }
    FindIs(literal, CLOSING, 0, end);
  }

  lemma LiteralEnds(body: seq<string>)
    ensures var t := Text(["    return {"] + body + ["    }"]);
            OPENING <= t && |t| >= |CLOSING| && OccursAt(t, CLOSING, |t| - |CLOSING|)
  {
    var o, last := "    return {", "    }";
    TextConcat([o] + body, [last]);
    TextConcat([o], body);
    assert Text([o]) == o + "\n" + Text([o][1..]) == o + "\n";
    assert Text([last]) == last + "\n" + Text([last][1..]) == last + "\n";
    var front := Text([o] + body);
    EndsInNewline([o] + body);
    var t := front + (last + "\n");
    assert OPENING == o + "\n";
    assert t[|t| - 7..] == ["\n"][0] + (last + "\n");
  }

  lemma {:induction false} EndsInNewline(lines: seq<string>)
    requires lines != []
    ensures Text(lines) != "" && Text(lines)[|Text(lines)| - 1] == '\n'
  {
    if |lines| > 1 {
      EndsInNewline(lines[1..]);
    } else {
      assert Text(lines[1..]) == "";
    }
  }

  /** For manifests whose strings are single lines, syncing is a fixed point on every source file. */
  lemma SyncTwiceIsOnce(src: string, manifest: seq<Keyed>)
    requires ManifestOneLine(manifest) && Sync(src, Literal(manifest)).Spliced?
    ensures Sync(Sync(src, Literal(manifest)).text, Literal(manifest)) == Sync(src, Literal(manifest))
  {
    hide Literal, Sync;
    LiteralClosesOnce(manifest);
    SyncIsFixedPoint(src, Literal(manifest));
  }

  // ------------------------------------------------ the literal mirrors the manifest

  /** Strings that can stand between double quotes on one line. */
  predicate Quotable(s: string) {
    '"' !in s && '\n' !in s
  }

  predicate RepoQuotable(e: Keyed) {
    e.item.Repo? && Quotable(e.id) && Quotable(e.item.revision) && FilesQuotable(e.item.files)
  }

  predicate AllQuotable(es: seq<Keyed>) {
    forall i | 0 <= i < |es| :: RepoQuotable(es[i])
  }

  /** A quoted string is read off the front in one way only. */
  lemma QuotedPrefix(a: string, rest: string, a': string, rest': string)
    requires Quotable(a) && Quotable(a') && a + ("\"" + rest) == a' + ("\"" + rest')
    ensures a == a' && rest == rest'
  {
    var s := a + ("\"" + rest);
    assert s[|a|] == '"' && (a' + ("\"" + rest'))[|a'|] == '"';
    assert |a| == |a'|;
    assert a == s[..|a|] == a';
    assert "\"" + rest == s[|a|..] == "\"" + rest';
    assert rest == ("\"" + rest)[1..] && rest' == ("\"" + rest')[1..];
  }

  lemma AfterCommon(p: string, a: string, b: string)
    ensures p + a == p + b <==> a == b
  {
    if p + a == p + b {
      assert (p + a)[|p|..] == a && (p + b)[|p|..] == b;
    }
  }

  function RawFileLine(f: File): string {
    "                \"" + (f.path + ("\": \"" + (f.digest + "\",")))
  }

  lemma RawFileLineInjective(f: File, f': File, noqa: string, noqa': string)
    requires Quotable(f.path) && Quotable(f.digest) && Quotable(f'.path) && Quotable(f'.digest)
    requires RawFileLine(f) + noqa == RawFileLine(f') + noqa'
    ensures f == f'
  {
    var indent, mid, end := "                \"", ": \"", ",";
    var r, r' := f.digest + ("\"" + (end + noqa)), f'.digest + ("\"" + (end + noqa'));
    assert RawFileLine(f) + noqa == indent + (f.path + ("\"" + (mid + r)));
    assert RawFileLine(f') + noqa' == indent + (f'.path + ("\"" + (mid + r')));
    AfterCommon(indent, f.path + ("\"" + (mid + r)), f'.path + ("\"" + (mid + r')));
    QuotedPrefix(f.path, mid + r, f'.path, mid + r');
    AfterCommon(mid, r, r');
    QuotedPrefix(f.digest, end + noqa, f'.digest, end + noqa');
  }

  lemma FileLineInjective(f: File, f': File)
    requires Quotable(f.path) && Quotable(f.digest) && Quotable(f'.path) && Quotable(f'.digest)
    requires FileLine(f) == FileLine(f')
    ensures f == f'
  {
    hide Quotable;
    var noqa := if |RawFileLine(f)| > RUFF_LINE_LENGTH then "  # noqa: E501" else "";
    var noqa' := if |RawFileLine(f')| > RUFF_LINE_LENGTH then "  # noqa: E501" else "";
    assert FileLine(f) == RawFileLine(f) + noqa && FileLine(f') == RawFileLine(f') + noqa';
    RawFileLineInjective(f, f', noqa, noqa');
  }

  const FILES_END: string := "            },"

  lemma FileLineIsNotEnd(f: File)
    ensures FileLine(f) != FILES_END
  {
    var indent, end := "                \"", FILES_END;
    assert indent[12] == ' ' && end[12] == '}';
    assert FileLine(f)[12] == indent[12];
  }

  lemma {:induction false} FileLinesFirst(files: seq<File>, after: seq<string>)
    requires files != []
    ensures var l := FileLines(files) + after;
            l != [] && l[0] == FileLine(files[0]) && l[1..] == FileLines(files[1..]) + after
  {
    hide FileLine;
    var tail := FileLines(files[1..]);
    assert FileLines(files) == [FileLine(files[0])] + tail;
    assert ([FileLine(files[0])] + tail) + after == [FileLine(files[0])] + (tail + after);
  }

  lemma FileLinesNone(end: string, rest: seq<string>)
    ensures var l := FileLines([]) + ([end] + rest); l != [] && l[0] == end && l[1..] == rest
  {
  }

  predicate FilesQuotable(files: seq<File>) {
    forall i | 0 <= i < |files| :: Quotable(files[i].path) && Quotable(files[i].digest)
  }

  /** A file block, followed by its end line, is read off the front in one way only. */
  lemma {:induction false} FileBlockInjective(files: seq<File>, rest: seq<string>,
                                           files': seq<File>, rest': seq<string>)
    requires FilesQuotable(files) && FilesQuotable(files')
    requires FileLines(files) + ([FILES_END] + rest) == FileLines(files') + ([FILES_END] + rest')
    ensures files == files' && rest == rest'
  {
    hide FileLine, Quotable, FILES_END, FileLines;
    FileLinesNone(FILES_END, rest);
    FileLinesNone(FILES_END, rest');
    if files != [] { FileLinesFirst(files, [FILES_END] + rest); FileLineIsNotEnd(files[0]); }
    if files' != [] { FileLinesFirst(files', [FILES_END] + rest'); FileLineIsNotEnd(files'[0]); }
    if files != [] {
      FileLineInjective(files[0], files'[0]);
      FileBlockInjective(files[1..], rest, files'[1..], rest');
      assert files == [files[0]] + files[1..] && files' == [files'[0]] + files'[1..];
    }
  }

  function AllRepoLines(es: seq<Keyed>): seq<string>
    requires forall i | 0 <= i < |es| :: es[i].item.Repo?
  {
    if es == [] then [] else RepoLines(es[0]) + AllRepoLines(es[1..])
  }

  lemma {:induction false} BodyIsPinned(manifest: seq<Keyed>)
    ensures forall i | 0 <= i < |Pinned(manifest)| :: Pinned(manifest)[i].item.Repo?
    ensures BodyLines(manifest) == AllRepoLines(Pinned(manifest))
  {
    hide RepoLines;
    if manifest != [] {
      BodyIsPinned(manifest[1..]);
      if IsPinned(manifest[0]) {
        var rest := Pinned(manifest[1..]);
        assert ([manifest[0]] + rest)[1..] == rest;
        assert Pinned(manifest) == [manifest[0]] + rest;
      } else {
        assert Pinned(manifest) == Pinned(manifest[1..]);
        assert BodyLines(manifest) == BodyLines(manifest[1..]);
      }
    }
  }

  lemma HeadLinesInjective(e: Keyed, e': Keyed)
    requires RepoQuotable(e) && RepoQuotable(e')
    requires HeadLines(e)[0] == HeadLines(e')[0] && HeadLines(e)[1] == HeadLines(e')[1]
    ensures e.id == e'.id && e.item.revision == e'.item.revision
  {
    var a, b, c, d := "        \"", ": {", "            \"revision\": \"", ",";
    assert HeadLines(e)[0] == a + (e.id + ("\"" + b)) && HeadLines(e')[0] == a + (e'.id + ("\"" + b));
    AfterCommon(a, e.id + ("\"" + b), e'.id + ("\"" + b));
    QuotedPrefix(e.id, b, e'.id, b);
    assert HeadLines(e)[1] == c + (e.item.revision + ("\"" + d))
        && HeadLines(e')[1] == c + (e'.item.revision + ("\"" + d));
    AfterCommon(c, e.item.revision + ("\"" + d), e'.item.revision + ("\"" + d));
    QuotedPrefix(e.item.revision, d, e'.item.revision, d);
  }

  lemma RepoInjective(e: Keyed, rest: seq<string>, e': Keyed, rest': seq<string>)
    requires RepoQuotable(e) && RepoQuotable(e') && RepoLines(e) + rest == RepoLines(e') + rest'
    ensures e == e' && rest == rest'
  {
    hide HeadLines, FileLines, FILES_END, Quotable;
    HeadLength(e);
    HeadLength(e');
    var end := ["        },"];
    var l, l' := RepoLines(e) + rest, RepoLines(e') + rest';
    RepoParts(e, rest);
    RepoParts(e', rest');
    assert HeadLines(e) == l[..3] && HeadLines(e') == l'[..3];
    assert HeadLines(e)[0] == HeadLines(e')[0] && HeadLines(e)[1] == HeadLines(e')[1];
    HeadLinesInjective(e, e');
    FileBlockInjective(e.item.files, end + rest, e'.item.files, end + rest');
    assert rest == (end + rest)[1..] && rest' == (end + rest')[1..];
  }

  lemma HeadLength(e: Keyed)
    requires e.item.Repo?
    ensures |HeadLines(e)| == 3
  {
  }

  lemma RepoParts(e: Keyed, rest: seq<string>)
    requires e.item.Repo?
    ensures RepoLines(e) + rest == HeadLines(e) + (FileLines(e.item.files) + ([FILES_END] + (["        },"] + rest)))
    ensures (RepoLines(e) + rest)[3..] == FileLines(e.item.files) + ([FILES_END] + (["        },"] + rest))
  {
    hide FileLines;
    var l := HeadLines(e) + (FileLines(e.item.files) + ([FILES_END] + (["        },"] + rest)));
    assert RepoLines(e) + rest == l;
  }

  lemma {:induction false} AllRepoLinesInjective(es: seq<Keyed>, es': seq<Keyed>)
    requires AllQuotable(es) && AllQuotable(es') && AllRepoLines(es) == AllRepoLines(es')
    ensures es == es'
  {
    hide RepoLines, Quotable;
    if es != [] && es' != [] {
      RepoInjective(es[0], AllRepoLines(es[1..]), es'[0], AllRepoLines(es'[1..]));
      AllRepoLinesInjective(es[1..], es'[1..]);
      assert es == [es[0]] + es[1..] && es' == [es'[0]] + es'[1..];
    } else if es != [] {
      RepoLinesNonEmpty(es[0]);
    } else if es' != [] {
      RepoLinesNonEmpty(es'[0]);
    }
  }

  lemma RepoLinesNonEmpty(e: Keyed)
    requires e.item.Repo?
    ensures RepoLines(e) != []
  {
  }

  /** A text of single lines determines its lines. */
  lemma {:induction false} TextSplits(lines: seq<string>)
    requires forall i | 0 <= i < |lines| :: OneLine(lines[i])
    ensures SplitOn(Text(lines), '\n') == lines + [""]
  {
    if lines == [] {
      assert [] + [""] == [""];
    } else {
      SplitOnHead(lines[0], '\n', Text(lines[1..]));
      TextSplits(lines[1..]);
      assert lines == [lines[0]] + lines[1..];
    }
  }

  lemma LiteralLinesOneLine(manifest: seq<Keyed>)
    requires ManifestOneLine(manifest)
    ensures forall j | 0 <= j < |LiteralLines(manifest)| :: OneLine(LiteralLines(manifest)[j])
  {
    hide BodyLines;
    BodyLinesAreBody(manifest);
    var o := "    return {";
    assert OneLine(o);
    forall j | 0 <= j < |LiteralLines(manifest)| ensures OneLine(LiteralLines(manifest)[j]) {
      LineKinds(o, BodyLines(manifest), j);
    }
  }

  lemma {:induction false} QuotableIsOneLine(manifest: seq<Keyed>)
    requires AllQuotable(Pinned(manifest))
    ensures ManifestOneLine(manifest)
  {
    if manifest != [] {
      var rest := Pinned(manifest[1..]);
      if IsPinned(manifest[0]) {
        assert Pinned(manifest)[0] == manifest[0] && Pinned(manifest)[1..] == rest;
        assert RepoQuotable(manifest[0]);
        assert forall i | 0 <= i < |rest| :: rest[i] == Pinned(manifest)[i + 1];
      } else {
        assert Pinned(manifest) == rest;
      }
      QuotableIsOneLine(manifest[1..]);
      assert forall i | 0 < i < |manifest| :: manifest[i] == manifest[1..][i - 1];
    }
  }

  /** The fallback mirrors the manifest: two manifests render to the same literal exactly when they
      pin the same repositories, revisions, files and digests, in the same order. */
  lemma LiteralMirrorsManifest(manifest: seq<Keyed>, manifest': seq<Keyed>)
    requires AllQuotable(Pinned(manifest)) && AllQuotable(Pinned(manifest'))
    ensures Literal(manifest) == Literal(manifest') <==> Pinned(manifest) == Pinned(manifest')
  {
    hide Pinned, BodyLines, RepoQuotable, OneLine;
    BodyIsPinned(manifest);
    BodyIsPinned(manifest');
    if Literal(manifest) == Literal(manifest') {
      QuotableIsOneLine(manifest);
      QuotableIsOneLine(manifest');
      LiteralLinesOneLine(manifest);
      LiteralLinesOneLine(manifest');
      TextSplits(LiteralLines(manifest));
      TextSplits(LiteralLines(manifest'));
      var l, l' := LiteralLines(manifest), LiteralLines(manifest');
      assert l == (l + [""])[..|l + [""]| - 1] && l' == (l' + [""])[..|l' + [""]| - 1];
      assert BodyLines(manifest) == l[1..|l| - 1] && BodyLines(manifest') == l'[1..|l'| - 1];
      AllRepoLinesInjective(Pinned(manifest), Pinned(manifest'));
    }
  }

  /** Strings with quotes do break the mirror: the renderer does not escape them. */
  lemma QuotesBreakMirror() returns (manifest: seq<Keyed>, manifest': seq<Keyed>)
    ensures Pinned(manifest) != Pinned(manifest') && Literal(manifest) == Literal(manifest')
  {
    var middle := "\": \"";
    var f, g := File("a" + middle + "b", "c"), File("a", "b" + middle + "c");
    assert |f.path| > |g.path|;
    manifest, manifest' := [Keyed("m", Repo("r", [f]))], [Keyed("m", Repo("r", [g]))];
    SameFileLine(f, g);
    assert FileLines([f]) == [FileLine(f)] + FileLines([f][1..])
        && FileLines([g]) == [FileLine(g)] + FileLines([g][1..]);
    assert [f][1..] == [] == [g][1..];
    assert manifest[1..] == [] == manifest'[1..];
    assert manifest[0].item.files == [f] && manifest'[0].item.files == [g];
    PinnedAlone(manifest[0]);
    PinnedAlone(manifest'[0]);
    assert [f][0] != [g][0];
  }

  lemma PinnedAlone(e: Keyed)
    requires e.id == "m" && e.item.Repo? && e.item.revision == "r"
    ensures Pinned([e]) == [e]
  {
    var underscore, local := "_", "local";
    assert underscore[0] == '_' && e.id[0] == 'm' && |local| == 5;
    assert IsPinned(e) && [e][1..] == [];
  }

  lemma SameFileLine(f: File, g: File)
    requires f == File("a" + "\": \"" + "b", "c") && g == File("a", "b" + "\": \"" + "c")
    ensures FileLine(f) == FileLine(g)
  {
    assert RawFileLine(f) == RawFileLine(g);
  }
}
