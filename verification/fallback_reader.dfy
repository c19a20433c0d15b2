/** What a reader of the generated dict literal gets back: its strings and braces, in order. */
module FallbackReader {
  import opened Wrappers
  import opened PyText
  import opened FallbackSplice

  datatype Token = Str(text: string) | Open | Close

  function NextQuote(s: string): (n: nat)
    ensures n <= |s| && '"' !in s[..n] && (n < |s| ==> s[n] == '"')
  {
    if s == "" || s[0] == '"' then 0 else
      var n := NextQuote(s[1..]);
      assert s[..n + 1] == [s[0]] + s[1..][..n];
      n + 1
  }

  /** The strings between double quotes and the braces outside of them; everything else is skipped. */
  function Read(text: string): seq<Token>
    decreases |text|
  {
    if text == "" then []
    else if text[0] == '"' then
      var rest := text[1..];
      var n := NextQuote(rest);
      if n == |rest| then [] else [Str(rest[..n])] + Read(rest[n + 1..])
    else (if text[0] == '{' then [Open] else if text[0] == '}' then [Close] else []) + Read(text[1..])
  }

  predicate IsFiller(s: string) {
    '"' !in s && '{' !in s && '}' !in s
  }

  lemma {:induction false} ReadFiller(filler: string, t: string)
    requires IsFiller(filler)
    ensures Read(filler + t) == Read(t)
  {
    if filler == "" {
      assert filler + t == t;
    } else {
      assert (filler + t)[1..] == filler[1..] + t;
      ReadFiller(filler[1..], t);
      assert [] + Read(t) == Read(t);
    }
  }

  lemma {:induction false} NextQuoteIs(x: string, t: string)
    requires '"' !in x
    ensures NextQuote(x + ("\"" + t)) == |x|
  {
    var s := x + ("\"" + t);
    if x != "" {
      assert s[1..] == x[1..] + ("\"" + t);
      NextQuoteIs(x[1..], t);
    }
  }

  lemma ReadString(filler: string, x: string, t: string)
    requires IsFiller(filler) && '"' !in x
    ensures Read(filler + ("\"" + (x + ("\"" + t)))) == [Str(x)] + Read(t)
  {
    var s := "\"" + (x + ("\"" + t));
    ReadFiller(filler, s);
    var rest := x + ("\"" + t);
    assert s[1..] == rest;
    NextQuoteIs(x, t);
    assert rest[..|x|] == x && rest[|x| + 1..] == t;
  }

  lemma ReadOpen(filler: string, t: string)
    requires IsFiller(filler)
    ensures Read(filler + ("{" + t)) == [Open] + Read(t)
  {
    ReadFiller(filler, "{" + t);
    assert ("{" + t)[1..] == t;
  }

  lemma ReadClose(filler: string, t: string)
    requires IsFiller(filler)
    ensures Read(filler + ("}" + t)) == [Close] + Read(t)
  {
    ReadFiller(filler, "}" + t);
    assert ("}" + t)[1..] == t && [] + [Close] + Read(t) == [Close] + Read(t);
  }

  // ------------------------------------------------------------------- what is to be read

  function FileTokens(files: seq<File>): seq<Token> {
    if files == [] then [] else [Str(files[0].path), Str(files[0].digest)] + FileTokens(files[1..])
  }

  /** One entry of a dict of dicts: its key, then its revision and its files. */
  function RepoTokens(e: Keyed): seq<Token>
    requires e.item.Repo?
  {
    [Str(e.id), Open, Str("revision"), Str(e.item.revision), Str("files"), Open]
    + FileTokens(e.item.files) + [Close, Close]
  }

  function ReposTokens(es: seq<Keyed>): seq<Token>
    requires forall i | 0 <= i < |es| :: es[i].item.Repo?
  {
    if es == [] then [] else RepoTokens(es[0]) + ReposTokens(es[1..])
  }

  // ------------------------------------------------------------------------ line by line

  lemma FileLineParts(path: string, digest: string, noqa: string, t: string)
    ensures "                \"" + (path + ("\": \"" + (digest + "\","))) + noqa + "\n" + t
         == "                "
           + ("\"" + (path + ("\"" + (": " + ("\"" + (digest + ("\"" + ("," + noqa + "\n" + t))))))))
  {
  }

  lemma ReadFileLine(f: File, t: string)
    requires Quotable(f.path) && Quotable(f.digest)
    ensures Read(FileLine(f) + "\n" + t) == [Str(f.path), Str(f.digest)] + Read(t)
  {
    hide Read;
    var noqa := if |RawFileLine(f)| > RUFF_LINE_LENGTH then "  # noqa: E501" else "";
    var after := "," + noqa + "\n";
    FileLineParts(f.path, f.digest, noqa, t);
    assert FileLine(f) == RawFileLine(f) + noqa;
    ReadString("                ", f.path, ": " + ("\"" + (f.digest + ("\"" + (after + t)))));
    ReadString(": ", f.digest, after + t);
    ReadFiller(after, t);
    assert [Str(f.path)] + ([Str(f.digest)] + Read(t)) == [Str(f.path), Str(f.digest)] + Read(t);
  }

  /** A rendered file line carries the lint exemption exactly when it is longer than 120 characters
      without it. */
  lemma ExemptExactly(f: File)
    ensures (exists front :: FileLine(f) == front + "  # noqa: E501") <==> |RawFileLine(f)| > 120
    ensures |RawFileLine(f)| <= 120 ==> FileLine(f) == RawFileLine(f)
  {
    var raw, noqa := RawFileLine(f), "  # noqa: E501";
    assert raw[|raw| - 1] == ',' && noqa[|noqa| - 1] == '1';
    if front :| FileLine(f) == front + noqa {
      assert (front + noqa)[|front + noqa| - 1] == '1';
    }
    assert |raw| > 120 ==> FileLine(f) == raw + noqa;
  }

  lemma TextCons(line: string, lines: seq<string>)
    ensures Text([line] + lines) == line + "\n" + Text(lines)
  {
    assert ([line] + lines)[1..] == lines;
  }

  lemma {:induction false} ReadFiles(files: seq<File>, after: seq<string>)
    requires FilesQuotable(files)
    ensures Read(Text(FileLines(files) + after)) == FileTokens(files) + Read(Text(after))
  {
    hide FileLine, Read, Quotable;
    if files == [] {
      assert FileLines(files) + after == after && [] + Read(Text(after)) == Read(Text(after));
    } else {
      FileLinesFirst(files, after);
      var rest := FileLines(files[1..]) + after;
      assert FileLines(files) + after == [FileLine(files[0])] + rest;
      TextCons(FileLine(files[0]), rest);
      FirstQuotable(files);
      ReadFileLine(files[0], Text(rest));
      ReadFiles(files[1..], after);
    }
  }

  lemma FirstQuotable(files: seq<File>)
    requires FilesQuotable(files) && files != []
    ensures Quotable(files[0].path) && Quotable(files[0].digest) && FilesQuotable(files[1..])
  {
  }

  lemma ReadHead(e: Keyed, t: string)
    requires e.item.Repo? && Quotable(e.id) && Quotable(e.item.revision)
    ensures Read(HeadLines(e)[0] + "\n" + t) == [Str(e.id), Open] + Read(t)
    ensures Read(HeadLines(e)[1] + "\n" + t) == [Str("revision"), Str(e.item.revision)] + Read(t)
    ensures Read(HeadLines(e)[2] + "\n" + t) == [Str("files"), Open] + Read(t)
  {
    hide Read;
    var id, rev := e.id, e.item.revision;
    var t0 := ": " + ("{" + ("\n" + t));
    assert HeadLines(e)[0] + "\n" + t == "        " + ("\"" + (id + ("\"" + t0)));
    ReadString("        ", id, t0);
    ReadOpen(": ", "\n" + t);
    ReadFiller("\n", t);
    assert [Str(id)] + ([Open] + Read(t)) == [Str(id), Open] + Read(t);
    var t1 := ": " + ("\"" + (rev + ("\"" + (",\n" + t))));
    assert HeadLines(e)[1] + "\n" + t == "            " + ("\"" + ("revision" + ("\"" + t1)));
    ReadString("            ", "revision", t1);
    ReadString(": ", rev, ",\n" + t);
    ReadFiller(",\n", t);
    assert [Str("revision")] + ([Str(rev)] + Read(t)) == [Str("revision"), Str(rev)] + Read(t);
    assert HeadLines(e)[2] + "\n" + t == "            " + ("\"" + ("files" + ("\"" + t0)));
    ReadString("            ", "files", t0);
    assert [Str("files")] + ([Open] + Read(t)) == [Str("files"), Open] + Read(t);
  }

  lemma ReadEnds(t: string)
    ensures Read("            }," + "\n" + ("        }," + "\n" + t)) == [Close, Close] + Read(t)
  {
    hide Read;
    var inner := "        }," + "\n" + t;
    assert "            }," + "\n" + inner == "            " + ("}" + (",\n" + inner));
    assert inner == "        " + ("}" + (",\n" + t));
    ReadClose("            ", ",\n" + inner);
    ReadFiller(",\n", inner);
    ReadClose("        ", ",\n" + t);
    ReadFiller(",\n", t);
    assert [Close] + ([Close] + Read(t)) == [Close, Close] + Read(t);
  }

  lemma ReadRepo(e: Keyed, after: seq<string>)
    requires RepoQuotable(e)
    ensures Read(Text(RepoLines(e) + after)) == RepoTokens(e) + Read(Text(after))
  {
    hide Read, HeadLines, FileLines, FileTokens, Text, FilesQuotable, Quotable;
    HeadLength(e);
    var (h, files) := (HeadLines(e), e.item.files);
    var rest := ["            },"] + (["        },"] + after);
    var middle := FileLines(files) + rest;
    assert RepoLines(e) + after == [h[0]] + ([h[1]] + ([h[2]] + middle));
    TextCons(h[0], [h[1]] + ([h[2]] + middle));
    TextCons(h[1], [h[2]] + middle);
    TextCons(h[2], middle);
    ReadHead(e, Text([h[1]] + ([h[2]] + middle)));
    ReadHead(e, Text([h[2]] + middle));
    ReadHead(e, Text(middle));
    ReadFiles(files, rest);
    TextCons("            },", ["        },"] + after);
    TextCons("        },", after);
    ReadEnds(Text(after));
    ReadJoins(e, Read(Text(after)));
  }

  lemma ReadJoins(e: Keyed, after: seq<Token>)
    requires e.item.Repo?
    ensures [Str(e.id), Open] + ([Str("revision"), Str(e.item.revision)]
            + ([Str("files"), Open] + (FileTokens(e.item.files) + ([Close, Close] + after))))
         == RepoTokens(e) + after
  {
    hide FileTokens;
  }

  lemma {:induction false} ReadRepos(es: seq<Keyed>, after: seq<string>)
    requires AllQuotable(es)
    ensures Read(Text(AllRepoLines(es) + after)) == ReposTokens(es) + Read(Text(after))
  {
    hide Read, RepoLines, RepoTokens, Text, FilesQuotable, Quotable;
    if es == [] {
      assert AllRepoLines(es) + after == after && [] + Read(Text(after)) == Read(Text(after));
    } else {
      var rest := AllRepoLines(es[1..]) + after;
      assert AllRepoLines(es) + after == RepoLines(es[0]) + rest;
      ReadRepo(es[0], rest);
      ReadRepos(es[1..], after);
    }
  }

  /** The literal reads as one dict with an entry for every pinned repository, in order: its id, its
      revision and each of its paths with its own digest. */
  lemma LiteralReadsBack(manifest: seq<Keyed>)
    requires AllQuotable(Pinned(manifest))
    ensures forall i | 0 <= i < |Pinned(manifest)| :: Pinned(manifest)[i].item.Repo?
    ensures Read(Literal(manifest)) == [Open] + ReposTokens(Pinned(manifest)) + [Close]
  {
    hide Read, RepoLines, AllRepoLines, BodyLines, Text, Pinned, AllQuotable, ReposTokens;
    BodyIsPinned(manifest);
    var (es, end) := (Pinned(manifest), ["    }"]);
    assert LiteralLines(manifest) == ["    return {"] + (AllRepoLines(es) + end);
    TextCons("    return {", AllRepoLines(es) + end);
    ReadRepos(es, end);
    ReadOutside(Text(AllRepoLines(es) + end));
    TextOfEnd();
    assert [Open] + (ReposTokens(es) + [Close]) == [Open] + ReposTokens(es) + [Close];
  }

  lemma ReadOutside(t: string)
    ensures Read("    return {" + "\n" + t) == [Open] + Read(t)
  {
    hide Read;
    assert "    return {" + "\n" + t == "    return " + ("{" + ("\n" + t));
    ReadOpen("    return ", "\n" + t);
    ReadFiller("\n", t);
  }

  lemma TextOfEnd()
    ensures Read(Text(["    }"])) == [Close]
  {
    TextCons("    }", []);
    assert ["    }"] + [] == ["    }"] && Text([]) == "";
    assert "    }" + "\n" + "" == "    " + ("}" + "\n");
    ReadClose("    ", "\n");
    ReadFiller("\n", "");
    assert "\n" + "" == "\n" && Read("") == [];
  }

  /** What is pinned: every entry whose id does not start with an underscore and is not `qwen`, and whose
      revision is neither empty nor `local`. */
  lemma {:induction false} PinnedExactly(manifest: seq<Keyed>, e: Keyed)
    ensures e in Pinned(manifest)
       <==> && e in manifest && (e.id != "" ==> e.id[0] != '_') && e.id != "qwen"
            && e.item.Repo? && e.item.revision !in {"", "local"}
  {
    var underscore := "_";
    assert |underscore| == 1 && underscore[0] == '_';
    if manifest != [] {
      PinnedExactly(manifest[1..], e);
      assert manifest == [manifest[0]] + manifest[1..];
    }
  }
}
