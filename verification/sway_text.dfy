/** Which texts the installer and the uninstaller take for directives, character by character. */
module SwayText {
  import opened PyText
  import opened XkbOptions
  import opened SwayConfig

  /** Three words behind any white space, then white space and a value. */
  predicate LiveParts(line: string, b0: string, b1: string, b2: string, b3: string, rest: string) {
    && Blanks(b0) && Blanks(b1) && Blanks(b2) && Blanks(b3) && b1 != "" && b2 != "" && b3 != ""
    && rest != "" && !IsSpace(rest[0])
    && line == b0 + "input" + (b1 + "*" + (b2 + "xkb_options" + (b3 + rest)))
  }

  /** The three words, and nothing or white space behind them. */
  predicate BareParts(line: string, b0: string, b1: string, b2: string, tail: string) {
    && Blanks(b0) && Blanks(b1) && Blanks(b2) && b1 != "" && b2 != "" && EndsWord(tail)
    && line == b0 + "input" + (b1 + "*" + (b2 + "xkb_options" + tail))
  }

  lemma ThreeWordsAre()
    ensures IsWord("input") && IsWord("*") && IsWord("xkb_options")
  {
  }

  /** The tokens of a text that starts with the three words. */
  lemma TokensOfParts(b0: string, b1: string, b2: string, tail: string)
    requires Blanks(b0) && Blanks(b1) && Blanks(b2) && b1 != "" && b2 != "" && EndsWord(tail)
    ensures var line := b0 + "input" + (b1 + "*" + (b2 + "xkb_options" + tail));
            && Tokens(line) == ["input", "*", "xkb_options"] + Tokens(tail)
            && AfterWords(line, 3) == AfterWords(tail, 0)
  {
    hide Tokens, AfterWords, IsWord;
    ThreeWordsAre();
    var third := b2 + "xkb_options" + tail;
    var second := b1 + "*" + third;
    FirstWord(b0, "input", second, 2);
    FirstWord(b1, "*", third, 1);
    FirstWord(b2, "xkb_options", tail, 0);
    assert ["input"] + (["*"] + (["xkb_options"] + Tokens(tail))) == ["input", "*", "xkb_options"] + Tokens(tail);
  }

  lemma TokensGiveParts(line: string) returns (b0: string, b1: string, b2: string, tail: string)
    requires SetsXkb(Tokens(line), 3)
    ensures BareParts(line, b0, b1, b2, tail) && Tokens(line)[3..] == Tokens(tail)
  {
    hide Tokens;
    var w0, w1, w2, t0, t1;
    b0, w0, t0 := SplitFirstWord(line);
    assert Tokens(line)[1..] == Tokens(t0);
    b1, w1, t1 := SplitFirstWord(t0);
    assert Tokens(t0)[1..] == Tokens(t1);
    b2, w2, tail := SplitFirstWord(t1);
    assert Tokens(t1)[1..] == Tokens(tail);
    assert w0 == "input" && w1 == "*" && w2 == "xkb_options";
    WordStartsBehindBlank(t0, b1, w1, t1);
    WordStartsBehindBlank(t1, b2, w2, tail);
  }

  lemma WordStartsBehindBlank(t: string, b: string, w: string, tail: string)
    requires EndsWord(t) && t == b + w + tail && IsWord(w)
    ensures b != ""
  {
    assert t[0] == (b + w)[0];
  }

  /** The uninstaller takes a line for a directive exactly when it is the three words, behind and
      between any white space, with nothing or white space behind them. */
  lemma BareIsText(line: string)
    ensures IsBare(line) <==> exists b0, b1, b2, tail :: BareParts(line, b0, b1, b2, tail)
  {
    hide Tokens, Strip;
    TokensStrip(line);
    if IsBare(line) {
      var b0, b1, b2, tail := TokensGiveParts(line);
    }
    if b0, b1, b2, tail :| BareParts(line, b0, b1, b2, tail) {
      TokensOfParts(b0, b1, b2, tail);
    }
  }

  /** The installer takes it for one exactly when, besides, a value follows. */
  lemma LiveIsText(line: string)
    ensures IsLive(line) <==> exists b0, b1, b2, b3, rest :: LiveParts(line, b0, b1, b2, b3, rest)
  {
    hide Tokens, Strip;
    TokensStrip(line);
    if IsLive(line) {
      var b0, b1, b2, tail := TokensGiveParts(line);
      var b3, w, t := SplitFirstWord(tail);
      WordStartsBehindBlank(tail, b3, w, t);
      assert tail == b3 + (w + t);
      assert LiveParts(line, b0, b1, b2, b3, w + t);
    }
    if b0, b1, b2, b3, rest :| LiveParts(line, b0, b1, b2, b3, rest) {
      TokensOfParts(b0, b1, b2, b3 + rest);
      SomeTokens(b3, rest);
      NotComment(line);
    }
  }

  lemma SomeTokens(b: string, rest: string)
    requires rest != "" && !IsSpace(rest[0])
    ensures Tokens(b + rest) != []
  {
    assert (b + rest)[|b|] == rest[0];
    var b', w, t := SplitFirstWord(b + rest);
  }

  /** A line whose first word is not a comment is no comment. */
  lemma NotComment(line: string)
    requires Tokens(line) != [] && Tokens(line)[0] == "input"
    ensures Strip(line) != "" && Strip(line)[0] != '#'
  {
    hide Tokens, Strip;
    TokensStrip(line);
    var i, j := StripIsSlice(line);
    var b, w, t := SplitFirstWord(Strip(line));
    assert Strip(line) != "" by { NoTokensOfNothing(); }
    assert Strip(line)[0] == (b + w)[0];
    assert b == "" && w[0] == 'i';
  }

  lemma NoTokensOfNothing()
    ensures Tokens("") == []
  {
  }

  /** The options of a directive are those of its value: the trimmed non-blank stretches between its
      commas, in order. */
  lemma DirectiveOptions(line: string, b0: string, b1: string, b2: string, b3: string, ps: seq<Piece>)
    requires ArePieces(ps) && LiveParts(line, b0, b1, b2, b3, Joined(ps))
    ensures OptionsOf(line) == Named(ps)
  {
    hide Tokens, Strip, AfterWords, ParseComma, Joined;
    var rest := Joined(ps);
    var front := b0 + "input" + (b1 + "*" + (b2 + "xkb_options" + b3));
    assert line == front + rest;
    RStripTail(front, rest);
    var kept := RStrip(rest);
    var k := RStripIsPrefix(rest);
    assert kept[0] == rest[0];
    assert front + kept == b0 + "input" + (b1 + "*" + (b2 + "xkb_options" + (b3 + kept)));
    TokensOfParts(b0, b1, b2, b3 + kept);
    ValueBehindBlanks(b3, kept);
    assert Trimmed(kept);
    StripFixesTrimmed(kept);
    ParseRStrip(rest);
    ParseReadsPieces(ps);
  }

  lemma ValueBehindBlanks(b: string, value: string)
    requires Blanks(b) && value != "" && !IsSpace(value[0])
    ensures AfterWords(b + value, 0) == value
  {
    LStripBlanks(b, value);
  }
}
