/**
 * The Python string operations the scripts rely on: `strip`, `split()`, `splitlines(keepends=True)`,
 * `"".join`, `find` and `in`, with the facts that make line-by-line rewriting reversible.
 */
module PyText {
  import opened Wrappers

  // ------------------------------------------------------------------ whitespace

  /** `str.isspace` of one character. */
  predicate IsSpace(c: char) {
    || c == ' ' || '\t' <= c <= '\r' || '\U{1c}' <= c <= '\U{1f}' || c == '\U{85}' || c == '\U{a0}'
    || c == '\U{1680}' || '\U{2000}' <= c <= '\U{200a}' || c == '\U{2028}' || c == '\U{2029}'
    || c == '\U{202f}' || c == '\U{205f}' || c == '\U{3000}'
  }

  /** The characters `str.splitlines` ends a line at. */
  predicate IsBreak(c: char) {
    '\n' <= c <= '\r' || '\U{1c}' <= c <= '\U{1e}' || c == '\U{85}' || c == '\U{2028}' || c == '\U{2029}'
  }

  function LStrip(s: string): string {
    if s != "" && IsSpace(s[0]) then LStrip(s[1..]) else s
  }

  function RStrip(s: string): string {
    if s != "" && IsSpace(s[|s| - 1]) then RStrip(s[..|s| - 1]) else s
  }

  function Strip(s: string): string {
    LStrip(RStrip(s))
  }

  predicate Trimmed(s: string) {
    s != "" ==> !IsSpace(s[0]) && !IsSpace(s[|s| - 1])
  }

  lemma {:induction false} LStripIsSuffix(s: string) returns (k: nat)
    ensures k <= |s| && LStrip(s) == s[k..]
    ensures LStrip(s) != "" ==> !IsSpace(LStrip(s)[0])
    ensures forall i | 0 <= i < k :: IsSpace(s[i])
  {
    if s != "" && IsSpace(s[0]) {
      var j := LStripIsSuffix(s[1..]);
      k := j + 1;
      assert s[1..][j..] == s[k..];
      assert forall i | 0 < i < k :: s[i] == s[1..][i - 1];
    } else {
      k := 0;
    }
  }

  lemma {:induction false} RStripIsPrefix(s: string) returns (k: nat)
    ensures k <= |s| && RStrip(s) == s[..k]
    ensures RStrip(s) != "" ==> !IsSpace(s[k - 1])
    ensures forall i | k <= i < |s| :: IsSpace(s[i])
  {
    if s != "" && IsSpace(s[|s| - 1]) {
      k := RStripIsPrefix(s[..|s| - 1]);
      assert s[..|s| - 1][..k] == s[..k];
      assert forall i | k <= i < |s| - 1 :: s[i] == s[..|s| - 1][i];
    } else {
      k := |s|;
    }
  }

  /** Nothing but white space. */
  predicate Blanks(s: string) {
    forall i | 0 <= i < |s| :: IsSpace(s[i])
  }

  /** Stripping always gives a trimmed slice of the argument, with only white space around it ... */
  lemma StripIsSlice(s: string) returns (i: nat, j: nat)
    ensures i <= j <= |s| && Strip(s) == s[i..j] && Trimmed(Strip(s))
    ensures Blanks(s[..i]) && Blanks(s[j..])
  {
    j := RStripIsPrefix(s);
    i := LStripIsSuffix(RStrip(s));
    assert Strip(s) == s[..j][i..] == s[i..j];
    assert forall k | 0 <= k < i :: s[k] == s[..j][k];
    if Strip(s) != "" {
      assert Strip(s)[|Strip(s)| - 1] == s[j - 1];
    }
  }

  /** ... and changes nothing exactly on trimmed strings. */
  lemma StripFixesTrimmed(s: string)
    ensures Strip(s) == s <==> Trimmed(s)
  {
    var i, j := StripIsSlice(s);
  }

  lemma RStripDropsSpace(s: string, c: char)
    requires IsSpace(c)
    ensures RStrip(s + [c]) == RStrip(s)
  {
    assert (s + [c])[..|s|] == s;
  }

  lemma {:induction false} LStripBlanks(b: string, x: string)
    requires Blanks(b) && (x != "" ==> !IsSpace(x[0]))
    ensures LStrip(b + x) == x
  {
    if b == "" {
      assert b + x == x;
    } else {
      assert (b + x)[1..] == b[1..] + x;
      LStripBlanks(b[1..], x);
    }
  }

  lemma {:induction false} RStripBlanks(x: string, b: string)
    requires Blanks(b) && (x != "" ==> !IsSpace(x[|x| - 1]))
    ensures RStrip(x + b) == x
  {
    if b == "" {
      assert x + b == x;
    } else {
      var front := b[..|b| - 1];
      assert x + b == (x + front) + [b[|b| - 1]];
      RStripDropsSpace(x + front, b[|b| - 1]);
      RStripBlanks(x, front);
    }
  }

  /** White space on either side is all that stripping takes. */
  lemma StripBlanks(before: string, x: string, after: string)
    requires Blanks(before) && Blanks(after) && Trimmed(x)
    ensures Strip(before + x + after) == x
  {
    if x == "" {
      assert before + x + after == "" + (before + after);
      RStripBlanks("", before + after);
    } else {
      RStripBlanks(before + x, after);
      LStripBlanks(before, x);
    }
  }

  /** What stands before the last word is not touched by stripping the end. */
  lemma {:induction false} RStripTail(a: string, x: string)
    requires !Blanks(x)
    ensures RStrip(a + x) == a + RStrip(x) && RStrip(x) != ""
  {
    var front, last := x[..|x| - 1], x[|x| - 1];
    if IsSpace(last) {
      assert !Blanks(front);
      assert a + x == (a + front) + [last] && x == front + [last];
      RStripTail(a, front);
      RStripDropsSpace(a + front, last);
      RStripDropsSpace(front, last);
    } else {
      assert (a + x)[|a + x| - 1] == last;
    }
  }

  /** Which texts start with a word once they are stripped ... */
  lemma PrefixOfStripped(line: string, marker: string)
    requires marker != "" && Trimmed(marker)
    ensures marker <= Strip(line) <==> exists b, rest :: Blanks(b) && line == b + (marker + rest)
  {
    hide RStrip, LStrip, IsSpace;
    if marker <= Strip(line) {
      var i, j := StripIsSlice(line);
      assert line[i..][..|marker|] == marker;
      assert line == line[..i] + (marker + line[i + |marker|..]);
    }
    if b, rest :| Blanks(b) && line == b + (marker + rest) {
      assert line == (b + marker) + rest;
      if Blanks(rest) {
        RStripBlanks(b + marker, rest);
        assert RStrip(line) == b + (marker + "");
        LStripBlanks(b, marker + "");
      } else {
        RStripTail(b + marker, rest);
        assert RStrip(line) == b + (marker + RStrip(rest));
        LStripBlanks(b, marker + RStrip(rest));
      }
    }
  }

  /** ... and which consist of it. */
  lemma WholeOfStripped(line: string, marker: string)
    requires Trimmed(marker)
    ensures Strip(line) == marker <==> exists b, rest :: Blanks(b) && Blanks(rest) && line == b + marker + rest
  {
    hide RStrip, LStrip, IsSpace;
    if Strip(line) == marker {
      var i, j := StripIsSlice(line);
      assert line == line[..i] + marker + line[j..];
    }
    if b, rest :| Blanks(b) && Blanks(rest) && line == b + marker + rest {
      StripBlanks(b, marker, rest);
    }
  }

  // ---------------------------------------------------------------------- tokens

  function WordLength(s: string): (n: nat)
    ensures n <= |s|
    ensures s != "" && !IsSpace(s[0]) ==> n > 0
    ensures forall i | 0 <= i < n :: !IsSpace(s[i])
    ensures n < |s| ==> IsSpace(s[n])
  {
    if s == "" || IsSpace(s[0]) then 0 else 1 + WordLength(s[1..])
  }

  lemma LStripShorter(s: string)
    ensures |LStrip(s)| <= |s|
    ensures LStrip(s) != "" ==> !IsSpace(LStrip(s)[0])
  {
    var k := LStripIsSuffix(s);
  }

  /** `s.split()`. */
  function Tokens(s: string): seq<string>
    decreases |s|
  {
    LStripShorter(s);
    var t := LStrip(s);
    if t == "" then [] else
      var n := WordLength(t);
      [t[..n]] + Tokens(t[n..])
  }

  /** What `s.split(None, n)` leaves as its last piece, "" when there are no more than `n` words. */
  function AfterWords(s: string, n: nat): string
    decreases n
  {
    var t := LStrip(s);
    if n == 0 || t == "" then t else AfterWords(t[WordLength(t)..], n - 1)
  }

  lemma LStripIdempotent(s: string)
    ensures LStrip(LStrip(s)) == LStrip(s)
  {
    LStripShorter(s);
  }

  lemma TokensLStrip(s: string)
    ensures Tokens(LStrip(s)) == Tokens(s)
  {
    LStripIdempotent(s);
  }

  lemma {:induction false} LStripAppendSpace(s: string, c: char)
    requires IsSpace(c)
    ensures LStrip(s + [c]) == if LStrip(s) == "" then "" else LStrip(s) + [c]
  {
    if s == "" {
      assert LStrip("" + [c]) == LStrip([c][1..]);
    } else if IsSpace(s[0]) {
      assert (s + [c])[1..] == s[1..] + [c];
      LStripAppendSpace(s[1..], c);
    }
  }

  lemma {:induction false} WordLengthAppendSpace(s: string, c: char)
    requires IsSpace(c)
    ensures WordLength(s + [c]) == WordLength(s)
  {
    if s != "" && !IsSpace(s[0]) {
      assert (s + [c])[1..] == s[1..] + [c];
      WordLengthAppendSpace(s[1..], c);
    }
  }

  lemma {:induction false} TokensAppendSpace(s: string, c: char)
    requires IsSpace(c)
    ensures Tokens(s + [c]) == Tokens(s)
    decreases |s|
  {
    LStripAppendSpace(s, c);
    LStripShorter(s);
    var t := LStrip(s);
    if t != "" {
      var n := WordLength(t);
      WordLengthAppendSpace(t, c);
      assert (t + [c])[..n] == t[..n];
      assert (t + [c])[n..] == t[n..] + [c];
      TokensAppendSpace(t[n..], c);
    }
  }

  lemma {:induction false} TokensRStrip(s: string)
    ensures Tokens(RStrip(s)) == Tokens(s)
  {
    if s != "" && IsSpace(s[|s| - 1]) {
      TokensRStrip(s[..|s| - 1]);
      assert s == s[..|s| - 1] + [s[|s| - 1]];
      TokensAppendSpace(s[..|s| - 1], s[|s| - 1]);
    }
  }

  /** Outer whitespace is invisible to `split()`. */
  lemma TokensStrip(s: string)
    ensures Tokens(Strip(s)) == Tokens(s)
  {
    TokensLStrip(RStrip(s));
    TokensRStrip(s);
  }

  predicate IsWord(w: string) {
    w != "" && forall i | 0 <= i < |w| :: !IsSpace(w[i])
  }

  lemma {:induction false} WordLengthOfWord(w: string, c: char, rest: string)
    requires IsSpace(c) && forall i | 0 <= i < |w| :: !IsSpace(w[i])
    ensures WordLength(w + [c] + rest) == |w|
  {
    var s := w + [c] + rest;
    if w != "" {
      assert s[1..] == w[1..] + [c] + rest;
      WordLengthOfWord(w[1..], c, rest);
    } else {
      assert s[0] == c;
    }
  }

  /** A leading word is split off by `split()` and by `split(None, n)` alike. */
  lemma LeadingWord(w: string, c: char, rest: string, n: nat)
    requires IsWord(w) && IsSpace(c)
    ensures Tokens(w + [c] + rest) == [w] + Tokens(rest)
    ensures AfterWords(w + [c] + rest, n + 1) == AfterWords(rest, n)
  {
    var s := w + [c] + rest;
    assert s[0] == w[0];
    assert LStrip(s) == s;
    WordLengthOfWord(w, c, rest);
    assert s[..|w|] == w;
    assert s[|w|..] == [c] + rest;
    assert ([c] + rest)[1..] == rest;
    assert LStrip([c] + rest) == LStrip(rest);
    TokensLStrip([c] + rest);
    TokensLStrip(rest);
  }

  /** What may follow a word: nothing, or white space. */
  predicate EndsWord(t: string) {
    t != "" ==> IsSpace(t[0])
  }

  lemma {:induction false} WordLengthIs(w: string, t: string)
    requires EndsWord(t) && forall i | 0 <= i < |w| :: !IsSpace(w[i])
    ensures WordLength(w + t) == |w|
  {
    if w == "" {
      assert w + t == t;
    } else {
      assert (w + t)[1..] == w[1..] + t;
      WordLengthIs(w[1..], t);
    }
  }

  /** A word behind any white space is split off by `split()` and by `split(None, n)` alike. */
  lemma FirstWord(b: string, w: string, t: string, n: nat)
    requires Blanks(b) && IsWord(w) && EndsWord(t)
    ensures Tokens(b + w + t) == [w] + Tokens(t)
    ensures AfterWords(b + w + t, n + 1) == AfterWords(t, n)
  {
    assert b + w + t == b + (w + t);
    LStripBlanks(b, w + t);
    WordLengthIs(w, t);
    assert (w + t)[..|w|] == w && (w + t)[|w|..] == t;
  }

  /** Splitting finds words exactly in texts that are not blank; the first one stands behind blanks. */
  lemma SplitFirstWord(s: string) returns (b: string, w: string, t: string)
    ensures Tokens(s) == [] <==> Blanks(s)
    ensures Tokens(s) != [] ==>
              s == b + w + t && Blanks(b) && IsWord(w) && EndsWord(t) && Tokens(s) == [w] + Tokens(t)
  {
    var k := LStripIsSuffix(s);
    var rest := LStrip(s);
    b, w, t := s[..k], "", "";
    if rest == "" {
      assert |s[k..]| == |s| - k;
    } else {
      assert !IsSpace(s[k]);
      w, t := rest[..WordLength(rest)], rest[WordLength(rest)..];
      assert rest == w + t && s == b + rest;
      assert b + w + t == b + (w + t);
    }
  }

  // ----------------------------------------------------------------------- lines

  /** Length of the first line, its break included; "\r\n" is one break. */
  function FirstLine(s: string): (n: nat)
    requires s != ""
    ensures 0 < n <= |s|
  {
    if IsBreak(s[0]) then (if s[0] == '\r' && |s| > 1 && s[1] == '\n' then 2 else 1)
    else if |s| == 1 then 1
    else 1 + FirstLine(s[1..])
  }

  /** `s.splitlines(keepends=True)`. */
  function SplitLines(s: string): seq<string> {
    if s == "" then [] else
      var n := FirstLine(s);
      [s[..n]] + SplitLines(s[n..])
  }

  function Join(lines: seq<string>): string {
    if lines == [] then "" else lines[0] + Join(lines[1..])
  }

  /** `read_text` has translated every carriage return away. */
  predicate NewlinesOnly(s: string) {
    '\r' !in s
  }

  /** One complete line: its only break is its last character. */
  predicate Terminated(l: string) {
    l != "" && IsBreak(l[|l| - 1]) && NewlinesOnly(l) && forall i | 0 <= i < |l| - 1 :: !IsBreak(l[i])
  }

  predicate Unterminated(l: string) {
    l != "" && forall i | 0 <= i < |l| :: !IsBreak(l[i])
  }

  /** What a text without carriage returns splits into: only the last line may lack its break. */
  predicate LineList(lines: seq<string>) {
    forall i | 0 <= i < |lines| :: Terminated(lines[i]) || (i == |lines| - 1 && Unterminated(lines[i]))
  }

  lemma {:induction false} FirstLineShape(s: string)
    requires s != "" && NewlinesOnly(s)
    ensures var l := s[..FirstLine(s)]; Terminated(l) || (l == s && Unterminated(l))
  {
    if IsBreak(s[0]) {
      assert s[0] != '\r';
    } else if |s| > 1 {
      FirstLineShape(s[1..]);
      var n := FirstLine(s);
      assert s[..n] == [s[0]] + s[1..][..n - 1];
      assert s == [s[0]] + s[1..];
    }
  }

  lemma {:induction false} SplitLosesNothing(s: string)
    ensures Join(SplitLines(s)) == s
  {
    hide FirstLine;
    if s != "" {
      var n := FirstLine(s);
      SplitLosesNothing(s[n..]);
      assert SplitLines(s)[0] == s[..n] && SplitLines(s)[1..] == SplitLines(s[n..]);
    }
  }

  lemma {:induction false} SplitGivesLines(s: string)
    requires NewlinesOnly(s)
    ensures LineList(SplitLines(s)) && Join(SplitLines(s)) == s
  {
    hide Terminated, Unterminated, FirstLine;
    SplitLosesNothing(s);
    if s != "" {
      var n := FirstLine(s);
      var rest := SplitLines(s[n..]);
      FirstLineShape(s);
      SplitGivesLines(s[n..]);
      assert n == |s| ==> rest == [];
      assert s[..|s|] == s;
      LineListStep(s[..n], rest);
    }
  }

  lemma LineListStep(line: string, rest: seq<string>)
    requires LineList(rest) && (Terminated(line) || (rest == [] && Unterminated(line)))
    ensures LineList([line] + rest)
  {
    hide Terminated, Unterminated;
  }

  lemma {:induction false} FirstLineOf(l: string, rest: string)
    requires Terminated(l) || (Unterminated(l) && rest == "")
    ensures FirstLine(l + rest) == |l|
  {
    var s := l + rest;
    if |l| > 1 {
      assert s[1..] == l[1..] + rest;
      assert l[|l| - 1] == l[1..][|l| - 2];
      FirstLineOf(l[1..], rest);
    } else if IsBreak(l[0]) {
      assert l[0] != '\r';
    }
  }

  lemma {:induction false} SplitOfJoin(lines: seq<string>)
    requires LineList(lines)
    ensures SplitLines(Join(lines)) == lines
  {
    if lines != [] {
      var rest := Join(lines[1..]);
      FirstLineOf(lines[0], rest);
      var s := lines[0] + rest;
      assert s[..|lines[0]|] == lines[0] && s[|lines[0]|..] == rest;
      SplitOfJoin(lines[1..]);
    }
  }

  lemma {:induction false} JoinConcat(a: seq<string>, b: seq<string>)
    ensures Join(a + b) == Join(a) + Join(b)
  {
    if a == [] {
      assert a + b == b;
    } else {
      assert (a + b)[1..] == a[1..] + b;
      JoinConcat(a[1..], b);
    }
  }

  /** Line lists are equal when their texts are: nothing is lost by joining. */
  lemma JoinInjective(a: seq<string>, b: seq<string>)
    requires LineList(a) && LineList(b)
    ensures Join(a) == Join(b) <==> a == b
  {
    SplitOfJoin(a);
    SplitOfJoin(b);
  }

  // -------------------------------------------------------------------- searching

  predicate OccursAt(s: string, sub: string, i: int) {
    0 <= i <= |s| - |sub| && s[i..i + |sub|] == sub
  }

  /** `s.find(sub, start)`: the least index at or after `start`, None for -1. */
  function Find(s: string, sub: string, start: nat): (r: Option<nat>)
    ensures r.Some? ==> start <= r.value && OccursAt(s, sub, r.value)
    ensures forall i | start <= i && (r.Some? ==> i < r.value) :: !OccursAt(s, sub, i)
    decreases |s| - start
  {
    if start + |sub| > |s| then None
    else if OccursAt(s, sub, start) then Some(start)
    else Find(s, sub, start + 1)
  }

  /** `sub in s`. */
  predicate Contains(s: string, sub: string) {
    Find(s, sub, 0).Some?
  }

  lemma ContainsIffOccurs(s: string, sub: string)
    ensures Contains(s, sub) <==> exists i :: OccursAt(s, sub, i)
  {
    if i :| OccursAt(s, sub, i) {
      assert Find(s, sub, 0).None? ==> !OccursAt(s, sub, i);
    }
  }

  // --------------------------------------------------------------------- splitting

  /** `s.split(sep)` for a one-character separator: always at least one piece. */
  function SplitOn(s: string, sep: char): (r: seq<string>)
    ensures r != []
  {
    if s == "" then [""]
    else
      var rest := SplitOn(s[1..], sep);
      if s[0] == sep then [""] + rest else [[s[0]] + rest[0]] + rest[1..]
  }

  lemma {:induction false} SplitOnHead(x: string, sep: char, rest: string)
    requires sep !in x
    ensures SplitOn(x, sep) == [x]
    ensures SplitOn(x + [sep] + rest, sep) == [x] + SplitOn(rest, sep)
  {
    var s := x + [sep] + rest;
    if x == "" {
      assert s[1..] == rest;
    } else {
      SplitOnHead(x[1..], sep, rest);
      assert s[1..] == x[1..] + [sep] + rest;
      assert x == [x[0]] + x[1..];
    }
  }
}
