/** XKB option lists of scripts/linux/install_permissions.py: comma form, GVariant form, merging. */
module XkbOptions {
  import opened Wrappers
  import opened PyText

  const CAPS_NONE: string := "caps:none"

  // ------------------------------------------------------------------- comma form

  function SplitComma(s: string): (r: seq<string>)
    ensures r != []
  {
    SplitOn(s, ',')
  }

  function KeepNonBlank(tokens: seq<string>): seq<string> {
    if tokens == [] then []
    else (if Strip(tokens[0]) == "" then [] else [Strip(tokens[0])]) + KeepNonBlank(tokens[1..])
  }

  function ParseComma(value: string): seq<string> {
    KeepNonBlank(SplitComma(value))
  }

  function FormatComma(items: seq<string>): string {
    if items == [] then ""
    else if |items| == 1 then items[0]
    else items[0] + "," + FormatComma(items[1..])
  }

  predicate NoComma(s: string) {
    ',' !in s
  }

  /** What a stored option can look like: not blank, trimmed, no separator inside. */
  predicate IsOption(x: string) {
    x != "" && NoComma(x) && Trimmed(x)
  }

  predicate AreOptions(xs: seq<string>) {
    forall i | 0 <= i < |xs| :: IsOption(xs[i])
  }

  predicate MadeOf(s: string, alphabet: set<char>) {
    forall i | 0 <= i < |s| :: s[i] in alphabet
  }

  lemma {:induction false} SplitCommaPieces(s: string, alphabet: set<char>)
    requires MadeOf(s, alphabet)
    ensures forall i | 0 <= i < |SplitComma(s)| :: NoComma(SplitComma(s)[i]) && MadeOf(SplitComma(s)[i], alphabet)
  {
    if s != "" {
      SplitCommaPieces(s[1..], alphabet);
      var rest := SplitComma(s[1..]);
      assert SplitComma(s) == if s[0] == ',' then [""] + rest else [[s[0]] + rest[0]] + rest[1..];
    }
  }

  lemma {:induction false} KeepNonBlankOptions(tokens: seq<string>, alphabet: set<char>)
    requires forall i | 0 <= i < |tokens| :: NoComma(tokens[i]) && MadeOf(tokens[i], alphabet)
    ensures AreOptions(KeepNonBlank(tokens))
    ensures forall i | 0 <= i < |KeepNonBlank(tokens)| :: MadeOf(KeepNonBlank(tokens)[i], alphabet)
  {
    if tokens != [] {
      KeepNonBlankOptions(tokens[1..], alphabet);
      var i, j := StripIsSlice(tokens[0]);
      var x := Strip(tokens[0]);
      assert NoComma(x) && MadeOf(x, alphabet);
    }
  }

  /** Parsing only ever yields well-formed options, made of the value's own characters. */
  lemma ParseGivesOptions(value: string, alphabet: set<char>)
    requires MadeOf(value, alphabet)
    ensures AreOptions(ParseComma(value))
    ensures forall i | 0 <= i < |ParseComma(value)| :: MadeOf(ParseComma(value)[i], alphabet)
  {
    SplitCommaPieces(value, alphabet);
    KeepNonBlankOptions(SplitComma(value), alphabet);
  }

  function Alphabet(s: string): (r: set<char>)
    ensures MadeOf(s, r)
  {
    set c | c in s
  }

  lemma SplitCommaHead(x: string, rest: string)
    requires NoComma(x)
    ensures SplitComma(x) == [x]
    ensures SplitComma(x + "," + rest) == [x] + SplitComma(rest)
  {
    SplitOnHead(x, ',', rest);
  }

  lemma {:induction false} ParseFormatOptions(xs: seq<string>)
    requires AreOptions(xs)
    ensures ParseComma(FormatComma(xs)) == xs
  {
    if xs == [] {
      assert KeepNonBlank([""]) == [];
    } else {
      StripFixesTrimmed(xs[0]);
      if |xs| == 1 {
        SplitCommaHead(xs[0], "");
        assert KeepNonBlank([xs[0]]) == [xs[0]];
      } else {
        SplitCommaHead(xs[0], FormatComma(xs[1..]));
        ParseFormatOptions(xs[1..]);
        var pieces := SplitComma(FormatComma(xs[1..]));
        assert ([xs[0]] + pieces)[1..] == pieces;
      }
    }
  }

  /** The comma form carries a list unharmed exactly when every element is a well-formed option. */
  lemma CommaRoundTrip(xs: seq<string>)
    ensures ParseComma(FormatComma(xs)) == xs <==> AreOptions(xs)
  {
    ParseGivesOptions(FormatComma(xs), Alphabet(FormatComma(xs)));
    if AreOptions(xs) {
      ParseFormatOptions(xs);
    }
  }

  /** Formatting what was parsed normalises the value once and for all. */
  lemma CommaNormalises(value: string)
    ensures ParseComma(FormatComma(ParseComma(value))) == ParseComma(value)
  {
    ParseGivesOptions(value, Alphabet(value));
    CommaRoundTrip(ParseComma(value));
  }

  /** One stretch between commas: an option, or nothing, with white space around it. */
  datatype Piece = Piece(before: string, option: string, after: string) {
    predicate Valid() {
      Blanks(before) && Blanks(after) && (option != "" ==> IsOption(option))
    }

    function Text(): string {
      before + option + after
    }
  }

  predicate ArePieces(ps: seq<Piece>) {
    ps != [] && forall i | 0 <= i < |ps| :: ps[i].Valid()
  }

  function Texts(ps: seq<Piece>): (r: seq<string>)
    ensures |r| == |ps| && forall i | 0 <= i < |ps| :: r[i] == ps[i].Text()
  {
    seq(|ps|, i requires 0 <= i < |ps| => ps[i].Text())
  }

  /** The value the pieces make up. */
  function Joined(ps: seq<Piece>): string {
    FormatComma(Texts(ps))
  }

  function Named(ps: seq<Piece>): seq<string> {
    if ps == [] then [] else (if ps[0].option == "" then [] else [ps[0].option]) + Named(ps[1..])
  }

  /** Splitting at the commas undoes joining with them, for any stretches without commas. */
  lemma {:induction false} SplitOfJoined(items: seq<string>)
    requires items != [] && forall i | 0 <= i < |items| :: NoComma(items[i])
    ensures SplitComma(FormatComma(items)) == items
  {
    if |items| == 1 {
      SplitCommaHead(items[0], "");
    } else {
      SplitCommaHead(items[0], FormatComma(items[1..]));
      SplitOfJoined(items[1..]);
    }
  }

  lemma PieceHasNoComma(p: Piece)
    requires p.Valid()
    ensures NoComma(p.Text()) && Strip(p.Text()) == p.option
  {
    assert !IsSpace(',');
    StripBlanks(p.before, p.option, p.after);
  }

  lemma {:induction false} KeepNonBlankPieces(ps: seq<Piece>)
    requires forall i | 0 <= i < |ps| :: ps[i].Valid()
    ensures KeepNonBlank(Texts(ps)) == Named(ps)
  {
    hide IsSpace, Strip;
    if ps != [] {
      PieceHasNoComma(ps[0]);
      KeepNonBlankPieces(ps[1..]);
      assert Texts(ps)[1..] == Texts(ps[1..]);
    }
  }

  /** What any value parses to: its options in order, without the white space around them and without
      the stretches that are blank. */
  lemma {:induction false} ParseReadsPieces(ps: seq<Piece>)
    requires ArePieces(ps)
    ensures ParseComma(Joined(ps)) == Named(ps)
  {
    hide IsSpace, Strip;
    forall i | 0 <= i < |ps| ensures NoComma(Texts(ps)[i]) { PieceHasNoComma(ps[i]); }
    SplitOfJoined(Texts(ps));
    KeepNonBlankPieces(ps);
  }

  /** Every value is made up of such pieces, so this says what any value parses to. */
  lemma {:induction false} EveryValueHasPieces(value: string) returns (ps: seq<Piece>)
    ensures ArePieces(ps) && Joined(ps) == value
  {
    hide IsSpace, Strip, FormatComma;
    if k :| 0 <= k < |value| && value[k] == ',' {
      var left := EveryValueHasPieces(value[..k]);
      var right := EveryValueHasPieces(value[k + 1..]);
      ps := left + right;
      assert Texts(ps) == Texts(left) + Texts(right);
      FormatCommaConcat(Texts(left), Texts(right));
      assert value == value[..k] + "," + value[k + 1..];
    } else {
      var p := OnePiece(value);
      ps := [p];
      FormatOne(Texts(ps));
    }
  }

  lemma OnePiece(value: string) returns (p: Piece)
    requires NoComma(value)
    ensures p.Valid() && p.Text() == value
  {
    var i, j := StripIsSlice(value);
    p := Piece(value[..i], Strip(value), value[j..]);
  }

  lemma FormatOne(items: seq<string>)
    requires |items| == 1
    ensures FormatComma(items) == items[0]
  {
  }

  lemma {:induction false} FormatCommaConcat(a: seq<string>, b: seq<string>)
    requires a != [] && b != []
    ensures FormatComma(a + b) == FormatComma(a) + "," + FormatComma(b)
  {
    assert (a + b)[1..] == a[1..] + b;
    if |a| == 1 {
      assert a[1..] + b == b;
    } else {
      FormatCommaConcat(a[1..], b);
      assert a[0] + "," + (FormatComma(a[1..]) + "," + FormatComma(b))
          == (a[0] + "," + FormatComma(a[1..])) + "," + FormatComma(b);
    }
  }

  lemma {:induction false} SplitCommaAppend(s: string, c: char)
    requires c != ','
    ensures var pieces := SplitComma(s);
            SplitComma(s + [c]) == pieces[..|pieces| - 1] + [pieces[|pieces| - 1] + [c]]
  {
    if s == "" {
      var none := "";
      assert s + [c] == [c] && [c][1..] == none && SplitComma(none) == [none];
      assert [c] + none == [c] == none + [c];
      assert SplitComma([c]) == [[c] + none] + [none][1..];
    } else {
      assert (s + [c])[1..] == s[1..] + [c];
      SplitCommaAppend(s[1..], c);
      var rest, longer := SplitComma(s[1..]), SplitComma(s[1..] + [c]);
      var n := |rest| - 1;
      if s[0] != ',' {
        var pieces := [[s[0]] + rest[0]] + rest[1..];
        if n == 0 {
          assert longer == [rest[0] + [c]] && [s[0]] + (rest[0] + [c]) == ([s[0]] + rest[0]) + [c];
        } else {
          assert longer[0] == rest[0] && longer[1..] == rest[1..n] + [rest[n] + [c]];
          assert pieces[..n] == [[s[0]] + rest[0]] + rest[1..n];
        }
      }
    }
  }

  lemma {:induction false} KeepNonBlankConcat(a: seq<string>, b: seq<string>)
    ensures KeepNonBlank(a + b) == KeepNonBlank(a) + KeepNonBlank(b)
  {
    if a == [] {
      assert a + b == b;
    } else {
      assert (a + b)[1..] == a[1..] + b;
      KeepNonBlankConcat(a[1..], b);
    }
  }

  /** White space behind a value does not matter. */
  lemma {:induction false} ParseRStrip(value: string)
    ensures ParseComma(RStrip(value)) == ParseComma(value)
  {
    if value != "" && IsSpace(value[|value| - 1]) {
      var front, c := value[..|value| - 1], value[|value| - 1];
      ParseRStrip(front);
      assert value == front + [c] && c != ',';
      SplitCommaAppend(front, c);
      var pieces := SplitComma(front);
      var init, last := pieces[..|pieces| - 1], pieces[|pieces| - 1];
      assert pieces == init + [last];
      KeepNonBlankConcat(init, [last]);
      KeepNonBlankConcat(init, [last + [c]]);
      RStripDropsSpace(last, c);
      assert [last][1..] == [] == [last + [c]][1..];
    }
  }

  lemma {:induction false} FormatCommaShape(xs: seq<string>, alphabet: set<char>)
    requires AreOptions(xs) && forall i | 0 <= i < |xs| :: MadeOf(xs[i], alphabet)
    ensures Trimmed(FormatComma(xs)) && (xs != [] ==> FormatComma(xs) != "")
    ensures MadeOf(FormatComma(xs), alphabet + {','})
  {
    if |xs| == 1 {
      assert FormatComma(xs) == xs[0];
    } else if |xs| > 1 {
      FormatCommaShape(xs[1..], alphabet);
      var s, tail := FormatComma(xs), FormatComma(xs[1..]);
      assert s[|s| - 1] == tail[|tail| - 1];
      assert s[0] == xs[0][0];
    }
  }

  // ---------------------------------------------------------------------- merging

  /** `_merge_option`. */
  function MergeOption(existing: seq<string>, added: string): seq<string> {
    if added in existing then existing else existing + [added]
  }

  /** The old list survives as a prefix, the new option is in, nothing else is, and merging again is a no-op. */
  lemma MergeExtends(existing: seq<string>, added: string)
    ensures var r := MergeOption(existing, added);
            && existing <= r && added in r
            && (forall x | x in r :: x in existing || x == added)
            && |r| == |existing| + (if added in existing then 0 else 1)
            && MergeOption(r, added) == r
  {
    var r := MergeOption(existing, added);
    assert added !in existing ==> r[|existing|] == added;
  }

  lemma MergeKeepsOptions(xs: seq<string>)
    requires AreOptions(xs)
    ensures AreOptions(MergeOption(xs, CAPS_NONE))
  {
    var caps := CAPS_NONE;
    assert |caps| == 9 && caps[0] == 'c' && caps[8] == 'e';
    assert NoComma(caps);
  }

  /** A value written by the installer is left alone by a second merge. */
  lemma InstalledValueIsFixed(value: string)
    ensures var installed := FormatComma(MergeOption(ParseComma(value), CAPS_NONE));
            && ParseComma(installed) == MergeOption(ParseComma(value), CAPS_NONE)
            && FormatComma(MergeOption(ParseComma(installed), CAPS_NONE)) == installed
  {
    ParseGivesOptions(value, Alphabet(value));
    MergeKeepsOptions(ParseComma(value));
    CommaRoundTrip(MergeOption(ParseComma(value), CAPS_NONE));
    MergeExtends(ParseComma(value), CAPS_NONE);
  }

  // ----------------------------------------------------------------- GVariant form

  predicate IsPlain(c: char) {
    c != '\'' && c != '\\' && c != '\n' && c != '\r'
  }

  predicate AllPlain(x: string) {
    forall i | 0 <= i < |x| :: IsPlain(x[i])
  }

  function QuotedBody(items: seq<string>): string {
    if items == [] then ""
    else if |items| == 1 then "'" + items[0] + "'"
    else "'" + items[0] + "'" + ", " + QuotedBody(items[1..])
  }

  function FormatGsettings(items: seq<string>): string {
    "[" + QuotedBody(items) + "]"
  }

  function PlainLength(s: string): (n: nat)
    ensures n <= |s|
  {
    if s != "" && IsPlain(s[0]) then 1 + PlainLength(s[1..]) else 0
  }

  predicate ClosesList(t: string) {
    t != "" && t[0] == ']' && LStrip(t[1..]) == ""
  }

  /** A quoted string without escapes at the front, and what follows it. */
  function FirstItem(t: string): (r: Option<(string, string)>)
    ensures r.Some? ==> |r.value.1| < |t|
  {
    if t == "" || t[0] != '\'' then None
    else
      var n := PlainLength(t[1..]);
      if n + 1 >= |t| || t[n + 1] != '\'' then None
      else
        LStripShorter(t[n + 2..]);
        Some((t[1..n + 1], LStrip(t[n + 2..])))
  }

  /** The list literals `gsettings get` prints, after their opening bracket: quoted strings
      without escapes, commas, a closing bracket.  Anything else is not such a literal. */
  function LiteralItems(s: string): Option<seq<string>>
    decreases |s|
  {
    LStripShorter(s);
    if ClosesList(LStrip(s)) then Some([])
    else
      match FirstItem(LStrip(s))
      case None => None
      case Some((item, after)) =>
        if ClosesList(after) then Some([item])
        else if after == "" || after[0] != ',' then None
        else
          var rest := LiteralItems(after[1..]);
          if rest.None? then None else Some([item] + rest.value)
  }

  function StripQuotes(s: string): string {
    if s != "" && s[0] in "'\"" then StripQuotes(s[1..])
    else if s != "" && s[|s| - 1] in "'\"" then StripQuotes(s[..|s| - 1])
    else s
  }

  function FallbackItems(tokens: seq<string>): seq<string> {
    if tokens == [] then []
    else
      var token := StripQuotes(Strip(tokens[0]));
      (if token == "" then [] else [token]) + FallbackItems(tokens[1..])
  }

  function FallbackParse(raw: string): seq<string> {
    var body := if |raw| >= 2 && raw[0] == '[' && raw[|raw| - 1] == ']' then raw[1..|raw| - 1] else raw;
    FallbackItems(SplitComma(body))
  }

  function ParseGsettings(output: string): seq<string> {
    var raw := Strip(output);
    if raw == "" || "@as" <= raw then []
    else
      var literal := if raw[0] == '[' then LiteralItems(raw[1..]) else None;
      if literal.Some? then literal.value else FallbackParse(raw)
  }

  lemma {:induction false} PlainLengthOf(x: string, rest: string)
    requires AllPlain(x)
    ensures PlainLength(x + "'" + rest) == |x|
  {
    var s := x + "'" + rest;
    if x != "" {
      assert s[1..] == x[1..] + "'" + rest;
      PlainLengthOf(x[1..], rest);
    }
  }

  lemma FirstItemOfQuoted(x: string, u: string)
    requires AllPlain(x) && u != "" && !IsSpace(u[0])
    ensures FirstItem("'" + x + "'" + u) == Some((x, u))
  {
    var s := "'" + x + "'" + u;
    PlainLengthOf(x, u);
    assert s[1..] == x + "'" + u;
    assert s[|x| + 2..] == u && s[1..|x| + 1] == x;
  }

  lemma LiteralItemsSkipBlank(s: string)
    requires s != "" && !IsSpace(s[0])
    ensures LiteralItems(" " + s) == LiteralItems(s)
  {
    assert (" " + s)[1..] == s;
    assert LStrip(" " + s) == LStrip(s);
  }

  lemma LiteralItemsNone()
    ensures LiteralItems("]") == Some([])
  {
    var close := "]";
    assert close[1..] == "" && LStrip(close) == close && ClosesList(close);
  }

  lemma LiteralItemsLast(x: string)
    requires AllPlain(x)
    ensures LiteralItems("'" + x + "'" + "]") == Some([x])
  {
    var close := "]";
    assert close[1..] == "" && ClosesList(close);
    var s := "'" + x + "'" + close;
    assert LStrip(s) == s && s[0] == '\'';
    FirstItemOfQuoted(x, close);
  }

  lemma LiteralItemsCons(x: string, rest: string)
    requires AllPlain(x) && rest != "" && !IsSpace(rest[0]) && LiteralItems(rest).Some?
    ensures LiteralItems("'" + x + "'" + ", " + rest) == Some([x] + LiteralItems(rest).value)
  {
    var u := ", " + rest;
    var s := "'" + x + "'" + u;
    assert s == "'" + x + "'" + ", " + rest;
    assert LStrip(s) == s && s[0] == '\'' && u[0] == ',';
    FirstItemOfQuoted(x, u);
    assert u[1..] == " " + rest;
    LiteralItemsSkipBlank(rest);
  }

  lemma {:induction false} LiteralItemsOfBody(items: seq<string>)
    requires forall i | 0 <= i < |items| :: AllPlain(items[i])
    ensures LiteralItems(QuotedBody(items) + "]") == Some(items)
  {
    hide IsPlain, LiteralItems;
    if items == [] {
      LiteralItemsNone();
      assert QuotedBody(items) + "]" == "]";
    } else if |items| == 1 {
      LiteralItemsLast(items[0]);
      assert items == [items[0]];
    } else {
      var rest := QuotedBody(items[1..]) + "]";
      LiteralItemsOfBody(items[1..]);
      assert rest[0] == '\'';
      LiteralItemsCons(items[0], rest);
      assert QuotedBody(items) + "]" == "'" + items[0] + "'" + ", " + rest;
      assert items == [items[0]] + items[1..];
    }
  }

  /** Every list of plain strings, blanks and commas included, survives `gsettings set` / `get`. */
  lemma GsettingsRoundTrip(items: seq<string>)
    requires forall i | 0 <= i < |items| :: AllPlain(items[i])
    ensures ParseGsettings(FormatGsettings(items)) == items
  {
    var s := FormatGsettings(items);
    assert s[1..] == QuotedBody(items) + "]";
    var typed := "@as";
    assert s[0] == '[' && s[|s| - 1] == ']' && typed[0] == '@';
    assert Trimmed(s);
    StripFixesTrimmed(s);
    LiteralItemsOfBody(items);
  }

  lemma StripQuotesOfQuoted(x: string)
    requires x != "" && x[0] !in "'\"" && x[|x| - 1] !in "'\""
    ensures StripQuotes("'" + x + "'") == x
  {
    var s := "'" + x + "'";
    assert s[1..] == x + "'";
    assert (x + "'")[..|x|] == x;
    assert StripQuotes(x) == x;
    assert StripQuotes(x + "'") == StripQuotes(x);
    assert s[0] == '\'';
  }

  predicate IsGsettingsOption(x: string) {
    IsOption(x) && AllPlain(x) && x[0] != '"' && x[|x| - 1] != '"'
  }

  lemma FallbackToken(pad: string, item: string)
    requires IsGsettingsOption(item) && (pad == "" || pad == " ")
    ensures var token := pad + ("'" + item + "'"); NoComma(token) && StripQuotes(Strip(token)) == item != ""
  {
    var quoted := "'" + item + "'";
    var token := pad + quoted;
    assert quoted[0] == '\'' && quoted[|quoted| - 1] == '\'';
    assert RStrip(token) == token;
    if pad == " " {
      assert token[1..] == quoted;
    } else {
      assert token == quoted;
    }
    assert LStrip(quoted) == quoted;
    StripQuotesOfQuoted(item);
  }

  lemma {:induction false} FallbackOfBody(items: seq<string>, pad: string)
    requires items != [] && forall i | 0 <= i < |items| :: IsGsettingsOption(items[i])
    requires pad == "" || pad == " "
    ensures FallbackItems(SplitComma(pad + QuotedBody(items))) == items
  {
    hide IsGsettingsOption, NoComma, Strip, StripQuotes, SplitComma;
    var x := items[0];
    var token := pad + ("'" + x + "'");
    FallbackToken(pad, x);
    if |items| == 1 {
      SplitCommaHead(token, "");
      assert pad + QuotedBody(items) == token;
      assert FallbackItems([token]) == [x];
    } else {
      var rest := " " + QuotedBody(items[1..]);
      QuotedBodyCons(pad, items);
      SplitCommaHead(token, rest);
      FallbackOfBody(items[1..], " ");
      FallbackCons(token, SplitComma(rest));
      assert items == [x] + items[1..];
    }
  }

  lemma QuotedBodyCons(pad: string, items: seq<string>)
    requires |items| > 1
    ensures pad + QuotedBody(items) == pad + ("'" + items[0] + "'") + "," + (" " + QuotedBody(items[1..]))
  {
  }

  lemma FallbackCons(token: string, tokens: seq<string>)
    requires StripQuotes(Strip(token)) != ""
    ensures FallbackItems([token] + tokens) == [StripQuotes(Strip(token))] + FallbackItems(tokens)
  {
    assert ([token] + tokens)[1..] == tokens;
  }

  /** On real option lists the literal reader and the tokenizing fallback agree. */
  lemma FallbackAgrees(items: seq<string>)
    requires forall i | 0 <= i < |items| :: IsGsettingsOption(items[i])
    ensures FallbackParse(FormatGsettings(items)) == items == ParseGsettings(FormatGsettings(items))
  {
    GsettingsRoundTrip(items);
    var s := FormatGsettings(items);
    assert s[1..|s| - 1] == QuotedBody(items) == "" + QuotedBody(items);
    if items == [] {
      assert FallbackItems([""]) == [];
    } else {
      FallbackOfBody(items, "");
    }
  }

  /** `@as []`, the printed form of an empty list, and anything else that starts like it, is no option. */
  lemma TypedEmptyList(output: string, blanks: string, rest: string)
    requires Blanks(blanks) && output == blanks + ("@as" + rest)
    ensures ParseGsettings(output) == []
  {
    hide Strip;
    var typed := "@as";
    assert typed[0] == '@' && typed[2] == 's';
    PrefixOfStripped(output, typed);
  }

  lemma BlankOutput(output: string)
    requires Blanks(output)
    ensures ParseGsettings(output) == []
  {
    StripBlanks(output, "", "");
    assert output + "" + "" == output;
  }

  // -------------------------------------------------------- what the fallback reads

  predicate Quotes(s: string) {
    forall i | 0 <= i < |s| :: s[i] in "'\""
  }

  /** One stretch between commas as the fallback sees it: an item in quotes of either kind, or in none,
      with white space around it. */
  datatype Quoted = Quoted(before: string, open: string, item: string, close: string, after: string) {
    predicate Valid() {
      && Blanks(before) && Blanks(after) && Quotes(open) && Quotes(close) && NoComma(item)
      && (item != "" ==> item[0] !in "'\"" && item[|item| - 1] !in "'\"") && Trimmed(open + item + close)
    }

    function Text(): string {
      before + (open + item + close) + after
    }
  }

  function QuotedTexts(qs: seq<Quoted>): (r: seq<string>)
    ensures |r| == |qs| && forall i | 0 <= i < |qs| :: r[i] == qs[i].Text()
  {
    seq(|qs|, i requires 0 <= i < |qs| => qs[i].Text())
  }

  function Items(qs: seq<Quoted>): seq<string> {
    if qs == [] then [] else (if qs[0].item == "" then [] else [qs[0].item]) + Items(qs[1..])
  }

  lemma {:induction false} StripQuotesRuns(open: string, item: string, close: string)
    requires Quotes(open) && Quotes(close)
    requires item != "" ==> item[0] !in "'\"" && item[|item| - 1] !in "'\""
    ensures StripQuotes(open + item + close) == item
    decreases |open| + |close|
  {
    var s := open + item + close;
    if open != "" {
      assert s[1..] == open[1..] + item + close;
      StripQuotesRuns(open[1..], item, close);
    } else if close != "" {
      var front := close[..|close| - 1];
      if item == "" {
        assert s == close && s[1..] == "" + "" + close[1..];
        StripQuotesRuns("", "", close[1..]);
      } else {
        assert s[..|s| - 1] == "" + item + front;
        StripQuotesRuns("", item, front);
      }
    } else {
      assert s == item;
    }
  }

  lemma QuotedHasNoComma(q: Quoted)
    requires q.Valid()
    ensures NoComma(q.Text()) && StripQuotes(Strip(q.Text())) == q.item
  {
    assert !IsSpace(',') && ',' !in "'\"";
    StripBlanks(q.before, q.open + q.item + q.close, q.after);
    StripQuotesRuns(q.open, q.item, q.close);
  }

  lemma {:induction false} FallbackItemsRead(qs: seq<Quoted>)
    requires forall i | 0 <= i < |qs| :: qs[i].Valid()
    ensures FallbackItems(QuotedTexts(qs)) == Items(qs)
  {
    hide IsSpace, Strip, StripQuotes;
    if qs != [] {
      QuotedHasNoComma(qs[0]);
      FallbackItemsRead(qs[1..]);
      assert QuotedTexts(qs)[1..] == QuotedTexts(qs[1..]);
    }
  }

  lemma FallbackBody(body: string)
    ensures FallbackParse("[" + body + "]") == FallbackItems(SplitComma(body))
  {
    hide FallbackItems, SplitComma;
    var raw := "[" + body + "]";
    assert raw[0] == '[' && raw[|raw| - 1] == ']' && raw[1..|raw| - 1] == body;
  }

  /** The fallback reads any bracketed list of such stretches, whatever its quotes and white space. */
  lemma FallbackReads(qs: seq<Quoted>)
    requires qs != [] && forall i | 0 <= i < |qs| :: qs[i].Valid()
    ensures FallbackParse("[" + FormatComma(QuotedTexts(qs)) + "]") == Items(qs)
  {
    hide IsSpace, Strip, StripQuotes, FormatComma, FallbackParse, FallbackItems, SplitComma, Items;
    forall i | 0 <= i < |qs| ensures NoComma(QuotedTexts(qs)[i]) { QuotedHasNoComma(qs[i]); }
    SplitOfJoined(QuotedTexts(qs));
    FallbackItemsRead(qs);
    FallbackBody(FormatComma(QuotedTexts(qs)));
  }
}
