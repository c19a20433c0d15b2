/**
 * Dotted keys, missing-key sets and the application of translations (scripts/_i18n_common.py,
 * scripts/add_i18n_keys.py, scripts/apply_translations.py) over the trees of LocaleTree.
 */
module Translations {
  import opened Wrappers
  import opened PyText
  import opened LocaleTree

  // ------------------------------------------------------------------ dotted keys

  function Dotted(p: Path): string
    requires p != []
  {
    if |p| == 1 then p[0] else p[0] + ['.'] + Dotted(p[1..])
  }

  /** Segments that survive being joined with dots. */
  predicate CleanPath(p: Path) {
    p != [] && forall i | 0 <= i < |p| :: p[i] != "" && '.' !in p[i]
  }

  ghost predicate CleanTree(t: Json) {
    forall p | p != [] && Lookup(t, p).Some? :: CleanPath(p)
  }

  /** Splitting a dotted key at its dots gives the path back, so clean paths never share a key. */
  lemma {:induction false} SplitDotted(p: Path)
    requires CleanPath(p)
    ensures SplitOn(Dotted(p), '.') == p
  {
    if |p| == 1 {
      SplitOnHead(p[0], '.', "");
      assert p == [p[0]];
    } else {
      SplitOnHead(p[0], '.', Dotted(p[1..]));
      SplitDotted(p[1..]);
      assert p == [p[0]] + p[1..];
    }
  }

  lemma DottedInjective(p: Path, q: Path)
    requires CleanPath(p) && CleanPath(q)
    ensures Dotted(p) == Dotted(q) <==> p == q
  {
    SplitDotted(p);
    SplitDotted(q);
  }

  /** `f"{prefix}.{k}" if prefix else k`. */
  function Extend(prefix: string, k: string): string {
    if prefix != "" then prefix + ['.'] + k else k
  }

  function DottedFrom(prefix: string, p: Path): string
    decreases |p|
  {
    if p == [] then prefix else DottedFrom(Extend(prefix, p[0]), p[1..])
  }

  lemma {:induction false} DottedFromPrefix(prefix: string, p: Path)
    requires CleanPath(p)
    ensures DottedFrom(prefix, p) == if prefix == "" then Dotted(p) else prefix + ['.'] + Dotted(p)
    decreases |p|
  {
    if |p| == 1 {
      assert DottedFrom(Extend(prefix, p[0]), p[1..]) == Extend(prefix, p[0]);
    } else {
      DottedFromPrefix(Extend(prefix, p[0]), p[1..]);
      assert prefix != "" ==>
               (prefix + ['.'] + p[0]) + ['.'] + Dotted(p[1..]) == prefix + ['.'] + (p[0] + ['.'] + Dotted(p[1..]));
    }
  }

  ghost predicate IsFlatKey(t: Json, prefix: string, key: string) {
    exists p :: IsLeaf(t, p) && key == DottedFrom(prefix, p)
  }

  /** `flatten_keys`: the dotted keys of all leaves, gathered in a recursive loop. */
  method FlattenKeys(t: Json, prefix: string) returns (keys: set<string>)
    requires t.Dict?
    ensures forall key :: key in keys <==> IsFlatKey(t, prefix, key)
    decreases t
  {
    keys := {};
    var todo := t.entries.Keys;
    while todo != {}
      invariant todo <= t.entries.Keys
      invariant forall key :: key in keys <==> FlatAmong(t, prefix, key, t.entries.Keys - todo)
      decreases todo
    {
      var k :| k in todo;
      var v := t.entries[k];
      ghost var done := t.entries.Keys - todo;
      if v.Dict? {
        var below := FlattenKeys(v, Extend(prefix, k));
        keys := keys + below;
      } else {
        keys := keys + {Extend(prefix, k)};
      }
      todo := todo - {k};
      assert t.entries.Keys - todo == done + {k};
      forall key
        ensures FlatAmong(t, prefix, key, done + {k})
           <==> FlatAmong(t, prefix, key, done)
                || (if v.Dict? then IsFlatKey(v, Extend(prefix, k), key) else key == Extend(prefix, k))
      {
        FlatStep(t, prefix, key, done, k);
      }
    }
    assert t.entries.Keys - {} == t.entries.Keys;
    forall key
      ensures FlatAmong(t, prefix, key, t.entries.Keys) <==> IsFlatKey(t, prefix, key)
    {
      FlatAll(t, prefix, key);
    }
  }

  ghost predicate FlatAmong(t: Json, prefix: string, key: string, first: set<string>) {
    exists p :: IsLeaf(t, p) && p[0] in first && key == DottedFrom(prefix, p)
  }

  lemma FlatAll(t: Json, prefix: string, key: string)
    requires t.Dict?
    ensures FlatAmong(t, prefix, key, t.entries.Keys) <==> IsFlatKey(t, prefix, key)
  {
    if p :| IsLeaf(t, p) && key == DottedFrom(prefix, p) {
      assert p[0] in t.entries;
    }
  }

  lemma FlatStep(t: Json, prefix: string, key: string, done: set<string>, k: string)
    requires t.Dict? && k in t.entries
    ensures FlatAmong(t, prefix, key, done + {k})
       <==> FlatAmong(t, prefix, key, done)
            || (if t.entries[k].Dict? then IsFlatKey(t.entries[k], Extend(prefix, k), key)
                else key == Extend(prefix, k))
  {
    var v := t.entries[k];
    if p :| IsLeaf(t, p) && p[0] in done + {k} && key == DottedFrom(prefix, p) {
      if p[0] == k {
        LookupStep(t, p);
        if v.Dict? {
          assert IsLeaf(v, p[1..]) && key == DottedFrom(Extend(prefix, k), p[1..]);
        } else {
          assert p[1..] == [] && DottedFrom(Extend(prefix, k), p[1..]) == Extend(prefix, k);
        }
      }
    }
    if v.Dict? {
      if q :| IsLeaf(v, q) && key == DottedFrom(Extend(prefix, k), q) {
        var p := [k] + q;
        assert p[1..] == q;
        LookupStep(t, p);
        assert IsLeaf(t, p) && p[0] in done + {k} && key == DottedFrom(prefix, p);
      }
    } else if key == Extend(prefix, k) {
      var p := [k];
      assert p[1..] == [] && DottedFrom(Extend(prefix, k), p[1..]) == Extend(prefix, k);
      LookupStep(t, p);
      assert IsLeaf(t, p) && p[0] in done + {k} && key == DottedFrom(prefix, p);
    }
  }

  /** `find_missing`, a set difference of dotted keys; with dot-free, non-empty segments that is exactly
      the English leaves the locale does not have as leaves. */
  method FindMissing(en: Json, loc: Json) returns (missing: set<string>)
    requires en.Dict? && loc.Dict?
    ensures forall key :: key in missing <==> IsFlatKey(en, "", key) && !IsFlatKey(loc, "", key)
    ensures CleanTree(en) && CleanTree(loc) ==>
              forall p | CleanPath(p) :: Dotted(p) in missing <==> IsLeaf(en, p) && !IsLeaf(loc, p)
  {
    var enKeys := FlattenKeys(en, "");
    var locKeys := FlattenKeys(loc, "");
    missing := enKeys - locKeys;
    if CleanTree(en) && CleanTree(loc) {
      forall p | CleanPath(p)
        ensures Dotted(p) in missing <==> IsLeaf(en, p) && !IsLeaf(loc, p)
      {
        FlatKeyIsLeaf(en, p);
        FlatKeyIsLeaf(loc, p);
      }
    }
  }

  /** A merge of trees with clean keys has clean keys. */
  lemma {:induction false} MergeIsClean(en: Json, loc: Json, policy: Policy)
    requires en.Dict? && loc.Dict? && CleanTree(en) && CleanTree(loc)
    ensures CleanTree(Merge(en, loc, policy))
  {
    forall p | p != [] && Lookup(Merge(en, loc, policy), p).Some?
      ensures CleanPath(p)
    {
      MergePathIsClean(en, loc, policy, p);
    }
  }

  lemma {:induction false} MergePathIsClean(en: Json, loc: Json, policy: Policy, p: Path)
    requires en.Dict? && loc.Dict? && CleanTree(en) && CleanTree(loc)
    requires p != [] && Lookup(Merge(en, loc, policy), p).Some?
    ensures CleanPath(p)
  {
    LookupMerge(en, loc, policy, p);
  }

  /** What the add-keys script still reports after its merge: exactly the dotted keys of the English
      leaves at which the locale held a dict. */
  lemma StillMissingAfterAdding(en: Json, loc: Json, p: Path)
    requires en.Dict? && loc.Dict? && CleanTree(en) && CleanTree(loc) && CleanPath(p)
    ensures IsFlatKey(en, "", Dotted(p)) && !IsFlatKey(Merge(en, loc, ReplaceScalarWithDict), "", Dotted(p))
       <==> IsLeaf(en, p) && HasDictAt(loc, p)
  {
    MergeIsClean(en, loc, ReplaceScalarWithDict);
    FlatKeyIsLeaf(en, p);
    FlatKeyIsLeaf(Merge(en, loc, ReplaceScalarWithDict), p);
    if IsLeaf(en, p) {
      MissingAfterReplace(en, loc, p);
    }
  }

  lemma FlatKeyIsLeaf(t: Json, p: Path)
    requires CleanTree(t) && CleanPath(p)
    ensures IsFlatKey(t, "", Dotted(p)) <==> IsLeaf(t, p)
  {
    DottedFromPrefix("", p);
    if q :| IsLeaf(t, q) && Dotted(p) == DottedFrom("", q) {
      DottedFromPrefix("", q);
      DottedInjective(p, q);
    }
  }

  // ----------------------------------------------------------- setting one value

  /** `Crashed` is the exception raised below a stored null; the tree is untouched then, too. */
  datatype Outcome = Done(tree: Json) | Refused | Crashed

  function Fresh(p: Path, value: Json): Json {
    if p == [] then value else Dict(map[p[0] := Fresh(p[1..], value)])
  }

  /** `set_nested`. */
  function SetNested(t: Json, p: Path, value: Json): Outcome
    requires t.Dict? && p != []
    decreases |p|
  {
    var k := p[0];
    if |p| == 1 || k !in t.entries then Done(Dict(t.entries[k := Fresh(p[1..], value)]))
    else
      match t.entries[k]
      case Null => Crashed
      case Scalar(_) => Refused
      case Dict(_) =>
        match SetNested(t.entries[k], p[1..], value)
        case Done(below) => Done(Dict(t.entries[k := below]))
        case Refused => Refused
        case Crashed => Crashed
  }

  predicate IsPrefix(p: Path, q: Path) {
    |p| <= |q| && q[..|p|] == p
  }

  lemma {:induction false} FreshHolds(p: Path, value: Json)
    ensures Lookup(Fresh(p, value), p) == Some(value)
  {
    if p != [] {
      FreshHolds(p[1..], value);
    }
  }

  lemma {:induction false} FreshElsewhere(p: Path, value: Json, q: Path)
    requires !IsPrefix(p, q) && !IsPrefix(q, p)
    ensures Lookup(Fresh(p, value), q) == None
  {
    if p[0] == q[0] {
      PrefixTail(p, q);
      FreshElsewhere(p[1..], value, q[1..]);
    }
  }

  lemma PrefixTail(p: Path, q: Path)
    requires p != [] && q != [] && p[0] == q[0]
    ensures IsPrefix(p, q) <==> IsPrefix(p[1..], q[1..])
    ensures IsPrefix(q, p) <==> IsPrefix(q[1..], p[1..])
  {
    if |p| <= |q| {
      assert q[..|p|] == [q[0]] + q[1..][..|p| - 1] && p == [p[0]] + p[1..];
    }
    if |q| <= |p| {
      assert p[..|q|] == [p[0]] + p[1..][..|q| - 1] && q == [q[0]] + q[1..];
    }
  }

  /** What was set is found again, and every path that is not above or below it is as before. */
  lemma {:induction false} SetThenGet(t: Json, p: Path, value: Json, q: Path)
    requires t.Dict? && p != [] && SetNested(t, p, value).Done?
    ensures SetNested(t, p, value).tree.Dict?
    ensures Lookup(SetNested(t, p, value).tree, p) == Some(value)
    ensures !IsPrefix(p, q) && !IsPrefix(q, p) ==> Lookup(SetNested(t, p, value).tree, q) == Lookup(t, q)
    decreases |p|
  {
    var k := p[0];
    var t' := SetNested(t, p, value).tree;
    LookupStep(t', p);
    FreshHolds(p[1..], value);
    var related := IsPrefix(p, q) || IsPrefix(q, p);
    if q != [] && q[0] == k {
      PrefixTail(p, q);
    }
    if |p| == 1 || k !in t.entries {
      if !related && q[0] == k {
        FreshElsewhere(p[1..], value, q[1..]);
      }
    } else {
      SetThenGet(t.entries[k], p[1..], value, if q != [] then q[1..] else []);
    }
  }

  /** A path is refused exactly when a scalar stands in the way, and the call fails exactly when a
      null does. */
  lemma {:induction false} SetFailsExactly(t: Json, p: Path, value: Json)
    requires t.Dict? && p != []
    ensures SetNested(t, p, value) == Refused <==> exists n :: 0 < n < |p| && ScalarAt(t, p[..n])
    ensures SetNested(t, p, value) == Crashed <==> exists n :: 0 < n < |p| && NullAt(t, p[..n])
    decreases |p|
  {
    var k := p[0];
    if |p| == 1 || k !in t.entries {
      forall n | 0 < n < |p| ensures Lookup(t, p[..n]) == None { assert p[..n][0] == k; }
    } else {
      var v, q := t.entries[k], p[1..];
      forall n | 0 < n < |p|
        ensures Lookup(t, p[..n]) == Lookup(v, q[..n - 1])
      {
        assert p[..n][0] == k && p[..n][1..] == q[..n - 1];
      }
      assert Lookup(v, q[..0]) == Some(v);
      if v.Dict? {
        SetFailsExactly(v, q, value);
        WaysBelow(t, p);
      } else {
        forall n | 1 < n < |p| ensures Lookup(t, p[..n]) == None { assert q[..n - 1] != []; }
        assert Lookup(t, p[..1]) == Some(v);
        assert ScalarAt(t, p[..1]) || NullAt(t, p[..1]);
      }
    }
  }

  predicate ScalarAt(t: Json, p: Path) {
    Lookup(t, p).Some? && Lookup(t, p).value.Scalar?
  }

  predicate NullAt(t: Json, p: Path) {
    Lookup(t, p) == Some(Null)
  }

  lemma WaysBelow(t: Json, p: Path)
    requires t.Dict? && |p| > 1 && p[0] in t.entries && t.entries[p[0]].Dict?
    ensures var v, q := t.entries[p[0]], p[1..];
            && ((exists n :: 0 < n < |p| && ScalarAt(t, p[..n])) <==> exists n :: 0 < n < |q| && ScalarAt(v, q[..n]))
            && ((exists n :: 0 < n < |p| && NullAt(t, p[..n])) <==> exists n :: 0 < n < |q| && NullAt(v, q[..n]))
  {
    var v, q := t.entries[p[0]], p[1..];
    forall n | 0 < n < |p|
      ensures Lookup(t, p[..n]) == Lookup(v, q[..n - 1])
    {
      assert p[..n][0] == p[0] && p[..n][1..] == q[..n - 1];
    }
    assert Lookup(v, q[..0]) == Some(v);
    forall n | 0 < n < |q|
      ensures ScalarAt(v, q[..n]) <==> ScalarAt(t, p[..n + 1])
      ensures NullAt(v, q[..n]) <==> NullAt(t, p[..n + 1])
    {
    }
  }

  // --------------------------------------------------------- applying translations

  /** `get_nested`: a stored null reads like a missing key. */
  function Get(t: Json, p: Path): Option<Json> {
    if Lookup(t, p) == Some(Null) then None else Lookup(t, p)
  }

  /** One turn of the apply loop; None when it raised. */
  function ApplyOne(en: Json, loc: Json, p: Path, text: string): Option<Json>
    requires loc.Dict? && p != []
  {
    if Get(en, p) == None then Some(loc)
    else if Get(loc, p) == None || Get(loc, p) == Get(en, p) then
      match SetNested(loc, p, Scalar(text))
      case Done(tree) => Some(tree)
      case Refused => Some(loc)
      case Crashed => None
    else Some(loc)
  }

  datatype Entry = Entry(path: Path, text: string)

  lemma ApplyOneDict(en: Json, loc: Json, p: Path, text: string)
    requires loc.Dict? && p != [] && ApplyOne(en, loc, p, text).Some?
    ensures ApplyOne(en, loc, p, text).value.Dict?
  {
    if SetNested(loc, p, Scalar(text)).Done? {
      SetThenGet(loc, p, Scalar(text), p);
    }
  }

  /** The whole list, in order. */
  function Apply(en: Json, loc: Json, entries: seq<Entry>): (r: Option<Json>)
    requires loc.Dict? && forall e | e in entries :: e.path != []
    ensures r.Some? ==> r.value.Dict?
    decreases |entries|
  {
    if entries == [] then Some(loc)
    else
      var next := ApplyOne(en, loc, entries[0].path, entries[0].text);
      if next.None? then None
      else
        ApplyOneDict(en, loc, entries[0].path, entries[0].text);
        Apply(en, next.value, entries[1..])
  }

  /** A human translation: a scalar that is not what English has at that path. */
  predicate Translated(en: Json, loc: Json, q: Path) {
    q != [] && ScalarAt(loc, q) && Lookup(loc, q) != Lookup(en, q)
  }

  lemma {:induction false} DictAbove(t: Json, p: Path, q: Path)
    requires IsPrefix(p, q) && p != q && Lookup(t, q).Some?
    ensures HasDictAt(t, p) && Lookup(Lookup(t, p).value, q[|p|..]) == Lookup(t, q)
    decreases |p|
  {
    if p == [] {
      assert q[0..] == q;
    } else {
      assert q[0] == p[0];
      PrefixTail(p, q);
      assert p == [p[0]] + p[1..] && q == [q[0]] + q[1..];
      DictAbove(t.entries[p[0]], p[1..], q[1..]);
      assert q[1..][|p| - 1..] == q[|p|..];
    }
  }

  lemma ProperPrefix(q: Path, p: Path)
    ensures IsPrefix(q, p) && q != p ==> |q| < |p|
  {
    if |q| == |p| { assert p[..|q|] == p; }
  }

  lemma ApplyOneKeeps(en: Json, loc: Json, p: Path, text: string, q: Path)
    requires loc.Dict? && p != [] && Translated(en, loc, q)
    requires ApplyOne(en, loc, p, text).Some?
    ensures Lookup(ApplyOne(en, loc, p, text).value, q) == Lookup(loc, q)
  {
    var r := SetNested(loc, p, Scalar(text));
    if ApplyOne(en, loc, p, text).value != loc {
      SetThenGet(loc, p, Scalar(text), q);
      ProperPrefix(q, p);
      if p == q {
        assert false;
      } else if IsPrefix(p, q) {
        DictAbove(loc, p, q);
        assert Lookup(en, p) == Lookup(loc, p);
        SameBelow(en, loc, p, q);
        assert false;
      } else if IsPrefix(q, p) {
        assert 0 < |q| < |p| && ScalarAt(loc, p[..|q|]);
        SetFailsExactly(loc, p, Scalar(text));
        assert false;
      }
    }
  }

  lemma {:induction false} SameBelow(en: Json, loc: Json, p: Path, q: Path)
    requires IsPrefix(p, q) && Lookup(en, p) == Lookup(loc, p) && Lookup(loc, p).Some?
    ensures Lookup(en, q) == Lookup(loc, q)
    decreases |p|
  {
    if p != [] {
      PrefixTail(p, q);
      SameBelow(en.entries[p[0]], loc.entries[p[0]], p[1..], q[1..]);
    }
  }

  /** Applying any list of translations in any order never changes a human translation. */
  lemma {:induction false} ApplyKeepsTranslations(en: Json, loc: Json, entries: seq<Entry>, q: Path)
    requires loc.Dict? && (forall e | e in entries :: e.path != []) && Translated(en, loc, q)
    requires Apply(en, loc, entries).Some?
    ensures Lookup(Apply(en, loc, entries).value, q) == Lookup(loc, q)
    decreases |entries|
  {
    if entries != [] {
      var p, text := entries[0].path, entries[0].text;
      ApplyOneKeeps(en, loc, p, text, q);
      ApplyOneDict(en, loc, p, text);
      ApplyKeepsTranslations(en, ApplyOne(en, loc, p, text).value, entries[1..], q);
    }
  }

  /** What it takes for a translation to be applied: English has a value there, the locale has nothing, a
      null or the English value, and neither a scalar nor a null stands in the way. */
  ghost predicate WillApply(en: Json, loc: Json, p: Path) {
    && Lookup(en, p).Some? && Lookup(en, p) != Some(Null)
    && (Lookup(loc, p) == None || Lookup(loc, p) == Some(Null) || Lookup(loc, p) == Lookup(en, p))
    && forall n | 0 < n < |p| :: !ScalarAt(loc, p[..n]) && !NullAt(loc, p[..n])
  }

  /** One turn, exactly: it sets the translation there and changes nothing unrelated, it raises below a
      null, or it changes nothing at all. */
  lemma ApplyOneExactly(en: Json, loc: Json, p: Path, text: string, q: Path)
    requires loc.Dict? && p != []
    ensures WillApply(en, loc, p) ==>
              && ApplyOne(en, loc, p, text).Some?
              && Lookup(ApplyOne(en, loc, p, text).value, p) == Some(Scalar(text))
              && (!IsPrefix(p, q) && !IsPrefix(q, p) ==> Lookup(ApplyOne(en, loc, p, text).value, q) == Lookup(loc, q))
    ensures ApplyOne(en, loc, p, text) == None
       <==> Lookup(en, p).Some? && Lookup(en, p) != Some(Null) && exists n :: 0 < n < |p| && NullAt(loc, p[..n])
    ensures !WillApply(en, loc, p) && ApplyOne(en, loc, p, text).Some? ==> ApplyOne(en, loc, p, text).value == loc
  {
    hide SetNested, Lookup;
    SetFailsExactly(loc, p, Scalar(text));
    if SetNested(loc, p, Scalar(text)).Done? {
      SetThenGet(loc, p, Scalar(text), q);
    }
    if n :| 0 < n < |p| && NullAt(loc, p[..n]) {
      NothingBelowNull(loc, p, n);
    }
  }

  lemma NothingBelowNull(t: Json, p: Path, n: nat)
    requires 0 < n < |p| && NullAt(t, p[..n])
    ensures Lookup(t, p) == None
  {
    if Lookup(t, p).Some? { DictAbove(t, p[..n], p); }
  }

  /** How many entries of a list are applied, each judged by what the ones before it left. */
  ghost function AppliedCount(en: Json, loc: Json, entries: seq<Entry>): nat
    requires loc.Dict? && forall e | e in entries :: e.path != []
    decreases |entries|
  {
    if entries == [] then 0
    else
      var next := ApplyOne(en, loc, entries[0].path, entries[0].text);
      if next.None? then 0
      else
        ApplyOneDict(en, loc, entries[0].path, entries[0].text);
        (if WillApply(en, loc, entries[0].path) then 1 else 0) + AppliedCount(en, next.value, entries[1..])
  }

  predicate Unrelated(p: Path, q: Path) {
    !IsPrefix(p, q) && !IsPrefix(q, p)
  }

  ghost predicate AllUnrelated(entries: seq<Entry>) {
    forall i, j | 0 <= i < j < |entries| :: Unrelated(entries[i].path, entries[j].path)
  }

  lemma PrefixOfPrefix(p: Path, q: Path, n: nat)
    requires n <= |q| && !IsPrefix(p, q)
    ensures !IsPrefix(p, q[..n])
  {
    assert |p| <= n ==> q[..n][..|p|] == q[..|p|];
  }

  /** Applying one translation does not decide whether an unrelated one is applied. */
  lemma StillWillApply(en: Json, loc: Json, p: Path, text: string, q: Path)
    requires loc.Dict? && p != [] && ApplyOne(en, loc, p, text).Some? && Unrelated(p, q)
    ensures WillApply(en, ApplyOne(en, loc, p, text).value, q) <==> WillApply(en, loc, q)
    ensures Lookup(ApplyOne(en, loc, p, text).value, q) == Lookup(loc, q)
  {
    hide ApplyOne, Lookup, IsPrefix;
    var loc' := ApplyOne(en, loc, p, text).value;
    ApplyOneExactly(en, loc, p, text, q);
    if WillApply(en, loc, p) {
      forall n | 0 < n < |q|
        ensures ScalarAt(loc', q[..n]) <==> ScalarAt(loc, q[..n])
        ensures NullAt(loc', q[..n]) <==> NullAt(loc, q[..n])
      {
        PrefixOfPrefix(p, q, n);
        if IsPrefix(q[..n], p) {
          AboveIsDict(loc, loc', p, q[..n]);
        } else {
          ApplyOneExactly(en, loc, p, text, q[..n]);
        }
      }
    }
  }

  lemma AboveIsDict(loc: Json, loc': Json, p: Path, q: Path)
    requires IsPrefix(q, p) && !IsPrefix(p, q) && q != [] && Lookup(loc', p).Some?
    requires forall n | 0 < n < |p| :: !ScalarAt(loc, p[..n]) && !NullAt(loc, p[..n])
    ensures !ScalarAt(loc, q) && !NullAt(loc, q) && !ScalarAt(loc', q) && !NullAt(loc', q)
  {
    ProperPrefix(q, p);
    DictAbove(loc', q, p);
    assert q == p[..|q|];
  }

  lemma {:induction false} ApplyElsewhere(en: Json, loc: Json, entries: seq<Entry>, q: Path)
    requires loc.Dict? && (forall e | e in entries :: e.path != [] && Unrelated(e.path, q))
    requires Apply(en, loc, entries).Some?
    ensures Lookup(Apply(en, loc, entries).value, q) == Lookup(loc, q)
    decreases |entries|
  {
    hide ApplyOne, Lookup, Unrelated, WillApply;
    if entries != [] {
      var p, text := entries[0].path, entries[0].text;
      ApplyOneDict(en, loc, p, text);
      StillWillApply(en, loc, p, text, q);
      ApplyElsewhere(en, ApplyOne(en, loc, p, text).value, entries[1..], q);
    }
  }

  /** In a list of unrelated paths, whatever its order, every translation that can be applied is found
      in the result, and every other path of the list is as it was. */
  lemma {:induction false} EveryTranslationApplied(en: Json, loc: Json, entries: seq<Entry>, i: nat)
    requires loc.Dict? && (forall e | e in entries :: e.path != []) && AllUnrelated(entries) && i < |entries|
    requires Apply(en, loc, entries).Some?
    ensures Lookup(Apply(en, loc, entries).value, entries[i].path)
         == if WillApply(en, loc, entries[i].path) then Some(Scalar(entries[i].text)) else Lookup(loc, entries[i].path)
    decreases |entries|
  {
    hide ApplyOne, Lookup, Unrelated, WillApply;
    var (p, text, rest) := (entries[0].path, entries[0].text, entries[1..]);
    ApplyOneDict(en, loc, p, text);
    var next := ApplyOne(en, loc, p, text).value;
    assert Apply(en, loc, entries) == Apply(en, next, rest);
    if i == 0 {
      ApplyOneExactly(en, loc, p, text, p);
      forall e | e in rest ensures Unrelated(e.path, p) {
        var j :| 0 <= j < |rest| && rest[j] == e;
        assert Unrelated(entries[0].path, entries[j + 1].path);
        UnrelatedIsMutual(entries[0].path, entries[j + 1].path);
      }
      ApplyElsewhere(en, next, rest, p);
    } else {
      assert Unrelated(p, entries[i].path);
      StillWillApply(en, loc, p, text, entries[i].path);
      EveryTranslationApplied(en, next, rest, i - 1);
    }
  }

  lemma UnrelatedIsMutual(p: Path, q: Path)
    ensures Unrelated(p, q) <==> Unrelated(q, p)
  {
  }

  /** How many entries can be applied to the locale as it is. */
  ghost function ApplicableCount(en: Json, loc: Json, entries: seq<Entry>): nat {
    if entries == [] then 0
    else (if WillApply(en, loc, entries[0].path) then 1 else 0) + ApplicableCount(en, loc, entries[1..])
  }

  lemma {:induction false} SameApplicable(en: Json, loc: Json, p: Path, text: string, entries: seq<Entry>)
    requires loc.Dict? && p != [] && ApplyOne(en, loc, p, text).Some?
    requires forall e | e in entries :: Unrelated(p, e.path)
    ensures ApplicableCount(en, ApplyOne(en, loc, p, text).value, entries) == ApplicableCount(en, loc, entries)
  {
    hide ApplyOne, Unrelated, WillApply;
    if entries != [] {
      StillWillApply(en, loc, p, text, entries[0].path);
      SameApplicable(en, loc, p, text, entries[1..]);
    }
  }

  /** For unrelated paths the counter is the number of translations the locale as it was could take. */
  lemma {:induction false} CountIsApplicable(en: Json, loc: Json, entries: seq<Entry>)
    requires loc.Dict? && (forall e | e in entries :: e.path != []) && AllUnrelated(entries)
    requires Apply(en, loc, entries).Some?
    ensures AppliedCount(en, loc, entries) == ApplicableCount(en, loc, entries)
    decreases |entries|
  {
    hide ApplyOne, Unrelated, WillApply;
    if entries != [] {
      var (p, text, rest) := (entries[0].path, entries[0].text, entries[1..]);
      ApplyOneDict(en, loc, p, text);
      forall e | e in rest ensures Unrelated(p, e.path) {
        var j :| 0 <= j < |rest| && rest[j] == e;
        assert Unrelated(entries[0].path, entries[j + 1].path);
      }
      SameApplicable(en, loc, p, text, rest);
      CountIsApplicable(en, ApplyOne(en, loc, p, text).value, rest);
    }
  }

  /** The tests of the loop, in terms of `WillApply`. */
  lemma TurnApplies(en: Json, loc: Json, p: Path, text: string)
    requires loc.Dict? && p != []
    ensures WillApply(en, loc, p)
       <==> Get(en, p) != None && (Get(loc, p) == None || Get(loc, p) == Get(en, p))
            && SetNested(loc, p, Scalar(text)).Done?
  {
    hide SetNested, Lookup;
    SetFailsExactly(loc, p, Scalar(text));
  }

  /** The apply loop of `main` for one locale, with its counter. */
  method ApplyTranslations(en: Json, locale: Json, entries: seq<Entry>)
    returns (result: Json, applied: nat, raised: bool)
    requires locale.Dict? && forall e | e in entries :: e.path != []
    ensures raised <==> Apply(en, locale, entries).None?
    ensures !raised ==> result == Apply(en, locale, entries).value
    ensures !raised && applied == 0 ==> result == locale
    ensures applied == AppliedCount(en, locale, entries)
    ensures applied <= |entries|
  {
    hide SetNested, Lookup, WillApply;
    result, applied, raised := locale, 0, false;
    assert entries[0..] == entries;
    for i := 0 to |entries|
      invariant result.Dict? && applied <= i && (applied == 0 ==> result == locale)
      invariant Apply(en, result, entries[i..]) == Apply(en, locale, entries)
      invariant applied + AppliedCount(en, result, entries[i..]) == AppliedCount(en, locale, entries)
    {
      var p, text := entries[i].path, entries[i].text;
      assert entries[i] in entries && entries[i..][0] == entries[i] && entries[i..][1..] == entries[i + 1..];
      TurnApplies(en, result, p, text);
      var enValue, current := Get(en, p), Get(result, p);
      if enValue != None && (current == None || current == enValue) {
        match SetNested(result, p, Scalar(text)) {
          case Done(tree) =>
            SetThenGet(result, p, Scalar(text), p);
            result, applied := tree, applied + 1;
          case Refused =>
          case Crashed =>
            raised := true;
            return;
        }
      }
    }
  }

  /** Without a stored null in the locale the loop never raises, whatever the list. */
  lemma {:induction false} NoNullNoCrash(en: Json, loc: Json, entries: seq<Entry>)
    requires loc.Dict? && (forall e | e in entries :: e.path != []) && forall q :: !NullAt(loc, q)
    ensures Apply(en, loc, entries).Some?
    decreases |entries|
  {
    if entries != [] {
      var p, text := entries[0].path, entries[0].text;
      SetFailsExactly(loc, p, Scalar(text));
      if SetNested(loc, p, Scalar(text)).Done? {
        SetAddsNoNull(loc, p, text);
      }
      ApplyOneDict(en, loc, p, text);
      NoNullNoCrash(en, ApplyOne(en, loc, p, text).value, entries[1..]);
    }
  }

  lemma SetAddsNoNull(t: Json, p: Path, text: string)
    requires t.Dict? && p != [] && SetNested(t, p, Scalar(text)).Done? && forall q :: !NullAt(t, q)
    ensures forall q :: !NullAt(SetNested(t, p, Scalar(text)).tree, q)
  {
    var t' := SetNested(t, p, Scalar(text)).tree;
    forall q
      ensures !NullAt(t', q)
    {
      SetThenGet(t, p, Scalar(text), q);
      assert !NullAt(t, q);
      if IsPrefix(q, p) && q != p {
        DictAbove(t', q, p);
      } else if IsPrefix(p, q) && q != p {
        if Lookup(t', q).Some? {
          DictAbove(t', p, q);
        }
      }
    }
  }
}
