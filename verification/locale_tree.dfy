/**
 * Locale files as trees (scripts/_i18n_common.py, scripts/add_i18n_keys.py,
 * scripts/apply_translations.py): merging English keys in, listing what is missing, and setting
 * single translations.  A key path is the list of its segments.
 */
module LocaleTree {
  import opened Wrappers

  datatype Json = Null | Scalar(text: string) | Dict(entries: map<string, Json>)

  type Path = seq<string>

  datatype Policy = Skip | Overwrite | ReplaceScalarWithDict

  /** `get_nested`, keeping a stored null apart from a missing key. */
  function Lookup(t: Json, p: Path): Option<Json>
    decreases |p|
  {
    if p == [] then Some(t)
    else if t.Dict? && p[0] in t.entries then Lookup(t.entries[p[0]], p[1..])
    else None
  }

  /** `p` is one of `flatten_keys(t)`. */
  predicate IsLeaf(t: Json, p: Path) {
    p != [] && Lookup(t, p).Some? && !Lookup(t, p).value.Dict?
  }

  predicate HasDictAt(t: Json, p: Path) {
    Lookup(t, p).Some? && Lookup(t, p).value.Dict?
  }

  // ---------------------------------------------------------------------- merging

  /** Whether an existing value gives way to the English one; two dicts are merged instead. */
  predicate GivesWay(en: Json, loc: Json, policy: Policy) {
    match policy
    case Skip => false
    case Overwrite => !(en.Dict? && loc.Dict?)
    case ReplaceScalarWithDict => en.Dict? && !loc.Dict?
  }

  /** The locale after `merge_en_into_locale`. */
  function Merge(en: Json, loc: Json, policy: Policy): (merged: Json)
    requires en.Dict? && loc.Dict?
    ensures merged.Dict? && merged.entries.Keys == en.entries.Keys + loc.entries.Keys
    decreases en
  {
    Dict(map k | k in en.entries.Keys + loc.entries.Keys ::
           if k !in en.entries then loc.entries[k]
           else if k !in loc.entries then en.entries[k]
           else if en.entries[k].Dict? && loc.entries[k].Dict? then Merge(en.entries[k], loc.entries[k], policy)
           else if GivesWay(en.entries[k], loc.entries[k], policy) then en.entries[k]
           else loc.entries[k])
  }

  /** The paths the merge reports in `added`. */
  predicate IsAdded(en: Json, loc: Json, policy: Policy, p: Path)
    requires en.Dict? && loc.Dict?
    decreases |p|
  {
    && p != [] && p[0] in en.entries
    && if p[0] !in loc.entries then |p| == 1
       else
         var (v, l) := (en.entries[p[0]], loc.entries[p[0]]);
         if v.Dict? && l.Dict? then IsAdded(v, l, policy, p[1..])
         else |p| == 1 && GivesWay(v, l, policy)
  }

  /** One key of the merge. */
  lemma LookupMergeStep(en: Json, loc: Json, policy: Policy, p: Path)
    requires en.Dict? && loc.Dict? && p != []
    ensures var m := Merge(en, loc, policy);
            var k := p[0];
            Lookup(m, p) ==
              if k !in en.entries then Lookup(loc, p)
              else if k !in loc.entries then Lookup(en, p)
              else if en.entries[k].Dict? && loc.entries[k].Dict? then
                Lookup(Merge(en.entries[k], loc.entries[k], policy), p[1..])
              else if GivesWay(en.entries[k], loc.entries[k], policy) then Lookup(en, p)
              else Lookup(loc, p)
  {
  }

  /** One step of a lookup; scalars have nothing below them. */
  lemma LookupStep(t: Json, p: Path)
    requires t.Dict? && p != [] && p[0] in t.entries
    ensures Lookup(t, p) == Lookup(t.entries[p[0]], p[1..])
    ensures p[1..] == [] ==> Lookup(t, p) == Some(t.entries[p[0]])
    ensures p[1..] != [] && !t.entries[p[0]].Dict? ==> Lookup(t, p) == None
  {
  }

  predicate BothDicts(en: Json, loc: Json, p: Path) {
    HasDictAt(en, p) && HasDictAt(loc, p)
  }

  /** How many segments of `p` lead to the first place where the two are not both dicts. */
  function Parting(en: Json, loc: Json, p: Path): (n: nat)
    requires en.Dict? && loc.Dict?
    ensures 0 < n <= |p| + 1
    ensures forall i | 0 <= i < n :: BothDicts(en, loc, p[..i])
    ensures n <= |p| ==> !BothDicts(en, loc, p[..n])
    ensures n > |p| ==> BothDicts(en, loc, p)
    decreases |p|
  {
    if p != [] && p[0] in en.entries && p[0] in loc.entries && en.entries[p[0]].Dict? && loc.entries[p[0]].Dict? then
      var m := Parting(en.entries[p[0]], loc.entries[p[0]], p[1..]);
      assert forall i | 0 < i <= |p| :: p[..i][0] == p[0] && p[..i][1..] == p[1..][..i - 1];
      m + 1
    else
      if p != [] then
        LookupHead(en, p);
        LookupHead(loc, p);
        1
      else 1
  }

  lemma LookupHead(t: Json, p: Path)
    requires t.Dict? && p != []
    ensures Lookup(t, p[..1]) == if p[0] in t.entries then Some(t.entries[p[0]]) else None
  {
    assert p[..1][0] == p[0] && p[..1][1..] == [];
  }

  /** At the place where the two part, English fills a gap or displaces what is there. */
  predicate EnglishWins(en: Json, loc: Json, policy: Policy, p: Path) {
    && Lookup(en, p).Some?
    && (Lookup(loc, p).Some? ==> GivesWay(Lookup(en, p).value, Lookup(loc, p).value, policy))
  }

  /** What stands at any path after merging: the two merged where both are dicts all the way, and
      otherwise the one side that wins at the first place where they part. */
  lemma {:induction false} LookupMerge(en: Json, loc: Json, policy: Policy, p: Path)
    requires en.Dict? && loc.Dict?
    ensures var n := Parting(en, loc, p);
            Lookup(Merge(en, loc, policy), p)
              == if n > |p| then Some(Merge(Lookup(en, p).value, Lookup(loc, p).value, policy))
                 else if EnglishWins(en, loc, policy, p[..n]) then Lookup(en, p)
                 else Lookup(loc, p)
    decreases |p|
  {
    var n := Parting(en, loc, p);
    if p == [] {
      assert p[..0] == p;
    } else {
      LookupMergeStep(en, loc, policy, p);
      var k := p[0];
      if n == 1 {
        assert p[..1][0] == k && p[..1][1..] == [];
        LookupHead(en, p);
        LookupHead(loc, p);
      } else {
        assert k in en.entries && k in loc.entries && en.entries[k].Dict? && loc.entries[k].Dict?;
        LookupMerge(en.entries[k], loc.entries[k], policy, p[1..]);
        if n <= |p| {
          assert p[..n][0] == k && p[..n][1..] == p[1..][..n - 1];
        }
      }
    }
  }

  /** After the `replace_scalar_with_dict` merge an English key is still missing exactly when the
      locale held a dict in its place. */
  lemma {:induction false} MissingAfterReplace(en: Json, loc: Json, p: Path)
    requires en.Dict? && loc.Dict? && IsLeaf(en, p)
    ensures !IsLeaf(Merge(en, loc, ReplaceScalarWithDict), p) <==> HasDictAt(loc, p)
    decreases |p|
  {
    LookupMergeStep(en, loc, ReplaceScalarWithDict, p);
    var k := p[0];
    LookupStep(en, p);
    if k in loc.entries { LookupStep(loc, p); }
    if k in loc.entries && en.entries[k].Dict? && loc.entries[k].Dict? {
      MissingAfterReplace(en.entries[k], loc.entries[k], p[1..]);
    }
  }

  /** Such a key stays missing, however often keys are added. */
  lemma KeyStaysMissing() returns (en: Json, loc: Json, p: Path)
    ensures en.Dict? && loc.Dict? && IsLeaf(en, p)
    ensures Merge(en, loc, ReplaceScalarWithDict) == loc && !IsLeaf(loc, p)
  {
    en, loc, p := Dict(map["ok" := Scalar("OK")]), Dict(map["ok" := Dict(map[])]), ["ok"];
    LookupStep(en, p);
    LookupStep(loc, p);
    assert Merge(en, loc, ReplaceScalarWithDict).entries == loc.entries;
  }

  /** English and locale disagree on dict versus scalar at `p` or above it. */
  ghost predicate ShapesDisagree(en: Json, loc: Json, p: Path) {
    exists n :: 0 <= n <= |p| && DisagreeAt(en, loc, p[..n])
  }

  ghost predicate DisagreeAt(en: Json, loc: Json, p: Path) {
    Lookup(en, p).Some? && Lookup(loc, p).Some? && (HasDictAt(en, p) != HasDictAt(loc, p))
  }

  lemma DisagreeBelow(en: Json, loc: Json, p: Path)
    requires en.Dict? && loc.Dict? && p != [] && p[0] in en.entries && p[0] in loc.entries
    ensures ShapesDisagree(en, loc, p) <==> ShapesDisagree(en.entries[p[0]], loc.entries[p[0]], p[1..])
  {
    var v, l, q := en.entries[p[0]], loc.entries[p[0]], p[1..];
    if n :| 0 <= n <= |p| && DisagreeAt(en, loc, p[..n]) {
      assert n > 0 && p[..n][1..] == q[..n - 1];
      assert DisagreeAt(v, l, q[..n - 1]);
    }
    if n :| 0 <= n <= |q| && DisagreeAt(v, l, q[..n]) {
      assert p[..n + 1][1..] == q[..n] && p[..n + 1][0] == p[0];
      assert DisagreeAt(en, loc, p[..n + 1]);
    }
  }

  /** Under `skip` an English key stays missing exactly when the shapes disagree on the way to it. */
  lemma {:induction false} MissingAfterSkip(en: Json, loc: Json, p: Path)
    requires en.Dict? && loc.Dict? && IsLeaf(en, p)
    ensures !IsLeaf(Merge(en, loc, Skip), p) <==> ShapesDisagree(en, loc, p)
    decreases |p|
  {
    LookupMergeStep(en, loc, Skip, p);
    var k := p[0];
    if k !in loc.entries {
      forall n | 0 <= n <= |p| ensures !DisagreeAt(en, loc, p[..n]) {
        if n > 0 { assert p[..n][0] == k; }
      }
    } else {
      DisagreeBelow(en, loc, p);
      LookupStep(en, p);
      LookupStep(loc, p);
      var v, l, q := en.entries[k], loc.entries[k], p[1..];
      if v.Dict? && l.Dict? {
        MissingAfterSkip(v, l, q);
      } else if v.Dict? || l.Dict? {
        assert q[..0] == [] && DisagreeAt(v, l, q[..0]);
        assert 0 <= |q| && ShapesDisagree(v, l, q);
      } else {
        assert q == [];
        forall n | 0 <= n <= |q| ensures !DisagreeAt(v, l, q[..n]) { assert q[..n] == []; }
      }
    }
  }

  /** Under `overwrite` nothing English is missing afterwards. */
  lemma {:induction false} NothingMissingAfterOverwrite(en: Json, loc: Json, p: Path)
    requires en.Dict? && loc.Dict? && IsLeaf(en, p)
    ensures Lookup(Merge(en, loc, Overwrite), p) == Lookup(en, p)
    decreases |p|
  {
    LookupMergeStep(en, loc, Overwrite, p);
    var k := p[0];
    if k in loc.entries && en.entries[k].Dict? && loc.entries[k].Dict? {
      NothingMissingAfterOverwrite(en.entries[k], loc.entries[k], p[1..]);
    }
  }

  /** A translation already in the locale survives the merge: always under `skip`, and under
      `replace_scalar_with_dict` exactly when English has no dict in its place. */
  lemma {:induction false} TranslationsSurvive(en: Json, loc: Json, p: Path)
    requires en.Dict? && loc.Dict? && IsLeaf(loc, p)
    ensures Lookup(Merge(en, loc, Skip), p) == Lookup(loc, p)
    ensures Lookup(Merge(en, loc, ReplaceScalarWithDict), p) == Lookup(loc, p) <==> !HasDictAt(en, p)
    decreases |p|
  {
    LookupMergeStep(en, loc, Skip, p);
    LookupMergeStep(en, loc, ReplaceScalarWithDict, p);
    var k := p[0];
    LookupStep(loc, p);
    if k in en.entries { LookupStep(en, p); }
    if k in en.entries && en.entries[k].Dict? && loc.entries[k].Dict? {
      TranslationsSurvive(en.entries[k], loc.entries[k], p[1..]);
    }
  }

  /** A value without what is below it. */
  function Shape(v: Option<Json>): Option<Json> {
    if v.Some? && v.value.Dict? then Some(Dict(map[])) else v
  }

  /** The merge changed what stands at `p`, and nothing above `p`. */
  ghost predicate MinimalChange(before: Json, after: Json, p: Path) {
    && Shape(Lookup(before, p)) != Shape(Lookup(after, p))
    && forall n | 0 <= n < |p| :: Shape(Lookup(before, p[..n])) == Shape(Lookup(after, p[..n]))
  }

  lemma MinimalChangeBelow(before: Json, after: Json, p: Path)
    requires before.Dict? && after.Dict? && p != [] && p[0] in before.entries && p[0] in after.entries
    ensures MinimalChange(before, after, p) <==> MinimalChange(before.entries[p[0]], after.entries[p[0]], p[1..])
  {
    var b, a, q := before.entries[p[0]], after.entries[p[0]], p[1..];
    forall n | 0 < n <= |p|
      ensures Lookup(before, p[..n]) == Lookup(b, q[..n - 1]) && Lookup(after, p[..n]) == Lookup(a, q[..n - 1])
    {
      assert p[..n][1..] == q[..n - 1];
    }
    assert p[..|p|] == p && q[..|q|] == q;
    if MinimalChange(before, after, p) {
      forall n | 0 <= n < |q| ensures Shape(Lookup(b, q[..n])) == Shape(Lookup(a, q[..n])) {
        assert Shape(Lookup(before, p[..n + 1])) == Shape(Lookup(after, p[..n + 1]));
      }
    }
    if MinimalChange(b, a, q) {
      forall n | 0 <= n < |p| ensures Shape(Lookup(before, p[..n])) == Shape(Lookup(after, p[..n])) {
        if n > 0 { assert Shape(Lookup(b, q[..n - 1])) == Shape(Lookup(a, q[..n - 1])); }
      }
    }
  }

  /** An English leaf the locale already holds, value and all. */
  predicate IsCopied(en: Json, loc: Json, p: Path) {
    IsLeaf(en, p) && Lookup(loc, p) == Lookup(en, p)
  }

  /** `added` holds exactly the topmost paths at which the merge changed something, and under
      `overwrite` also the leaves it wrote over with the value they had. */
  lemma {:induction false} AddedIsMinimalChange(en: Json, loc: Json, policy: Policy, p: Path)
    requires en.Dict? && loc.Dict?
    ensures IsAdded(en, loc, policy, p)
       <==> MinimalChange(loc, Merge(en, loc, policy), p) || (policy == Overwrite && IsCopied(en, loc, p))
    decreases |p|
  {
    var m := Merge(en, loc, policy);
    if p != [] {
      LookupMergeStep(en, loc, policy, p);
      var k := p[0];
      if k in en.entries { LookupStep(en, p); }
      if k in loc.entries {
        LookupStep(loc, p);
        MinimalChangeBelow(loc, m, p);
        var l, q := loc.entries[k], p[1..];
        if k in en.entries && en.entries[k].Dict? && l.Dict? {
          AddedIsMinimalChange(en.entries[k], l, policy, q);
          LeafBelow(en.entries[k], q);
        } else if k in en.entries && GivesWay(en.entries[k], l, policy) {
          if |q| > 0 { assert q[..0] == []; }
        }
      } else {
        NothingBelow(loc, m, p);
        if k in en.entries { LookupStep(m, p); }
      }
    }
  }

  /** So the report is the exact list of changes for all locales under the other two policies, and
      under `overwrite` exactly for locales that hold no English leaf unchanged. */
  lemma ReportIsExact(en: Json, loc: Json, policy: Policy)
    requires en.Dict? && loc.Dict?
    ensures (forall p :: IsAdded(en, loc, policy, p) <==> MinimalChange(loc, Merge(en, loc, policy), p))
       <==> policy == Overwrite ==> forall p :: !IsCopied(en, loc, p)
  {
    forall p
      ensures (IsAdded(en, loc, policy, p) <==> MinimalChange(loc, Merge(en, loc, policy), p))
         <==> policy == Overwrite ==> !IsCopied(en, loc, p)
    {
      AddedIsMinimalChange(en, loc, policy, p);
      if policy == Overwrite && IsCopied(en, loc, p) { CopiedIsNoChange(en, loc, p); }
    }
    if p :| IsCopied(en, loc, p) {
      AddedIsMinimalChange(en, loc, policy, p);
      if policy == Overwrite {
        CopiedIsNoChange(en, loc, p);
        assert IsAdded(en, loc, policy, p);
      }
    }
  }

  /** Writing over a leaf with its own value changes nothing there. */
  lemma {:induction false} CopiedIsNoChange(en: Json, loc: Json, p: Path)
    requires en.Dict? && loc.Dict? && IsCopied(en, loc, p)
    ensures !MinimalChange(loc, Merge(en, loc, Overwrite), p)
  {
    NothingMissingAfterOverwrite(en, loc, p);
  }

  /** A locale that already holds an English value gets it reported under `overwrite`. */
  lemma UnchangedIsReported() returns (en: Json, loc: Json, p: Path)
    ensures en.Dict? && loc.Dict? && IsAdded(en, loc, Overwrite, p)
    ensures Merge(en, loc, Overwrite) == loc
  {
    en, p := Dict(map["ok" := Scalar("OK")]), ["ok"];
    loc := en;
    MergeSelf(en, Overwrite);
  }

  /** Below a key the locale never had, only the key itself can be a minimal change. */
  lemma NothingBelow(before: Json, after: Json, p: Path)
    requires before.Dict? && after.Dict? && p != [] && p[0] !in before.entries
    ensures MinimalChange(before, after, p) <==> |p| == 1 && p[0] in after.entries
  {
    assert p[..1] == [p[0]] && p[..1][1..] == [] && p[..0] == [];
    assert Lookup(before, p) == None == Lookup(before, p[..1]);
    if p[0] in after.entries {
      LookupStep(after, p[..1]);
      if |p| == 1 { assert p == p[..1]; }
    }
  }

  /** Merging again changes nothing more, under any policy. */
  lemma {:induction false} MergeIdempotent(en: Json, loc: Json, policy: Policy)
    requires en.Dict? && loc.Dict?
    ensures Merge(en, Merge(en, loc, policy), policy) == Merge(en, loc, policy)
    decreases en
  {
    var m := Merge(en, loc, policy);
    var mm := Merge(en, m, policy);
    forall k | k in m.entries
      ensures mm.entries[k] == m.entries[k]
    {
      if k in en.entries && en.entries[k].Dict? {
        if k in loc.entries && loc.entries[k].Dict? {
          MergeIdempotent(en.entries[k], loc.entries[k], policy);
        } else if m.entries[k].Dict? {
          MergeSelf(en.entries[k], policy);
        }
      }
    }
  }

  lemma {:induction false} MergeSelf(t: Json, policy: Policy)
    requires t.Dict?
    ensures Merge(t, t, policy) == t
    decreases t
  {
    forall k | k in t.entries && t.entries[k].Dict?
      ensures Merge(t.entries[k], t.entries[k], policy) == t.entries[k]
    {
      MergeSelf(t.entries[k], policy);
    }
    assert Merge(t, t, policy).entries == t.entries;
  }

  /** A second merge reports nothing, except under `overwrite`, where it reports exactly the
      English leaves again. */
  lemma {:induction false} SecondMergeAdds(en: Json, loc: Json, policy: Policy, p: Path)
    requires en.Dict? && loc.Dict?
    ensures IsAdded(en, Merge(en, loc, policy), policy, p) <==> policy == Overwrite && IsLeaf(en, p)
    decreases |p|
  {
    var m := Merge(en, loc, policy);
    if p != [] && p[0] in en.entries {
      var k := p[0];
      var v, q := en.entries[k], p[1..];
      LookupStep(en, p);
      if v.Dict? && m.entries[k].Dict? {
        if k in loc.entries && loc.entries[k].Dict? {
          SecondMergeAdds(v, loc.entries[k], policy, q);
        } else {
          assert m.entries[k] == v;
          MergeSelf(v, policy);
          SecondMergeAdds(v, v, policy, q);
        }
        LeafBelow(v, q);
      }
    }
  }

  lemma LeafBelow(t: Json, q: Path)
    requires t.Dict?
    ensures IsLeaf(t, q) <==> Lookup(t, q).Some? && !Lookup(t, q).value.Dict?
  {
  }
}
