/**
 * The merge of scripts/_i18n_common.py on dict objects that are updated in place: the locale's own
 * sub-dicts are merged into, and English sub-dicts the locale lacks are stored by reference.
 */
module LocaleDicts {
  import opened Wrappers
  import opened LocaleTree
  import T = Translations

  datatype Value = NullValue | Text(text: string) | Sub(dict: DictObject)

  class DictObject {
    var items: map<string, Value>
    ghost var repr: set<DictObject>

    /** A tree of dicts: no object is reached twice. */
    ghost predicate Valid()
      reads this, repr
      decreases repr
    {
      && this in repr
      && (forall k | k in items && items[k].Sub? ::
            && items[k].dict in repr && items[k].dict.repr <= repr && this !in items[k].dict.repr
            && items[k].dict.Valid())
      && (forall j, k | j in items && k in items && j != k && items[j].Sub? && items[k].Sub? ::
            items[j].dict.repr !! items[k].dict.repr)
    }

    /** The JSON value this object stands for. */
    ghost function View(): Json
      requires Valid()
      reads this, repr
      decreases repr
    {
      Dict(map k | k in items ::
             match items[k]
             case NullValue => Json.Null
             case Text(text) => Scalar(text)
             case Sub(d) => d.View())
    }

    constructor ()
      ensures Valid() && fresh(repr) && View() == Dict(map[])
    {
      items, repr := map[], {this};
    }

    /** `self[k] = v`, storing `v` by reference. */
    method Store(k: string, v: Value)
      requires Valid() && (v.Sub? ==> v.dict.Valid() && this !in v.dict.repr)
      requires v.Sub? ==> forall j | j in items && j != k && items[j].Sub? :: items[j].dict.repr !! v.dict.repr
      modifies this
      ensures Valid() && items == old(items)[k := v]
      ensures repr == old(repr) + (if v.Sub? then v.dict.repr else {})
      ensures View() == Dict(old(View()).entries[k := ValueView(v)])
    {
      ghost var before := View();
      items := items[k := v];
      if v.Sub? {
        repr := repr + v.dict.repr;
      }
      assert Valid();
      ghost var after := before.entries[k := ValueView(v)];
      forall j | j in items
        ensures View().entries[j] == after[j]
      {
      }
      assert View().entries == after;
    }
  }

  ghost function ValueView(v: Value): Json
    requires v.Sub? ==> v.dict.Valid()
    reads if v.Sub? then {v.dict} + v.dict.repr else {}
  {
    match v
    case NullValue => Json.Null
    case Text(text) => Scalar(text)
    case Sub(d) => d.View()
  }

  /** The locale once the English keys in `done` are handled. */
  function MergeSome(en: Json, loc: Json, policy: Policy, done: set<string>): (r: Json)
    requires en.Dict? && loc.Dict? && done <= en.entries.Keys
    ensures r.Dict?
  {
    Dict(map k | k in done + loc.entries.Keys ::
           if k in done then Merge(en, loc, policy).entries[k] else loc.entries[k])
  }

  lemma MergeSomeStep(en: Json, loc: Json, policy: Policy, done: set<string>, k: string)
    requires en.Dict? && loc.Dict? && done <= en.entries.Keys && k in en.entries && k !in done
    ensures var so := MergeSome(en, loc, policy, done).entries;
            var held := if k in so then so[k] else Json.Null;
            && (k in so <==> k in loc.entries)
            && held == (if k in loc.entries then loc.entries[k] else Json.Null)
            && MergeSome(en, loc, policy, done + {k})
               == Dict(so[k := MergedValue(en.entries[k], k in loc.entries, held, policy)])
  {
    var so := MergeSome(en, loc, policy, done).entries;
    assert MergeSome(en, loc, policy, done + {k}).entries
        == so[k := MergedValue(en.entries[k], k in so, if k in so then so[k] else Json.Null, policy)];
  }

  lemma MergeSomeEnds(en: Json, loc: Json, policy: Policy)
    requires en.Dict? && loc.Dict?
    ensures MergeSome(en, loc, policy, {}) == loc
    ensures MergeSome(en, loc, policy, en.entries.Keys) == Merge(en, loc, policy)
  {
    assert MergeSome(en, loc, policy, {}).entries == loc.entries;
    assert MergeSome(en, loc, policy, en.entries.Keys).entries == Merge(en, loc, policy).entries;
  }

  /** `p` is reported by a merge running below `prefix`, restricted to the keys in `done`. */
  ghost predicate Reported(en: Json, loc: Json, policy: Policy, prefix: Path, done: set<string>, p: Path)
    requires en.Dict? && loc.Dict?
  {
    |prefix| < |p| && p[..|prefix|] == prefix && p[|prefix|] in done && IsAdded(en, loc, policy, p[|prefix|..])
  }

  /** What handling key `k` adds to the report. */
  lemma ReportedStep(en: Json, loc: Json, policy: Policy, prefix: Path, done: set<string>, k: string, p: Path)
    requires en.Dict? && loc.Dict? && k in en.entries
    ensures Reported(en, loc, policy, prefix, done + {k}, p)
       <==> Reported(en, loc, policy, prefix, done, p)
            || ReportedAt(en.entries[k], k in loc.entries,
                        if k in loc.entries then loc.entries[k] else Json.Null, policy,
                          prefix + [k], p)
  {
    var n, below := |prefix|, prefix + [k];
    assert |below| == n + 1;
    if |p| > n && p[..n + 1] == below {
      var q := p[n..];
      assert p[..n] == p[..n + 1][..n] == prefix && p[n] == p[..n + 1][n] == k;
      assert q[0] == k && q[1..] == p[n + 1..];
      if |p| == n + 1 {
        assert p == below && q[1..] == [];
        if k in loc.entries && en.entries[k].Dict? && loc.entries[k].Dict? {
          assert !IsAdded(en.entries[k], loc.entries[k], policy, q[1..]);
        }
      } else {
        assert p != below && p[n + 1] == q[1..][0] && p[|below|..] == q[1..];
        assert |q| > 1;
        if k in loc.entries && en.entries[k].Dict? && loc.entries[k].Dict? {
          assert IsAdded(en, loc, policy, q) == IsAdded(en.entries[k], loc.entries[k], policy, q[1..]);
        }
      }
    } else if |p| > n && p[..n] == prefix {
      assert p[..n + 1] == prefix + [p[n]];
      assert p[n] != k && p != below;
    }
  }

  /** What a key holds after the merge, given what the locale held there. */
  function MergedValue(v: Json, present: bool, l: Json, policy: Policy): Json {
    if !present then v
    else if v.Dict? && l.Dict? then Merge(v, l, policy)
    else if GivesWay(v, l, policy) then v
    else l
  }

  ghost predicate ReportedAt(v: Json, present: bool, l: Json, policy: Policy, below: Path, p: Path) {
    if !present then p == below
    else if v.Dict? && l.Dict? then Reported(v, l, policy, below, v.entries.Keys, p)
    else GivesWay(v, l, policy) && p == below
  }

  /** The dict stored at `k`, if any, is the only one a step may touch besides `loc` itself. */
  ghost function Below(loc: DictObject, k: string): set<DictObject>
    reads loc, if k in loc.items && loc.items[k].Sub? then {loc.items[k].dict} else {}
  {
    if k in loc.items && loc.items[k].Sub? then loc.items[k].dict.repr else {}
  }

  ghost function OldValue(loc: DictObject, k: string): Json
    requires loc.Valid()
    reads loc, loc.repr
  {
    if k in loc.View().entries then loc.View().entries[k] else Json.Null
  }

  lemma OldValueIs(d: DictObject, k: string)
    requires d.Valid()
    ensures k in d.View().entries <==> k in d.items
    ensures OldValue(d, k) == if k in d.View().entries then d.View().entries[k] else Json.Null
  {
  }

  lemma EntryView(d: DictObject, k: string)
    requires d.Valid() && k in d.items
    ensures d.View().entries[k] == ValueView(d.items[k])
  {
  }

  /** Merging into the sub-dict stored at `k` and taking over what it grew by. */
  method MergeBelow(en: DictObject, loc: DictObject, k: string, below: Path, policy: Policy, added: set<Path>)
    returns (added': set<Path>)
    requires en.Valid() && loc.Valid() && en.repr !! loc.repr
    requires k in loc.items && loc.items[k].Sub?
    modifies loc.items[k].dict.repr, loc`repr
    ensures loc.Valid() && loc.items == old(loc.items) && loc.repr <= old(loc.repr) + en.repr
    ensures en.Valid() && en.repr == old(en.repr) && en.View() == old(en.View())
    ensures loc.View() == Dict(old(loc.View()).entries[k := Merge(en.View(), old(loc.items[k].dict.View()), policy)])
    ensures forall j | j != k :: Below(loc, j) == old(Below(loc, j))
    ensures forall p :: p in added'
              <==> p in added
                   || Reported(en.View(), old(loc.items[k].dict.View()), policy, below, en.View().entries.Keys, p)
    decreases en.repr, 3
  {
    hide Merge, Reported;
    ghost var before := loc.View();
    var child := loc.items[k].dict;
    added' := MergeInto(en, child, below, policy, added);
    loc.repr := loc.repr + child.repr;
    assert loc.View().entries == before.entries[k := child.View()];
  }

  /** One turn of the loop in `_recurse`. */
  method MergeKey(v: Value, loc: DictObject, k: string, below: Path, policy: Policy, added: set<Path>,
                  ghost outer: set<DictObject>)
    returns (added': set<Path>)
    requires loc.Valid() && (v.Sub? ==> v.dict.Valid() && v.dict.repr !! loc.repr && v.dict.repr < outer)
    modifies loc, Below(loc, k)
    ensures loc.Valid() && loc.repr <= old(loc.repr) + (if v.Sub? then v.dict.repr else {})
    ensures v.Sub? ==> v.dict.Valid() && v.dict.repr == old(v.dict.repr) && ValueView(v) == old(ValueView(v))
    ensures loc.View() == Dict(old(loc.View()).entries[k :=
                            MergedValue(old(ValueView(v)), old(k in loc.items), old(OldValue(loc, k)), policy)])
    ensures forall j | j != k :: (j in loc.items <==> j in old(loc.items))
    ensures forall j | j != k && j in loc.items ::
              loc.items[j] == old(loc.items)[j] && Below(loc, j) == old(Below(loc, j))
    ensures forall p :: p in added'
              <==> p in added
                   || ReportedAt(old(ValueView(v)), old(k in loc.items), old(OldValue(loc, k)), policy, below, p)
    decreases outer, 0
  {
    hide Merge, Reported;
    added' := added;
    ghost var before := loc.View();
    assert k in loc.items ==> before.entries[k] == ValueView(loc.items[k]);
    if k !in loc.items {
      loc.Store(k, v);
      added' := added' + {below};
    } else if v.Sub? && loc.items[k].Sub? {
      added' := MergeBelow(v.dict, loc, k, below, policy, added');
    } else if policy == Overwrite || (policy == ReplaceScalarWithDict && v.Sub?) {
      loc.Store(k, v);
      added' := added' + {below};
    } else {
      assert before.entries[k := before.entries[k]] == before.entries;
    }
  }

  /** The keys in `todo` are still as they were: English and locale share nothing there, and what the
      locale holds there lies within `start`, its objects from before the merge. */
  ghost predicate Ready(en: DictObject, loc: DictObject, todo: set<string>, start: set<DictObject>)
    reads en, en.repr, loc, loc.repr
  {
    && en.Valid() && loc.Valid() && loc in start && todo <= en.items.Keys
    && (forall k | k in todo && en.items[k].Sub? :: en.items[k].dict.repr !! loc.repr)
    && (forall k | k in todo :: Below(loc, k) <= start)
  }

  /** One turn of the loop, on both trees. */
  method MergeTurn(en: DictObject, loc: DictObject, k: string, below: Path, policy: Policy, added: set<Path>,
                   ghost todo: set<string>, ghost start: set<DictObject>)
    returns (added': set<Path>)
    requires Ready(en, loc, todo, start) && k in todo && start !! en.repr
    modifies loc, Below(loc, k)
    ensures Ready(en, loc, todo - {k}, start)
    ensures en.items == old(en.items) && en.repr == old(en.repr) && en.View() == old(en.View())
    ensures loc.repr <= old(loc.repr) + en.repr
    ensures loc.View() == Dict(old(loc.View()).entries[k :=
                            MergedValue(old(ValueView(en.items[k])), old(k in loc.items), old(OldValue(loc, k)),
                                        policy)])
    ensures forall p :: p in added'
              <==> p in added
                   || ReportedAt(old(ValueView(en.items[k])), old(k in loc.items), old(OldValue(loc, k)), policy,
                                 below, p)
    decreases en.repr, 1
  {
    hide Merge, Reported, MergedValue, ReportedAt, ValueView, OldValue, DictObject.View;
    added' := MergeKey(en.items[k], loc, k, below, policy, added, en.repr);
  }

  /** `_recurse`: English keys are handled in any order; the English tree stays as it is, although
      the locale may share sub-dicts with it afterwards. */
  method MergeInto(en: DictObject, loc: DictObject, prefix: Path, policy: Policy, added: set<Path>)
    returns (added': set<Path>)
    requires en.Valid() && loc.Valid() && en.repr !! loc.repr
    modifies loc.repr
    ensures loc.Valid() && loc.repr <= old(loc.repr) + en.repr
    ensures loc.View() == Merge(en.View(), old(loc.View()), policy)
    ensures en.Valid() && en.repr == old(en.repr) && en.View() == old(en.View())
    ensures forall p :: p in added'
              <==> p in added || Reported(en.View(), old(loc.View()), policy, prefix, en.View().entries.Keys, p)
    decreases en.repr, 2
  {
    hide Merge, MergeSome, IsAdded, Reported, MergedValue, ReportedAt, ValueView, OldValue;
    added' := added;
    ghost var enView, locView, start := en.View(), loc.View(), loc.repr;
    var todo := en.items.Keys;
    ghost var done: set<string> := {};
    StartsReady(en, loc);
    hide Ready, DictObject.View, DictObject.Valid;
    MergeSomeEnds(enView, locView, policy);
    NothingReported(enView, locView, policy, prefix);
    while todo != {}
      invariant todo !! done && todo + done == en.items.Keys
      invariant Ready(en, loc, todo, start)
      invariant en.items == old(en.items) && en.repr == old(en.repr) && en.View() == enView
      invariant loc.repr <= old(loc.repr) + en.repr
      invariant loc.View() == MergeSome(enView, locView, policy, done)
      invariant forall p :: p in added' <==> p in added || Reported(enView, locView, policy, prefix, done, p)
      decreases todo
    {
      var k :| k in todo;
      ReadyAt(en, loc, todo, start, k);
      MergeSomeStep(enView, locView, policy, done, k);
      ReportedSteps(enView, locView, policy, prefix, done, k);
      added' := MergeTurn(en, loc, k, prefix + [k], policy, added', todo, start);
      todo, done := todo - {k}, done + {k};
    }
    assert done == enView.entries.Keys;
  }

  lemma StartsReady(en: DictObject, loc: DictObject)
    requires en.Valid() && loc.Valid() && en.repr !! loc.repr
    ensures Ready(en, loc, en.items.Keys, loc.repr)
    ensures en.View().Dict? && en.View().entries.Keys == en.items.Keys && loc.View().Dict?
  {
  }

  /** What a turn may rely on at a ready key. */
  lemma ReadyAt(en: DictObject, loc: DictObject, todo: set<string>, start: set<DictObject>, k: string)
    requires Ready(en, loc, todo, start) && k in todo
    ensures en.Valid() && loc.Valid() && loc in start && Below(loc, k) <= start
    ensures k in en.items && k in en.View().entries && en.View().entries[k] == ValueView(en.items[k])
    ensures loc.View().Dict? && (k in loc.items <==> k in loc.View().entries)
    ensures OldValue(loc, k) == if k in loc.View().entries then loc.View().entries[k] else Json.Null
  {
    EntryView(en, k);
    OldValueIs(loc, k);
  }

  lemma ReportedSteps(en: Json, loc: Json, policy: Policy, prefix: Path, done: set<string>, k: string)
    requires en.Dict? && loc.Dict? && k in en.entries
    ensures var held := if k in loc.entries then loc.entries[k] else Json.Null;
            forall p :: Reported(en, loc, policy, prefix, done + {k}, p)
                   <==> Reported(en, loc, policy, prefix, done, p)
                        || ReportedAt(en.entries[k], k in loc.entries, held, policy, prefix + [k], p)
  {
    hide Reported, ReportedAt;
    forall p { ReportedStep(en, loc, policy, prefix, done, k, p); }
  }

  lemma NothingReported(en: Json, loc: Json, policy: Policy, prefix: Path)
    requires en.Dict? && loc.Dict?
    ensures forall p :: !Reported(en, loc, policy, prefix, {}, p)
  {
  }

  /** `merge_en_into_locale`: the locale becomes the merged tree, the report is exact, and English
      is left as it was. */
  method MergeEnIntoLocale(en: DictObject, locale: DictObject, policy: Policy) returns (added: set<Path>)
    requires en.Valid() && locale.Valid() && en.repr !! locale.repr
    modifies locale.repr
    ensures locale.Valid() && locale.View() == Merge(en.View(), old(locale.View()), policy)
    ensures en.Valid() && en.View() == old(en.View())
    ensures forall p :: p in added <==> IsAdded(en.View(), old(locale.View()), policy, p)
  {
    hide Merge;
    ghost var enView, locView := en.View(), locale.View();
    added := MergeInto(en, locale, [], policy, {});
    forall p
      ensures Reported(enView, locView, policy, [], enView.entries.Keys, p) <==> IsAdded(enView, locView, policy, p)
    {
      assert p[0..] == p;
      assert p != [] ==> p[..0] == [];
    }
  }

  // ------------------------------------------------- reading and setting one value

  /** `get_nested`: the walk returns None for a missing key and for a stored null alike. */
  method GetNested(data: DictObject, p: Path) returns (v: Value)
    requires data.Valid()
    ensures v.Sub? ==> v.dict.Valid()
    ensures T.Get(data.View(), p) == if v.NullValue? then None else Some(ValueView(v))
  {
    v := Sub(data);
    assert p[0..] == p;
    for i := 0 to |p|
      invariant v.Sub? ==> v.dict.Valid()
      invariant Lookup(data.View(), p) == Lookup(ValueView(v), p[i..])
    {
      ghost var rest := p[i..];
      assert rest[0] == p[i] && rest[1..] == p[i + 1..];
      if !v.Sub? || p[i] !in v.dict.items {
        return NullValue;
      }
      EntryView(v.dict, p[i]);
      v := v.dict.items[p[i]];
    }
  }

  datatype SetResult = WasSet | WasRefused | Raised

  lemma SetInEmpty(p: Path, value: Json)
    requires p != []
    ensures T.SetNested(Dict(map[]), p, value) == T.Done(T.Fresh(p, value))
  {
    assert map[][p[0] := T.Fresh(p[1..], value)] == map[p[0] := T.Fresh(p[1..], value)];
  }

  /** One level of `set_nested` below the dict stored at `k`. */
  method SetBelow(data: DictObject, k: string, p: Path, text: string) returns (r: SetResult)
    requires data.Valid() && p != [] && k in data.items && data.items[k].Sub?
    modifies data.items[k].dict.repr, data`repr
    ensures data.Valid() && data.items == old(data.items) && fresh(data.repr - old(data.repr))
    ensures r == Outcome(T.SetNested(old(data.items[k].dict.View()), p, Scalar(text)))
    ensures r == WasSet ==>
              data.View() == Dict(old(data.View()).entries[k :=
                                    T.SetNested(old(data.items[k].dict.View()), p, Scalar(text)).tree])
    ensures r != WasSet ==> data.View() == old(data.View())
    decreases |p|, 1
  {
    hide T.SetNested;
    ghost var before := data.View();
    var child := data.items[k].dict;
    ghost var childView := child.View();
    r := SetNestedIn(child, p, text);
    data.repr := data.repr + child.repr;
    assert data.View().entries == before.entries[k := child.View()];
    assert before.entries[k := childView] == before.entries;
  }

  /** The dict that `setdefault` creates at a missing key, and the rest of the path in it. */
  method SetInNew(data: DictObject, k: string, p: Path, text: string)
    requires data.Valid() && p != [] && k !in data.items
    modifies data
    ensures data.Valid() && fresh(data.repr - old(data.repr))
    ensures data.View() == Dict(old(data.View()).entries[k := T.Fresh(p, Scalar(text))])
    decreases |p|, 2
  {
    hide T.SetNested, T.Fresh;
    ghost var before := data.View();
    var d := new DictObject();
    data.Store(k, Sub(d));
    SetInEmpty(p, Scalar(text));
    var r := SetBelow(data, k, p, text);
    assert data.View().entries == before.entries[k := T.Fresh(p, Scalar(text))];
  }

  ghost function Outcome(o: T.Outcome): SetResult {
    match o
    case Done(_) => WasSet
    case Refused => WasRefused
    case Crashed => Raised
  }

  /** `set_nested` in place: a refusal, like the failure below a null, leaves the whole tree as it was. */
  method SetNestedIn(data: DictObject, p: Path, text: string) returns (r: SetResult)
    requires data.Valid() && p != []
    modifies data.repr
    ensures data.Valid() && fresh(data.repr - old(data.repr))
    ensures r == Outcome(T.SetNested(old(data.View()), p, Scalar(text)))
    ensures r == WasSet ==> data.View() == T.SetNested(old(data.View()), p, Scalar(text)).tree
    ensures r != WasSet ==> data.View() == old(data.View())
    decreases |p|, 0
  {
    var k := p[0];
    ghost var before := data.View();
    if |p| == 1 {
      data.Store(k, Text(text));
      return WasSet;
    }
    if k !in data.items {
      SetInNew(data, k, p[1..], text);
      return WasSet;
    }
    EntryView(data, k);
    match data.items[k] {
      case NullValue => r := Raised;
      case Text(_) => r := WasRefused;
      case Sub(_) => r := SetBelow(data, k, p[1..], text);
    }
  }
}
