/**
 * The ratchet gates (scripts/_ratchet_common.py and its adapters): a stored baseline, a compare that
 * must not let counts grow, and a regenerate that rewrites the baseline behind guards.
 */
module Ratchets {
  import opened Rounding
  import opened Wrappers

  // ------------------------------------------------------------------ stored JSON

  datatype Json = Int(n: int) | Table(entries: map<string, Json>) | OtherJson(text: string)

  /** What the baseline path holds. */
  datatype Stored = Absent | Unparseable | NonObject | Object(fields: map<string, Json>)

  datatype Counts = Counts(total: nat, byKey: map<string, nat>)

  const TOTAL: string := "total_count"

  /** The total a stored baseline holds, when it is an integer. */
  function TotalOf(s: Stored): Option<int> {
    if s.Object? && TOTAL in s.fields && s.fields[TOTAL].Int? then Some(s.fields[TOTAL].n) else None
  }

  /** `load_counts_baseline` gets past all its exits. */
  predicate Loads(s: Stored, detail: string) {
    && s.Object? && TOTAL in s.fields && detail in s.fields
    && s.fields[TOTAL].Int? && s.fields[TOTAL].n >= 0
    && s.fields[detail].Table?
    && forall key | key in s.fields[detail].entries ::
         s.fields[detail].entries[key].Int? && s.fields[detail].entries[key].n >= 0
  }

  /** The floor of one key; a key the baseline lacks counts as zero. */
  function FloorOf(s: Stored, detail: string, key: string): int
    requires Loads(s, detail)
  {
    if key in s.fields[detail].entries then s.fields[detail].entries[key].n else 0
  }

  function CountOf(c: Counts, key: string): nat {
    if key in c.byKey then c.byKey[key] else 0
  }

  predicate Passes(s: Stored, detail: string, c: Counts)
    requires Loads(s, detail)
  {
    && c.total <= s.fields[TOTAL].n
    && forall key | key in c.byKey :: c.byKey[key] <= FloorOf(s, detail, key)
  }

  function Encode(byKey: map<string, nat>): Json {
    Table(map key | key in byKey :: Int(byKey[key]))
  }

  function Rewritten(s: Stored, detail: string, c: Counts): Stored {
    var metadata := if s.Object? then s.fields - {TOTAL, detail} else map[];
    Object(metadata[TOTAL := Int(c.total)][detail := Encode(c.byKey)])
  }

  /** Whether `regenerate_counts_baseline` refuses. */
  predicate Refuses(s: Stored, c: Counts, force: bool) {
    !force && (s.Absent? || s.Unparseable? || (TotalOf(s).Some? && c.total > TotalOf(s).value))
  }

  /** One count-based ratchet and its baseline file. */
  class CountRatchet {
    const detail: string
    var stored: Stored

    constructor (detail: string, stored: Stored)
      ensures this.detail == detail && this.stored == stored
    {
      this.detail, this.stored := detail, stored;
    }

    /** Exit code of the compare mode, with the regressions it lists. */
    method Compare(c: Counts) returns (code: int, regressions: set<string>)
      ensures code == (if !Loads(stored, detail) then 2 else if Passes(stored, detail, c) then 0 else 1)
      ensures Loads(stored, detail) ==>
                forall key :: key in regressions <==> CountOf(c, key) > FloorOf(stored, detail, key)
      ensures Loads(stored, detail) ==>
                (code == 0 <==> c.total <= stored.fields[TOTAL].n && regressions == {})
    {
      regressions := {};
      if !Loads(stored, detail) {
        return 2, regressions;
      }
      var baseBy := stored.fields[detail].entries;
      var allKeys := baseBy.Keys + c.byKey.Keys;
      var todo := allKeys;
      while todo != {}
        invariant todo <= allKeys
        invariant forall key :: key in regressions
                    <==> key in allKeys - todo && CountOf(c, key) > FloorOf(stored, detail, key)
        decreases todo
      {
        var key :| key in todo;
        var b := if key in baseBy then baseBy[key].n else 0;
        var n := if key in c.byKey then c.byKey[key] else 0;
        if n > b {
          regressions := regressions + {key};
        }
        todo := todo - {key};
      }
      forall key
        ensures key in regressions <==> CountOf(c, key) > FloorOf(stored, detail, key)
      {
      }
      code := if c.total > stored.fields[TOTAL].n then 1 else if regressions != {} then 1 else 0;
      if regressions == {} {
        forall key | key in c.byKey
          ensures c.byKey[key] <= FloorOf(stored, detail, key)
        {
          assert key !in regressions;
        }
      } else {
        var key :| key in regressions;
        assert key in c.byKey;
      }
    }

    /** `regenerate_counts_baseline`. */
    method Regenerate(c: Counts, force: bool) returns (code: int)
      modifies this`stored
      ensures code == (if Refuses(old(stored), c, force) then 1 else 0)
      ensures force ==> code == 0
      ensures !force && (old(stored).Absent? || old(stored).Unparseable?) ==> code == 1
      ensures !force && Loads(old(stored), detail) ==>
                code == (if c.total <= old(stored).fields[TOTAL].n then 0 else 1)
      ensures stored == if code == 0 then Rewritten(old(stored), detail, c) else old(stored)
    {
      var metadata: map<string, Json> := map[];
      match stored {
        case Absent =>
          if !force { return 1; }
        case Unparseable =>
          if !force { return 1; }
        case NonObject =>
        case Object(fields) =>
          metadata := fields - {TOTAL, detail};
          if TOTAL in fields && fields[TOTAL].Int? && c.total > fields[TOTAL].n {
            if !force { return 1; }
          }
      }
      stored := Object(metadata[TOTAL := Int(c.total)][detail := Encode(c.byKey)]);
      code := 0;
    }
  }

  // ------------------------------------------------------- runs of a count ratchet

  /** The stored baselines along unforced regenerates that each succeeded or were refused. */
  ghost predicate IsRun(states: seq<Stored>, detail: string, inputs: seq<Counts>) {
    && |states| == |inputs| + 1
    && forall i | 0 <= i < |inputs| ::
         states[i + 1] == if Refuses(states[i], inputs[i], false) then states[i]
                          else Rewritten(states[i], detail, inputs[i])
  }

  lemma RewrittenLoads(s: Stored, detail: string, c: Counts)
    requires detail != TOTAL
    ensures Loads(Rewritten(s, detail, c), detail)
    ensures TotalOf(Rewritten(s, detail, c)) == Some(c.total)
    ensures forall key :: FloorOf(Rewritten(s, detail, c), detail, key) == CountOf(c, key)
  {
  }

  /** Fields other than the two counts: the hand-kept metadata. */
  function Metadata(s: Stored, detail: string): map<string, Json>
    requires s.Object?
  {
    s.fields - {TOTAL, detail}
  }

  /** Along any run from a baseline the loader accepts, every stored baseline loads, the total
      never grows, the metadata stays, and whatever passes is at or below every earlier total. */
  lemma {:induction false} TotalNeverGrows(states: seq<Stored>, detail: string, inputs: seq<Counts>, i: nat, j: nat)
    requires IsRun(states, detail, inputs) && detail != TOTAL && Loads(states[0], detail) && i <= j < |states|
    ensures Loads(states[i], detail) && Loads(states[j], detail)
    ensures TotalOf(states[j]).value <= TotalOf(states[i]).value
    ensures Metadata(states[j], detail) == Metadata(states[i], detail)
    ensures forall c | Passes(states[j], detail, c) :: c.total <= TotalOf(states[i]).value
    decreases j
  {
    hide Loads, Rewritten, Refuses, Passes, Metadata;
    if j > 0 {
      TotalNeverGrows(states, detail, inputs, if i < j then i else j - 1, j - 1);
      StepKeeps(states[j - 1], states[j], detail, inputs[j - 1]);
    }
    PassesMeansTotal(states[j], detail);
  }

  lemma PassesMeansTotal(s: Stored, detail: string)
    requires Loads(s, detail)
    ensures TotalOf(s).Some? && s.Object?
    ensures forall c | Passes(s, detail, c) :: c.total <= TotalOf(s).value
  {
  }

  lemma StepKeeps(s: Stored, s': Stored, detail: string, c: Counts)
    requires Loads(s, detail) && detail != TOTAL
    requires s' == if Refuses(s, c, false) then s else Rewritten(s, detail, c)
    ensures Loads(s', detail) && TotalOf(s').value <= TotalOf(s).value && Metadata(s', detail) == Metadata(s, detail)
  {
    RewrittenLoads(s, detail, c);
    if s' != s {
      assert Metadata(s', detail) == Metadata(s, detail);
    }
  }

  /** What was written is accepted again: the same counts pass compare and are not refused, and force
      writes over anything. */
  lemma UnchangedIsAccepted(s: Stored, detail: string, c: Counts)
    requires detail != TOTAL
    ensures var written := Rewritten(s, detail, c);
            && Loads(written, detail) && Passes(written, detail, c) && !Refuses(written, c, false)
            && Rewritten(written, detail, c) == written
    ensures forall other, c' :: !Refuses(other, c', true)
  {
    RewrittenLoads(s, detail, c);
    var written := Rewritten(s, detail, c);
    forall key | key in c.byKey
      ensures c.byKey[key] <= FloorOf(written, detail, key)
    {
      assert FloorOf(written, detail, key) == CountOf(c, key);
    }
    assert Metadata(written, detail) == written.fields - {TOTAL, detail};
    assert Rewritten(written, detail, c).fields == written.fields;
  }

  /** Without force every count is accepted exactly when the file parses but holds no integer total:
      the refuse-to-grow check is skipped then, a non-object root included. */
  lemma GuardSkippedExactly(s: Stored)
    ensures (forall c :: !Refuses(s, c, false)) <==> (s.NonObject? || s.Object?) && TotalOf(s) == None
  {
    if TotalOf(s).Some? {
      var more := if TotalOf(s).value < 0 then 0 else TotalOf(s).value + 1;
      assert Refuses(s, Counts(more, map[]), false);
    } else if s.Absent? || s.Unparseable? {
      assert Refuses(s, Counts(0, map[]), false);
    }
  }

  /** The guard is on the total only: a single floor may grow under an unforced regenerate. */
  lemma KeyFloorMayGrow(detail: string) returns (s: Stored, c: Counts)
    requires detail != TOTAL
    ensures Loads(s, detail) && !Refuses(s, c, false)
    ensures FloorOf(Rewritten(s, detail, c), detail, "E501") > FloorOf(s, detail, "E501")
  {
    s := Object(map[TOTAL := Int(3), detail := Table(map["E501" := Int(1), "B008" := Int(2)])]);
    c := Counts(3, map["E501" := 3]);
    RewrittenLoads(s, detail, c);
  }

  /** An unforced regenerate raises no floor exactly when compare would have passed the same counts. */
  lemma FloorsKeptExactly(s: Stored, detail: string, c: Counts)
    requires detail != TOTAL && Loads(s, detail) && !Refuses(s, c, false)
    ensures (forall key :: FloorOf(Rewritten(s, detail, c), detail, key) <= FloorOf(s, detail, key))
       <==> Passes(s, detail, c)
  {
    RewrittenLoads(s, detail, c);
    if forall key :: FloorOf(Rewritten(s, detail, c), detail, key) <= FloorOf(s, detail, key) {
      forall key | key in c.byKey
        ensures c.byKey[key] <= FloorOf(s, detail, key)
      {
        assert FloorOf(Rewritten(s, detail, c), detail, key) == c.byKey[key];
      }
    }
  }

  // ------------------------------------------------------------------ ruff adapter

  /** A violation's rule code; None when it is not a string. */
  type Violation = Option<string>

  function Occurrences(vs: seq<Violation>, code: string): nat {
    if vs == [] then 0
    else Occurrences(vs[..|vs| - 1], code) + (if vs[|vs| - 1] == Some(code) then 1 else 0)
  }

  predicate IsFRule(code: string) {
    "F" <= code
  }

  predicate Tracked(v: Violation) {
    v.Some? && !IsFRule(v.value)
  }

  function TrackedCount(vs: seq<Violation>): (n: nat)
    ensures n <= |vs|
    ensures n == |vs| <==> forall v | v in vs :: Tracked(v)
  {
    if vs == [] then 0
    else
      var last := vs[|vs| - 1];
      assert vs == vs[..|vs| - 1] + [last];
      TrackedCount(vs[..|vs| - 1]) + (if Tracked(last) then 1 else 0)
  }

  ghost predicate IsTally(vs: seq<Violation>, byKey: map<string, nat>) {
    forall code ::
      (code in byKey <==> Occurrences(vs, code) > 0) && (code in byKey ==> byKey[code] == Occurrences(vs, code))
  }

  /** `_summarize`: a counter filled in a loop. */
  method Summarize(vs: seq<Violation>) returns (c: Counts)
    ensures c.total == |vs| && IsTally(vs, c.byKey)
  {
    var byRule: map<string, nat> := map[];
    assert vs[..0] == [];
    for i := 0 to |vs|
      invariant IsTally(vs[..i], byRule)
    {
      assert vs[..i + 1][..i] == vs[..i] && vs[..i + 1][i] == vs[i];
      if vs[i].Some? {
        var code := vs[i].value;
        byRule := byRule[code := (if code in byRule then byRule[code] else 0) + 1];
      }
    }
    assert vs[..|vs|] == vs;
    c := Counts(|vs|, byRule);
  }

  /** `sum(m.values())`. */
  ghost function SumValues(m: map<string, nat>): nat
    decreases |m|
  {
    if m == map[] then 0
    else
      var k :| k in m;
      m[k] + SumValues(m - {k})
  }

  lemma {:induction false} SumValuesRemove(m: map<string, nat>, k: string)
    requires k in m
    ensures SumValues(m) == m[k] + SumValues(m - {k})
    decreases |m|
  {
    var j :| j in m && SumValues(m) == m[j] + SumValues(m - {j});
    if j != k {
      SumValuesRemove(m - {j}, k);
      SumValuesRemove(m - {k}, j);
      assert m - {j} - {k} == m - {k} - {j};
    }
  }

  lemma SumValuesUpdate(m: map<string, nat>, k: string, n: nat)
    ensures SumValues(m[k := n]) == SumValues(m) - (if k in m then m[k] else 0) + n
  {
    var m' := m[k := n];
    SumValuesRemove(m', k);
    assert m' - {k} == m - {k};
    if k in m {
      SumValuesRemove(m, k);
    } else {
      assert m - {k} == m;
    }
  }

  /** The counter restricted to the rules the baseline tracks. */
  function WithoutF(byKey: map<string, nat>): map<string, nat> {
    map code | code in byKey && !IsFRule(code) :: byKey[code]
  }

  /** The tally before the last violation was counted. */
  function Uncount(byKey: map<string, nat>, last: Violation): map<string, nat> {
    if last.None? || last.value !in byKey then byKey
    else if byKey[last.value] <= 1 then byKey - {last.value}
    else byKey[last.value := byKey[last.value] - 1]
  }

  lemma UncountIsTally(vs: seq<Violation>, byKey: map<string, nat>)
    requires vs != [] && IsTally(vs, byKey)
    ensures IsTally(vs[..|vs| - 1], Uncount(byKey, vs[|vs| - 1]))
    ensures vs[|vs| - 1].Some? ==> vs[|vs| - 1].value in byKey && byKey[vs[|vs| - 1].value] > 0
  {
    var rest, last := vs[..|vs| - 1], vs[|vs| - 1];
    var before := Uncount(byKey, last);
    forall code
      ensures code in before <==> Occurrences(rest, code) > 0
      ensures code in before ==> before[code] == Occurrences(rest, code)
    {
      assert Occurrences(vs, code) == Occurrences(rest, code) + (if last == Some(code) then 1 else 0);
    }
  }

  lemma UncountSum(byKey: map<string, nat>, last: Violation)
    requires last.Some? ==> last.value in byKey && byKey[last.value] > 0
    ensures SumValues(WithoutF(byKey)) == SumValues(WithoutF(Uncount(byKey, last))) + (if Tracked(last) then 1 else 0)
  {
    var m, m' := WithoutF(byKey), WithoutF(Uncount(byKey, last));
    if Tracked(last) {
      var code := last.value;
      if byKey[code] == 1 {
        assert m' == m - {code};
        SumValuesRemove(m, code);
      } else {
        assert m' == m[code := byKey[code] - 1];
        SumValuesUpdate(m, code, byKey[code] - 1);
      }
    } else {
      assert m' == m;
    }
  }

  lemma {:induction false} TrackedSum(vs: seq<Violation>, byKey: map<string, nat>)
    requires IsTally(vs, byKey)
    ensures SumValues(WithoutF(byKey)) == TrackedCount(vs)
    decreases |vs|
  {
    hide Occurrences, Tracked, WithoutF, Uncount;
    if vs == [] {
      EmptyTally(byKey);
    } else {
      UncountIsTally(vs, byKey);
      UncountSum(byKey, vs[|vs| - 1]);
      TrackedSum(vs[..|vs| - 1], Uncount(byKey, vs[|vs| - 1]));
    }
  }

  lemma EmptyTally(byKey: map<string, nat>)
    requires IsTally([], byKey)
    ensures SumValues(WithoutF(byKey)) == 0
  {
    assert forall code :: Occurrences([], code) == 0;
    assert WithoutF(byKey) == map[];
  }

  /** The counts ruff's regenerate passes on: F-codes dropped, the total summed anew. */
  method RuffRegenerateCounts(vs: seq<Violation>) returns (c: Counts, raw: Counts)
    ensures raw.total == |vs| && IsTally(vs, raw.byKey)
    ensures c.byKey == WithoutF(raw.byKey) && c.total == TrackedCount(vs)
  {
    raw := Summarize(vs);
    var newBy := WithoutF(raw.byKey);
    var newTotal := 0;
    var todo := newBy.Keys;
    ghost var left := newBy;
    while todo != {}
      invariant left.Keys == todo && left == map k | k in newBy && k in todo :: newBy[k]
      invariant newTotal + SumValues(left) == SumValues(newBy)
      decreases todo
    {
      var k :| k in todo;
      SumValuesRemove(left, k);
      newTotal := newTotal + newBy[k];
      todo, left := todo - {k}, left - {k};
    }
    assert left == map[];
    TrackedSum(vs, raw.byKey);
    c := Counts(newTotal, newBy);
  }

  /** Right after a successful regenerate from the same report, the check passes exactly when every
      violation has a code and none of the codes starts with F. */
  lemma RuffFreshCheckPasses(s: Stored, detail: string, vs: seq<Violation>, raw: Counts, c: Counts)
    requires detail != TOTAL && raw.total == |vs| && IsTally(vs, raw.byKey)
    requires c.byKey == WithoutF(raw.byKey) && c.total == TrackedCount(vs)
    ensures Loads(Rewritten(s, detail, c), detail)
    ensures Passes(Rewritten(s, detail, c), detail, raw) <==> forall v | v in vs :: Tracked(v)
  {
    RewrittenLoads(s, detail, c);
    var s' := Rewritten(s, detail, c);
    if forall v | v in vs :: Tracked(v) {
      forall key | key in raw.byKey
        ensures raw.byKey[key] <= FloorOf(s', detail, key)
      {
        OccursMeansIn(vs, key);
        assert CountOf(c, key) == raw.byKey[key];
      }
    }
  }

  lemma {:induction false} OccursMeansIn(vs: seq<Violation>, code: string)
    requires Occurrences(vs, code) > 0
    ensures Some(code) in vs
  {
    if vs[|vs| - 1] != Some(code) {
      OccursMeansIn(vs[..|vs| - 1], code);
    }
  }

  /** The rules the documentation means: the pyflakes codes, an F and a number. */
  predicate IsPyflakes(code: string) {
    |code| > 1 && code[0] == 'F' && forall i | 1 <= i < |code| :: '0' <= code[i] <= '9'
  }

  /** The documented filter, which omits the pyflakes rules. */
  function WithoutPyflakes(byKey: map<string, nat>): map<string, nat> {
    map code | code in byKey && !IsPyflakes(code) :: byKey[code]
  }

  /** Filter and documentation agree on a report exactly when all its F-codes are pyflakes codes. */
  lemma FilterAsDocumentedExactly(byKey: map<string, nat>)
    ensures WithoutF(byKey) == WithoutPyflakes(byKey)
       <==> forall code | code in byKey && IsFRule(code) :: IsPyflakes(code)
  {
    var code', documented := WithoutF(byKey), WithoutPyflakes(byKey);
    assert forall code | IsPyflakes(code) :: IsFRule(code);
    forall code | code in byKey && IsFRule(code) && !IsPyflakes(code)
      ensures code' != documented
    {
      assert code in documented && code !in code';
    }
    if forall code | code in byKey && IsFRule(code) :: IsPyflakes(code) {
      assert code' == documented;
    }
  }

  /** A boolean-trap violation is no pyflakes rule, but is dropped from the baseline like one, so the
      check right after the regenerate fails. */
  lemma OtherRuleIsDropped(s: Stored, detail: string) returns (vs: seq<Violation>, raw: Counts)
    requires detail != TOTAL
    ensures raw.total == |vs| && IsTally(vs, raw.byKey)
    ensures forall v | v in vs :: v.Some? && !IsPyflakes(v.value)
    ensures WithoutF(raw.byKey) != WithoutPyflakes(raw.byKey)
    ensures Loads(Rewritten(s, detail, Counts(TrackedCount(vs), WithoutF(raw.byKey))), detail)
    ensures !Passes(Rewritten(s, detail, Counts(TrackedCount(vs), WithoutF(raw.byKey))), detail, raw)
  {
    var code := "FBT001";
    vs, raw := [Some(code)], Counts(1, map[code := 1]);
    assert code[1] == 'B' && "F" <= code;
    assert vs[..0] == [] && Occurrences([], code) == 0;
    forall other ensures Occurrences(vs, other) == if other == code then 1 else 0 {
      assert Occurrences(vs[..0], other) == 0;
    }
    assert Some(code) in vs && !Tracked(Some(code));
    FilterAsDocumentedExactly(raw.byKey);
    RuffFreshCheckPasses(s, detail, vs, raw, Counts(TrackedCount(vs), WithoutF(raw.byKey)));
  }

  // ------------------------------------------------------------- slim-core adapter

  const BY_LIBRARY: string := "by_library"
  const LIBRARIES: seq<string> := ["faster_whisper", "ctranslate2"]

  /** `_load_baseline` of the slim-core ratchet, and integer floors for the counted libraries. */
  predicate SlimLoads(s: Stored) {
    && s.Object? && TotalOf(s).Some? && BY_LIBRARY in s.fields && s.fields[BY_LIBRARY].Table?
    && forall lib | lib in LIBRARIES && lib in s.fields[BY_LIBRARY].entries :: s.fields[BY_LIBRARY].entries[lib].Int?
  }

  function SlimFloor(s: Stored, lib: string): int
    requires SlimLoads(s) && lib in LIBRARIES
  {
    if lib in s.fields[BY_LIBRARY].entries then s.fields[BY_LIBRARY].entries[lib].n else 0
  }

  predicate SlimWithin(s: Stored, c: Counts)
    requires SlimLoads(s)
  {
    c.total <= TotalOf(s).value && forall lib | lib in LIBRARIES :: CountOf(c, lib) <= SlimFloor(s, lib)
  }

  function SlimWritten(c: Counts, sites: string): Stored {
    Object(map[TOTAL := Int(c.total), BY_LIBRARY := Encode(map lib | lib in LIBRARIES :: CountOf(c, lib)),
               "sites" := OtherJson(sites)])
  }

  class SlimRatchet {
    var stored: Stored

    constructor (stored: Stored)
      ensures this.stored == stored
    {
      this.stored := stored;
    }

    /** `main` of the slim-core ratchet: check or regenerate.  A root that is no object is not caught:
        reading it raises an AttributeError, which ends the process with status 1. */
    method Run(c: Counts, sites: string, regenerate: bool, force: bool) returns (code: int)
      modifies this`stored
      ensures regenerate && old(stored).Absent? ==> code == 0 && stored == SlimWritten(c, sites)
      ensures old(stored).NonObject? ==> code == 1 && stored == old(stored)
      ensures !(regenerate && old(stored).Absent?) && !old(stored).NonObject? && !SlimLoads(old(stored)) ==>
                code == 2 && stored == old(stored)
      ensures SlimLoads(old(stored)) && !(regenerate && force) ==>
                (code == 0 <==> c.total <= old(stored).fields[TOTAL].n
                                && forall lib | lib in LIBRARIES :: CountOf(c, lib) <= SlimFloor(old(stored), lib))
      ensures SlimLoads(old(stored)) ==>
                && code == (if SlimWithin(old(stored), c) || (regenerate && force) then 0 else 1)
                && stored == (if regenerate && code == 0 then SlimWritten(c, sites) else old(stored))
    {
      if stored.NonObject? {
        return 1;
      }
      if !(regenerate && stored.Absent?) && !SlimLoads(stored) {
        return 2;
      }
      if !stored.Absent? && !(regenerate && force) {
        var grew := c.total > TotalOf(stored).value;
        for i := 0 to |LIBRARIES|
          invariant grew <==> c.total > TotalOf(stored).value
                              || exists j :: 0 <= j < i && CountOf(c, LIBRARIES[j]) > SlimFloor(stored, LIBRARIES[j])
        {
          grew := grew || CountOf(c, LIBRARIES[i]) > SlimFloor(stored, LIBRARIES[i]);
        }
        if grew {
          return 1;
        }
      }
      if regenerate {
        stored := SlimWritten(c, sites);
      }
      code := 0;
    }
  }

  lemma SlimWrittenLoads(c: Counts, sites: string)
    ensures SlimLoads(SlimWritten(c, sites)) && TotalOf(SlimWritten(c, sites)) == Some(c.total)
    ensures forall lib | lib in LIBRARIES :: SlimFloor(SlimWritten(c, sites), lib) == CountOf(c, lib)
  {
    var t, b, x := TOTAL, BY_LIBRARY, "sites";
    assert |t| == 11 && |b| == 10 && |x| == 5;
  }

  /** The same counts again are within what they wrote, and it stays as it is. */
  lemma SlimUnchangedIsWithin(c: Counts, sites: string)
    ensures SlimLoads(SlimWritten(c, sites)) && SlimWithin(SlimWritten(c, sites), c)
  {
    SlimWrittenLoads(c, sites);
  }

  ghost predicate IsSlimRun(states: seq<Stored>, inputs: seq<Counts>, sites: seq<string>) {
    && |states| == |inputs| + 1 && |sites| == |inputs|
    && forall i | 0 <= i < |inputs| :: SlimLoads(states[i]) ==>
         states[i + 1] == if SlimWithin(states[i], inputs[i]) then SlimWritten(inputs[i], sites[i]) else states[i]
  }

  /** Along unforced regenerates of the slim-core ratchet neither the total nor any library's floor
      ever grows, and whatever passes later is within every earlier baseline. */
  lemma {:induction false} SlimFloorsNeverGrow(states: seq<Stored>, inputs: seq<Counts>, sites: seq<string>,
                                               i: nat, j: nat)
    requires IsSlimRun(states, inputs, sites) && SlimLoads(states[0]) && i <= j < |states|
    ensures SlimLoads(states[i]) && SlimLoads(states[j])
    ensures TotalOf(states[j]).value <= TotalOf(states[i]).value
    ensures forall lib | lib in LIBRARIES :: SlimFloor(states[j], lib) <= SlimFloor(states[i], lib)
    ensures forall c | SlimWithin(states[j], c) :: SlimWithin(states[i], c)
    decreases j
  {
    hide SlimLoads, SlimWritten, SlimFloor, LIBRARIES;
    if j > 0 {
      SlimFloorsNeverGrow(states, inputs, sites, if i < j then i else j - 1, j - 1);
      SlimWrittenLoads(inputs[j - 1], sites[j - 1]);
    }
  }

  // -------------------------------------------------------------- coverage adapter

  const EPSILON: real := 0.01

  /** `round(x, 4)` up to how ties are broken: a multiple of 0.0001 no further than half of one away. */
  ghost predicate RoundsTo(x: real, y: real) {
    IsGrid(y) && -0.00005 <= y - x <= 0.00005
  }

  ghost predicate IsGrid(y: real) {
    exists k: int :: OnGrid(y, k)
  }

  predicate OnGrid(y: real, k: int) {
    y * 10000.0 == k as real
  }

  datatype Floor = NoFile | Corrupt | NoFloor | Percent(value: real)

  /** Whether the coverage regenerate refuses. */
  predicate CoverageRefuses(floor: Floor, current: real, force: bool) {
    !force && (floor.Corrupt? || (floor.Percent? && current < floor.value - EPSILON))
  }

  class CoverageRatchet {
    var floor: Floor

    constructor (floor: Floor)
      ensures this.floor == floor
    {
      this.floor := floor;
    }

    method Compare(current: real) returns (code: int)
      ensures code == (if !floor.Percent? || floor.value < 0.0 then 2
                       else if current >= floor.value - EPSILON then 0 else 1)
    {
      if !floor.Percent? || floor.value < 0.0 {
        return 2;
      }
      var delta := current - floor.value;
      code := if delta < -EPSILON then 1 else 0;
    }

    /** `regenerate`; `rounded` is what `round(current, 4)` gave. */
    method Regenerate(current: real, rounded: real, force: bool) returns (code: int)
      requires RoundsTo(current, rounded)
      modifies this`floor
      ensures code == (if CoverageRefuses(old(floor), current, force) then 1 else 0)
      ensures force || old(floor).NoFile? || old(floor).NoFloor? ==> code == 0
      ensures !force && old(floor).Corrupt? ==> code == 1
      ensures !force && old(floor).Percent? ==> code == (if current >= old(floor).value - 0.01 then 0 else 1)
      ensures floor == if code == 0 then Percent(rounded) else old(floor)
    {
      match floor {
        case NoFile =>
        case NoFloor =>
        case Corrupt =>
          if !force { return 1; }
        case Percent(oldPct) =>
          if current < oldPct - EPSILON {
            if !force { return 1; }
          }
      }
      floor := Percent(rounded);
      code := 0;
    }
  }

  /** Floors along successful unforced regenerates, `measured[i]` being the i-th measurement. */
  ghost predicate IsCoverageRun(floors: seq<real>, measured: seq<real>) {
    && |floors| == |measured| + 1
    && forall i | 0 <= i < |measured| :: measured[i] >= floors[i] - EPSILON && RoundsTo(measured[i], floors[i + 1])
  }

  /** The gate only slows a decline: n regenerates lower the floor by at most n times 0.01 and the
      rounding error, and by at most n times 0.01 from a floor that was itself rounded. */
  lemma {:induction false} CoverageDrift(floors: seq<real>, measured: seq<real>)
    requires IsCoverageRun(floors, measured)
    ensures floors[|measured|] >= floors[0] - |measured| as real * (EPSILON + 0.00005)
    ensures IsGrid(floors[0]) ==> floors[|measured|] >= floors[0] - |measured| as real * EPSILON
    ensures |measured| > 0 || IsGrid(floors[0]) ==> IsGrid(floors[|measured|])
  {
    var n := |measured|;
    if n > 0 {
      CoverageDrift(floors[..n], measured[..n - 1]);
      assert floors[..n][n - 1] == floors[n - 1];
      if IsGrid(floors[n - 1]) {
        GridStep(floors[n - 1], measured[n - 1], floors[n]);
      }
      assert n as real == (n - 1) as real + 1.0;
    }
  }

  lemma GridStep(old_: real, measured: real, rounded: real)
    requires IsGrid(old_) && measured >= old_ - EPSILON && RoundsTo(measured, rounded)
    ensures rounded >= old_ - EPSILON
  {
    var k :| OnGrid(old_, k);
    var m :| OnGrid(rounded, m);
    assert m as real >= k as real - 100.0 - 0.5;
    assert m >= k - 100;
  }

  /** The bound is reached: every number of regenerates can take the full 0.01 each. */
  lemma {:induction false} CoverageDriftIsReached(start: real, n: nat) returns (floors: seq<real>, measured: seq<real>)
    requires IsGrid(start)
    ensures IsCoverageRun(floors, measured) && |measured| == n && floors[0] == start
    ensures floors[n] == start - n as real * EPSILON
  {
    if n == 0 {
      floors, measured := [start], [];
    } else {
      floors, measured := CoverageDriftIsReached(start, n - 1);
      var next := floors[n - 1] - EPSILON;
      CoverageDrift(floors, measured);
      var k :| OnGrid(floors[n - 1], k);
      assert OnGrid(next, k - 100);
      floors, measured := floors + [next], measured + [next];
      assert n as real == (n - 1) as real + 1.0;
    }
  }

  /** Without force any measurement is written exactly when the file is missing or holds no number. */
  lemma CoverageGuardSkippedExactly(floor: Floor)
    ensures (forall current :: !CoverageRefuses(floor, current, false)) <==> floor.NoFile? || floor.NoFloor?
  {
    if floor.Corrupt? {
      assert CoverageRefuses(floor, 0.0, false);
    } else if floor.Percent? {
      assert CoverageRefuses(floor, floor.value - 1.0, false);
    }
  }

  /** The least multiple of 0.0001 that is not below `floor`: the floor itself when it was rounded. */
  function GridCeil(floor: real): (y: real)
    ensures IsGrid(y) && floor <= y < floor + 0.0001
    ensures IsGrid(floor) ==> y == floor
  {
    var k := Ceil(floor * 10000.0);
    var y := k as real / 10000.0;
    assert OnGrid(y, k);
    assert IsGrid(floor) ==> y == floor by {
      if j :| OnGrid(floor, j) { assert Ceil(j as real) == j; }
    }
    y
  }

  /** The measurement cannot be rounded below the floor. */
  predicate KeepsFloor(floor: real, current: real) {
    current > GridCeil(floor) - 0.00005
  }

  function GridFloor(x: real): (y: real)
    ensures RoundsTo(x, y) || y + 0.00005 < x < y + 0.0001
    ensures IsGrid(y) && y <= x < y + 0.0001
  {
    var k := (x * 10000.0).Floor;
    var y := k as real / 10000.0;
    assert OnGrid(y, k);
    y
  }

  lemma GridGap(a: real, b: real)
    requires IsGrid(a) && IsGrid(b) && a < b
    ensures a + 0.0001 <= b
  {
    var j, k :| OnGrid(a, j) && OnGrid(b, k);
    assert j < k;
  }

  /** Some rounding of a measurement that does not keep the floor lies below it. */
  lemma LowerRounding(floor: real, current: real) returns (y: real)
    requires !KeepsFloor(floor, current)
    ensures RoundsTo(current, y) && y < floor
  {
    var g := GridCeil(floor);
    y := GridFloor(current);
    if y + 0.00005 < current {
      var k :| OnGrid(y, k);
      assert OnGrid(y + 0.0001, k + 1);
      y := y + 0.0001;
    }
    GridGap(y, g);
  }

  /** No rounding of a measurement is below the floor, however ties are rounded, exactly when the
      measurement is above the (rounded-up) floor less half a step. */
  lemma RoundingKeepsExactly(floor: real, current: real)
    ensures (forall rounded | RoundsTo(current, rounded) :: rounded >= floor) <==> KeepsFloor(floor, current)
  {
    if KeepsFloor(floor, current) {
      forall rounded | RoundsTo(current, rounded)
        ensures rounded >= floor
      {
        if rounded < GridCeil(floor) { GridGap(rounded, GridCeil(floor)); }
      }
    } else {
      var y := LowerRounding(floor, current);
    }
  }

  /** What an unforced regenerate may leave as the floor. */
  ghost predicate MayBecome(floor: real, current: real, floor': real) {
    if CoverageRefuses(Percent(floor), current, false) then floor' == floor else RoundsTo(current, floor')
  }

  /** The measurement is refused, or it is too close to be rounded below the floor. */
  predicate CannotLower(floor: real, current: real) {
    current < floor - EPSILON || KeepsFloor(floor, current)
  }

  /** An unforced regenerate keeps the floor, however ties are rounded, exactly when the measurement is
      refused or above the floor less half a step: it lowers floors in the gap between the two. */
  lemma FloorKeptExactly(floor: real, current: real)
    ensures (forall floor' | MayBecome(floor, current, floor') :: floor' >= floor) <==> CannotLower(floor, current)
  {
    RoundingKeepsExactly(floor, current);
    if !CoverageRefuses(Percent(floor), current, false) {
      if !KeepsFloor(floor, current) {
        var y := LowerRounding(floor, current);
        assert MayBecome(floor, current, y);
      }
    }
  }

  ghost predicate NonDecreasing(floors: seq<real>) {
    forall i | 0 <= i < |floors| - 1 :: floors[i] <= floors[i + 1]
  }

  /** The floors along unforced regenerates, refused or not, that start from a stored floor. */
  ghost predicate IsHistory(floors: seq<real>, measured: seq<real>, start: real) {
    && |floors| == |measured| + 1 && floors[0] == start
    && forall i | 0 <= i < |measured| :: MayBecome(floors[i], measured[i], floors[i + 1])
  }

  /** In numbers: every measurement that is at most 0.01 below the floor, any rise included, becomes the
      new floor, rounded; every other one leaves the floor as it is. */
  lemma HistoryFollows(floors: seq<real>, measured: seq<real>, start: real, i: nat)
    requires IsHistory(floors, measured, start) && i < |measured|
    ensures measured[i] >= floors[i] - 0.01 ==> RoundsTo(measured[i], floors[i + 1])
    ensures measured[i] < floors[i] - 0.01 ==> floors[i + 1] == floors[i]
  {
    assert MayBecome(floors[i], measured[i], floors[i + 1]);
  }

  ghost predicate NoneCanLower(floors: seq<real>, measured: seq<real>)
    requires |floors| == |measured| + 1
  {
    forall i | 0 <= i < |measured| :: CannotLower(floors[i], measured[i])
  }

  lemma SomeRounding(x: real) returns (y: real)
    ensures RoundsTo(x, y)
  {
    y := GridFloor(x);
    if y + 0.00005 < x {
      var k :| OnGrid(y, k);
      assert OnGrid(y + 0.0001, k + 1);
      y := y + 0.0001;
    }
  }

  /** Any beginning of a history goes on to one of all the measurements. */
  lemma {:induction false} HistoryGoesOn(begun: seq<real>, measured: seq<real>, start: real) returns (floors: seq<real>)
    requires 0 < |begun| <= |measured| + 1 && IsHistory(begun, measured[..|begun| - 1], start)
    ensures IsHistory(floors, measured, start) && begun <= floors
    decreases |measured| + 1 - |begun|
  {
    var n := |begun| - 1;
    if n == |measured| {
      assert measured[..n] == measured;
      return begun;
    }
    var next := begun[n];
    if !CoverageRefuses(Percent(begun[n]), measured[n], false) {
      next := SomeRounding(measured[n]);
    }
    var longer := begun + [next];
    forall i | 0 <= i < n + 1
      ensures MayBecome(longer[i], measured[..n + 1][i], longer[i + 1])
    {
      if i < n { assert measured[..n][i] == measured[..n + 1][i]; }
    }
    floors := HistoryGoesOn(longer, measured, start);
  }

  /** Over all histories of the given measurements the floor never drops exactly when in all of them no
      measurement can lower the floor it meets. */
  lemma FloorsNeverDropExactly(start: real, measured: seq<real>)
    ensures (forall floors | IsHistory(floors, measured, start) :: NonDecreasing(floors))
       <==> forall floors | IsHistory(floors, measured, start) :: NoneCanLower(floors, measured)
  {
    forall floors | IsHistory(floors, measured, start) && NoneCanLower(floors, measured)
      ensures NonDecreasing(floors)
    {
      forall i | 0 <= i < |measured| ensures floors[i] <= floors[i + 1] {
        FloorKeptExactly(floors[i], measured[i]);
      }
    }
    forall floors, i | IsHistory(floors, measured, start) && 0 <= i < |measured| && !CannotLower(floors[i], measured[i])
      ensures exists dropping :: IsHistory(dropping, measured, start) && !NonDecreasing(dropping)
    {
      var dropping := DropsAt(floors, measured, start, i);
    }
  }

  lemma DropsAt(floors: seq<real>, measured: seq<real>, start: real, i: nat) returns (dropping: seq<real>)
    requires IsHistory(floors, measured, start) && i < |measured| && !CannotLower(floors[i], measured[i])
    ensures IsHistory(dropping, measured, start) && !NonDecreasing(dropping)
  {
    hide CannotLower, KeepsFloor;
    FloorKeptExactly(floors[i], measured[i]);
    var y :| MayBecome(floors[i], measured[i], y) && y < floors[i];
    var begun := floors[..i + 1] + [y];
    forall j | 0 <= j < i + 1
      ensures MayBecome(begun[j], measured[..i + 1][j], begun[j + 1])
    {
      if j < i { assert begun[j] == floors[j] && begun[j + 1] == floors[j + 1]; }
    }
    dropping := HistoryGoesOn(begun, measured, start);
    assert dropping[i] == floors[i] && dropping[i + 1] == y;
  }

  /** A history of regenerates may refuse some measurements; the others are what `CoverageDrift` bounds. */
  lemma {:induction false} HistoryDrift(floors: seq<real>, measured: seq<real>, start: real)
    requires IsHistory(floors, measured, start)
    ensures floors[|measured|] >= start - Accepted(floors, measured) as real * (EPSILON + 0.00005)
    ensures IsGrid(start) ==> IsGrid(floors[|measured|])
    ensures IsGrid(start) ==> floors[|measured|] >= start - Accepted(floors, measured) as real * EPSILON
  {
    var n := |measured|;
    if n > 0 {
      HistoryDrift(floors[..n], measured[..n - 1], start);
      assert floors[..n][n - 1] == floors[n - 1];
      assert MayBecome(floors[n - 1], measured[n - 1], floors[n]);
      if measured[n - 1] >= floors[n - 1] - EPSILON {
        assert Accepted(floors, measured) as real == Accepted(floors[..n], measured[..n - 1]) as real + 1.0;
        if IsGrid(floors[n - 1]) {
          GridStep(floors[n - 1], measured[n - 1], floors[n]);
        }
      }
    }
  }

  /** How many measurements of a history were not refused. */
  ghost function Accepted(floors: seq<real>, measured: seq<real>): nat
    requires |floors| == |measured| + 1
  {
    if measured == [] then 0
    else
      var n := |measured|;
      Accepted(floors[..n], measured[..n - 1]) + (if measured[n - 1] >= floors[n - 1] - EPSILON then 1 else 0)
  }
}
