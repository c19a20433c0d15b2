/** Naming the logs of a support bundle (scripts/diagnostics.py) so that none overwrites another. */
module LogNames {
  import opened Wrappers
  import opened PyText

  // ------------------------------------------------------------- decimal numbers

  function Digits(n: nat): string {
    if n < 10 then ['0' + n as char] else Digits(n / 10) + ['0' + (n % 10) as char]
  }

  function Value(s: string): int {
    if s == "" then 0 else Value(s[..|s| - 1]) * 10 + (s[|s| - 1] as int - '0' as int)
  }

  lemma {:induction false} ValueOfDigits(n: nat)
    ensures Digits(n) != "" && Value(Digits(n)) == n
    ensures forall c | c in Digits(n) :: '0' <= c <= '9'
    ensures n > 0 ==> Digits(n)[0] != '0'
  {
    var s := Digits(n);
    if n < 10 {
      assert s[..0] == "" && Value(s[..0]) == 0;
    } else {
      ValueOfDigits(n / 10);
      assert s[..|s| - 1] == Digits(n / 10);
    }
  }

  // ------------------------------------------------------------------ fresh names

  /** `name.partition(".log")` without the separator. */
  function Parts(name: string): (string, string) {
    match Find(name, ".log", 0)
    case None => (name, "")
    case Some(at) => (name[..at], name[at + |".log"|..])
  }

  function Candidate(name: string, index: nat): string {
    Parts(name).0 + ".log-" + Digits(index) + Parts(name).1
  }

  /** Decimal digits of the value `n`, without a leading zero. */
  ghost predicate IsDecimal(s: string, n: nat) {
    && s != "" && (forall c | c in s :: c in "0123456789") && Value(s) == n
    && (|s| > 1 ==> s[0] != '0')
  }

  /** What a candidate looks like: `-` and the index, in decimal, behind the name's first `.log`, or
      `.log-` and the index behind a name that has none. */
  lemma CandidateReads(head: string, tail: string, index: nat)
    requires forall i | 0 <= i < |head| :: !OccursAt(head + ".log" + tail, ".log", i)
    ensures exists d :: IsDecimal(d, index) && Candidate(head + ".log" + tail, index) == head + ".log-" + d + tail
    ensures (forall i :: !OccursAt(head, ".log", i)) ==>
              exists d :: IsDecimal(d, index) && Candidate(head, index) == head + ".log-" + d
  {
    var name, dot := head + ".log" + tail, ".log";
    ValueOfDigits(index);
    var d := Digits(index);
    assert IsDecimal(d, index);
    assert name[|head|..|head| + 4] == dot;
    assert OccursAt(name, dot, |head|);
    assert Find(name, dot, 0) == Some(|head|);
    assert name[..|head|] == head && name[|head| + 4..] == tail;
    assert Candidate(name, index) == head + ".log-" + d + tail;
    if forall i :: !OccursAt(head, ".log", i) {
      assert Find(head, dot, 0) == None;
      assert Candidate(head, index) == head + ".log-" + d + "" == head + ".log-" + d;
    }
  }

  /** Different indices give different candidates. */
  lemma CandidateInjective(name: string, i: nat, j: nat)
    ensures Candidate(name, i) == Candidate(name, j) <==> i == j
  {
    var (stem, suffix) := Parts(name);
    var head := stem + ".log-";
    if Candidate(name, i) == Candidate(name, j) {
      var s := Candidate(name, i);
      assert Digits(i) == s[|head|..|s| - |suffix|] == Digits(j);
      ValueOfDigits(i);
      ValueOfDigits(j);
    }
  }

  /** `r` is the name itself if free, and else the candidate of the first free index from 2 on. */
  ghost predicate IsFreshName(name: string, taken: set<string>, r: string) {
    if name !in taken then r == name
    else exists index :: index >= 2 && FirstFree(name, taken, index) && r == Candidate(name, index)
  }

  ghost predicate FirstFree(name: string, taken: set<string>, index: nat) {
    Candidate(name, index) !in taken && forall i | 2 <= i < index :: Candidate(name, i) in taken
  }

  /** `_unique_zip_name`: the search ends for every finite set of taken names, because each index it
      passes uses up one of them; the last index is at most two more than their number. */
  method UniqueZipName(name: string, taken: set<string>) returns (r: string)
    ensures r !in taken && IsFreshName(name, taken, r)
    ensures name in taken ==> exists index :: 2 <= index <= |taken| + 2 && r == Candidate(name, index)
  {
    hide Candidate;
    if name !in taken {
      return name;
    }
    var index := 2;
    ghost var passed: set<string> := {};
    while Candidate(name, index) in taken
      invariant index >= 2 && passed <= taken && |passed| == index - 2
      invariant forall i | 2 <= i < index :: Candidate(name, i) in taken
      invariant forall t :: t in passed <==> exists i :: 2 <= i < index && t == Candidate(name, i)
      decreases taken - passed
    {
      forall i | 2 <= i < index ensures Candidate(name, i) != Candidate(name, index) {
        CandidateInjective(name, i, index);
      }
      passed := passed + {Candidate(name, index)};
      index := index + 1;
    }
    SubsetSize(passed, taken);
    assert FirstFree(name, taken, index);
    r := Candidate(name, index);
  }

  lemma {:induction false} SubsetSize(a: set<string>, b: set<string>)
    requires a <= b
    ensures |a| <= |b|
    decreases a
  {
    if a != {} {
      var x :| x in a;
      SubsetSize(a - {x}, b - {x});
    }
  }

  /** The chosen name is determined by the name and the taken set. */
  lemma FreshNameUnique(name: string, taken: set<string>, r: string, r': string)
    requires IsFreshName(name, taken, r) && IsFreshName(name, taken, r')
    ensures r == r'
  {
    hide Candidate;
    if name in taken {
      var i :| i >= 2 && FirstFree(name, taken, i) && r == Candidate(name, i);
      var j :| j >= 2 && FirstFree(name, taken, j) && r' == Candidate(name, j);
      assert i <= j || Candidate(name, j) in taken;
      assert j <= i || Candidate(name, i) in taken;
    }
  }

  // ------------------------------------------------------------------- collecting

  /** A directory entry below logs/: its name, whether it is a regular file, its tail. */
  datatype Entry = Entry(name: string, isFile: bool, tail: string)

  const LEGACY_NAME: string := "lausu.log"

  predicate EndsWith(s: string, suffix: string) {
    |s| >= |suffix| && s[|s| - |suffix|..] == suffix
  }

  predicate IsCollected(e: Entry) {
    e.isFile && !EndsWith(e.name, ".lock")
  }

  /** The logs to ship, in order: the legacy one, then every regular file that is no lock. */
  function Eligible(entries: seq<Entry>): seq<Entry> {
    if entries == [] then []
    else
      var last := entries[|entries| - 1];
      Eligible(entries[..|entries| - 1]) + (if IsCollected(last) then [last] else [])
  }

  function Sources(legacy: Option<string>, entries: seq<Entry>): seq<Entry> {
    (if legacy.Some? then [Entry(LEGACY_NAME, true, legacy.value)] else []) + Eligible(entries)
  }

  ghost predicate Distinct(names: seq<string>) {
    forall i, j | 0 <= i < j < |names| :: names[i] != names[j]
  }

  function SetOf(names: seq<string>): set<string> {
    set i | 0 <= i < |names| :: names[i]
  }

  /** Every source is in the bundle, under its own name, each chosen against the ones before it. */
  ghost predicate IsBundle(sources: seq<Entry>, collected: seq<string>, bundle: map<string, string>) {
    && |collected| == |sources| && Distinct(collected)
    && (forall i | 0 <= i < |sources| :: collected[i] in bundle && bundle[collected[i]] == sources[i].tail)
    && (forall n | n in bundle :: n in collected)
    && (forall i | 0 <= i < |sources| :: IsFreshName(sources[i].name, SetOf(collected[..i]), collected[i]))
  }

  lemma SetOfSnoc(names: seq<string>, name: string)
    ensures SetOf(names + [name]) == SetOf(names) + {name}
    ensures forall i | 0 <= i < |names| :: names[i] in SetOf(names)
  {
    var c := names + [name];
    assert c[|names|] == name;
    forall x | x in SetOf(names)
      ensures x in SetOf(c)
    {
      var i :| 0 <= i < |names| && names[i] == x;
      assert c[i] == x;
    }
  }

  lemma AddToBundle(sources: seq<Entry>, collected: seq<string>, bundle: map<string, string>, e: Entry, name: string)
    requires IsBundle(sources, collected, bundle) && name !in SetOf(collected)
    requires IsFreshName(e.name, SetOf(collected), name)
    ensures IsBundle(sources + [e], collected + [name], bundle[name := e.tail])
    ensures SetOf(collected + [name]) == SetOf(collected) + {name}
  {
    hide IsFreshName, SetOf;
    SetOfSnoc(collected, name);
    var c := collected + [name];
    forall i | 0 <= i < |sources| + 1
      ensures IsFreshName((sources + [e])[i].name, SetOf(c[..i]), c[i])
    {
      assert c[..i] == if i < |sources| then collected[..i] else collected;
    }
    assert name == c[|collected|];
    forall n | n in bundle[name := e.tail]
      ensures n in c
    {
      assert n != name ==> n in collected;
    }
  }

  /** How often an entry occurs. */
  function Occurs(entries: seq<Entry>, e: Entry): nat {
    if entries == [] then 0 else Occurs(entries[..|entries| - 1], e) + (if entries[|entries| - 1] == e then 1 else 0)
  }

  ghost predicate IsLock(name: string) {
    exists stem :: name == stem + ".lock"
  }

  lemma CollectedMeans(e: Entry)
    ensures IsCollected(e) <==> e.isFile && !IsLock(e.name)
  {
    var lock := ".lock";
    assert |lock| == 5;
    if EndsWith(e.name, lock) {
      assert e.name == e.name[..|e.name| - 5] + lock;
    }
  }

  lemma {:induction false} OccursMeansIn(entries: seq<Entry>, e: Entry)
    ensures e in entries <==> Occurs(entries, e) > 0
  {
    if entries != [] {
      OccursMeansIn(entries[..|entries| - 1], e);
      assert entries == entries[..|entries| - 1] + [entries[|entries| - 1]];
    }
  }

  /** Every regular file whose name does not end in `.lock` is shipped, as often as it is listed, and
      nothing else is. */
  lemma {:induction false} EligibleExactly(entries: seq<Entry>, e: Entry)
    ensures Occurs(Eligible(entries), e) == if e.isFile && !IsLock(e.name) then Occurs(entries, e) else 0
  {
    hide IsCollected, IsLock;
    if entries != [] {
      var front, last := entries[..|entries| - 1], entries[|entries| - 1];
      EligibleExactly(front, e);
      CollectedMeans(last);
      OccursSnoc(Eligible(front), last, e);
      assert Eligible(front) + [] == Eligible(front);
    }
  }

  lemma OccursSnoc(entries: seq<Entry>, last: Entry, e: Entry)
    ensures Occurs(entries + [last], e) == Occurs(entries, e) + (if last == e then 1 else 0)
  {
    var longer := entries + [last];
    assert longer[..|longer| - 1] == entries;
  }

  /** Its tail is in the bundle. */
  lemma EveryLogIsShipped(legacy: Option<string>, entries: seq<Entry>, collected: seq<string>,
                          bundle: map<string, string>, e: Entry)
    requires IsBundle(Sources(legacy, entries), collected, bundle) && e in entries && e.isFile
    requires !IsLock(e.name)
    ensures exists n :: n in bundle && bundle[n] == e.tail
  {
    hide IsFreshName, SetOf, IsCollected, IsLock;
    EligibleExactly(entries, e);
    OccursMeansIn(entries, e);
    OccursMeansIn(Eligible(entries), e);
    var sources := Sources(legacy, entries);
    assert e in sources;
    var i :| 0 <= i < |sources| && sources[i] == e;
    assert bundle[collected[i]] == e.tail;
  }

  /** `_collect_logs_into`: no log overwrites another, whatever the directory holds. */
  method CollectLogs(legacy: Option<string>, entries: seq<Entry>)
    returns (collected: seq<string>, bundle: map<string, string>)
    ensures IsBundle(Sources(legacy, entries), collected, bundle)
  {
    hide IsFreshName, IsBundle, IsCollected;
    collected, bundle := [], map[];
    var taken: set<string> := {};
    ghost var done: seq<Entry> := [];
    EmptyBundle();
    if legacy.Some? {
      AddToBundle([], collected, bundle, Entry(LEGACY_NAME, true, legacy.value), LEGACY_NAME);
      done := [Entry(LEGACY_NAME, true, legacy.value)];
      assert [] + done == done;
      bundle := bundle[LEGACY_NAME := legacy.value];
      collected := collected + [LEGACY_NAME];
      taken := taken + {LEGACY_NAME};
    }
    ghost var first := done;
    assert entries[..0] == [];
    for i := 0 to |entries|
      invariant taken == SetOf(collected) && IsBundle(done, collected, bundle)
      invariant done == first + Eligible(entries[..i])
    {
      var e := entries[i];
      assert entries[..i + 1][..i] == entries[..i] && entries[..i + 1][i] == e;
      if IsCollected(e) {
        var destName := UniqueZipName(e.name, taken);
        AddToBundle(done, collected, bundle, e, destName);
        done := done + [e];
        bundle := bundle[destName := e.tail];
        collected := collected + [destName];
        taken := taken + {destName};
      }
    }
    assert entries[..|entries|] == entries;
  }

  lemma EmptyBundle()
    ensures IsBundle([], [], map[]) && SetOf([]) == {}
    ensures IsFreshName(LEGACY_NAME, {}, LEGACY_NAME)
  {
  }

  /** Logs with distinct names all keep their on-disk names. */
  lemma {:induction false} DistinctNamesKept(sources: seq<Entry>, collected: seq<string>, bundle: map<string, string>,
                                             i: nat)
    requires IsBundle(sources, collected, bundle) && i < |sources|
    requires forall j, k | 0 <= j < k < |sources| :: sources[j].name != sources[k].name
    ensures collected[i] == sources[i].name
    decreases i
  {
    hide Candidate;
    forall j | 0 <= j < i ensures collected[j] != sources[i].name {
      DistinctNamesKept(sources, collected, bundle, j);
    }
    assert sources[i].name !in SetOf(collected[..i]);
    assert IsFreshName(sources[i].name, SetOf(collected[..i]), collected[i]);
  }
}
