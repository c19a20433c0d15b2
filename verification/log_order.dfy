/**
 * When the collected log names come out sorted.  The directory listing is sorted by name before the
 * loop, but the legacy log goes first, and a colliding name is replaced by a longer one.
 */
module LogOrder {
  import opened Wrappers
  import opened PyText
  import opened LogNames

  // ------------------------------------------------------------------ order on names

  /** `a < b` on strings: by code points, a proper prefix first. */
  predicate Before(a: string, b: string) {
    b != "" && (a == "" || a[0] < b[0] || (a[0] == b[0] && Before(a[1..], b[1..])))
  }

  lemma {:induction false} BeforeTotal(a: string, b: string)
    ensures a != b <==> Before(a, b) || Before(b, a)
    ensures !(Before(a, b) && Before(b, a))
  {
    if a != "" && b != "" && a[0] == b[0] {
      BeforeTotal(a[1..], b[1..]);
      assert a == [a[0]] + a[1..] && b == [b[0]] + b[1..];
    }
  }

  lemma {:induction false} BeforeTransitive(a: string, b: string, c: string)
    requires Before(a, b) && Before(b, c)
    ensures Before(a, c)
  {
    if a != "" && a[0] == b[0] == c[0] {
      BeforeTransitive(a[1..], b[1..], c[1..]);
    }
  }

  lemma {:induction false} PrefixBefore(a: string, rest: string)
    requires rest != ""
    ensures Before(a, a + rest)
  {
    if a != "" {
      PrefixBefore(a[1..], rest);
      assert (a + rest)[1..] == a[1..] + rest;
    }
  }

  ghost predicate Sorted(names: seq<string>) {
    forall i, j | 0 <= i < j < |names| :: Before(names[i], names[j])
  }

  function Names(es: seq<Entry>): (r: seq<string>)
    ensures |r| == |es| && forall i | 0 <= i < |es| :: r[i] == es[i].name
  {
    seq(|es|, i requires 0 <= i < |es| => es[i].name)
  }

  lemma {:induction false} EligibleSorted(entries: seq<Entry>)
    requires Sorted(Names(entries))
    ensures Sorted(Names(Eligible(entries)))
    ensures forall e | e in Eligible(entries) :: e in entries
  {
    hide Before, IsCollected;
    if entries != [] {
      var front, last := entries[..|entries| - 1], entries[|entries| - 1];
      assert forall i | 0 <= i < |front| :: Names(front)[i] == Names(entries)[i];
      EligibleSorted(front);
      forall e | e in Eligible(front) ensures Before(e.name, last.name) {
        var i :| 0 <= i < |front| && front[i] == e;
        assert Names(entries)[i] == e.name && Names(entries)[|front|] == last.name;
      }
      assert forall i | 0 <= i < |Eligible(front)| :: Eligible(front)[i] in Eligible(front);
    }
  }

  // -------------------------------------------------------- the names the legacy log pushes

  function Tail(k: nat): string {
    if k == 0 then "" else "-2" + Tail(k - 1)
  }

  /** "lausu.log", "lausu.log-2", "lausu.log-2-2", and so on. */
  function Chain(k: nat): string {
    LEGACY_NAME + Tail(k)
  }

  lemma {:induction false} TailGrows(j: nat, k: nat) returns (rest: string)
    requires j <= k
    ensures Tail(k) == Tail(j) + rest && |rest| == 2 * (k - j)
  {
    if j > 0 {
      rest := TailGrows(j - 1, k - 1);
      assert "-2" + (Tail(j - 1) + rest) == ("-2" + Tail(j - 1)) + rest;
    } else if k > 0 {
      var r := TailGrows(0, k - 1);
      rest := Tail(k);
    } else {
      rest := "";
    }
  }

  lemma ChainAscends(j: nat, k: nat)
    ensures j < k ==> Before(Chain(j), Chain(k))
    ensures Chain(j) == Chain(k) <==> j == k
  {
    hide Before;
    if j < k {
      var rest := TailGrows(j, k);
      assert Chain(k) == Chain(j) + rest;
      PrefixBefore(Chain(j), rest);
      BeforeTotal(Chain(j), Chain(k));
    } else if k < j {
      var rest := TailGrows(k, j);
    }
  }

  /** A collision with one of these names gives the next one. */
  lemma ChainCandidate(k: nat)
    ensures Candidate(Chain(k), 2) == Chain(k + 1)
  {
    var s, dotLog := Chain(k), ".log";
    assert |dotLog| == 4 && dotLog[0] == '.' && dotLog[1] == 'l' && dotLog[2] == 'o' && dotLog[3] == 'g';
    assert s[0] == 'l' && s[1] == 'a' && s[2] == 'u' && s[3] == 's' && s[4] == 'u';
    assert s[5..9] == dotLog;
    assert OccursAt(s, dotLog, 5);
    forall i | 0 <= i < 5 ensures !OccursAt(s, dotLog, i) {
      assert s[i..i + 4][0] == s[i] != dotLog[0];
    }
    assert Find(s, dotLog, 0) == Some(5);
    var stem := "lausu";
    assert s[..5] == stem && s[9..] == Tail(k);
    assert Digits(2) == "2";
    assert stem + ".log-" + "2" + Tail(k) == LEGACY_NAME + ("-2" + Tail(k));
  }

  /** Sources named like the chain, behind the legacy log, each move one further along it. */
  lemma {:induction false} ChainPushed(sources: seq<Entry>, collected: seq<string>, bundle: map<string, string>, m: nat)
    requires IsBundle(sources, collected, bundle) && m < |sources| && sources[0].name == LEGACY_NAME
    requires forall j | 0 < j <= m :: sources[j].name == Chain(j - 1)
    ensures forall j | 0 <= j <= m :: collected[j] == Chain(j)
  {
    hide Candidate, Chain;
    var taken, name := SetOf(collected[..m]), sources[m].name;
    assert IsFreshName(name, taken, collected[m]);
    if m == 0 {
      assert Chain(0) == LEGACY_NAME by { FirstOfChain(); }
    } else {
      ChainPushed(sources, collected, bundle, m - 1);
      ChainCandidate(m - 1);
      assert collected[..m][m - 1] == name;
      forall j | 0 <= j < m ensures collected[..m][j] != Chain(m) { ChainAscends(j, m); }
      assert FirstFree(name, taken, 2);
      FreshNameUnique(name, taken, collected[m], Chain(m));
    }
  }

  lemma FirstOfChain()
    ensures Chain(0) == LEGACY_NAME
  {
  }

  // ------------------------------------------------------------------------ main result

  /** The legacy log may go first: the other names follow it, except that the leading ones may be just
      those that collisions push along the chain. */
  ghost predicate FitsBehindLegacy(names: seq<string>) {
    exists i :: 0 <= i <= |names| && FitsFrom(names, i)
  }

  ghost predicate FitsFrom(names: seq<string>, i: nat)
    requires i <= |names|
  {
    (forall j | 0 <= j < i :: names[j] == Chain(j)) && (i < |names| ==> Before(Chain(i), names[i]))
  }

  /** Behind the pushed names every later one is kept. */
  lemma {:induction false} RestKept(sources: seq<Entry>, collected: seq<string>, bundle: map<string, string>,
                                    m: nat, k: nat)
    requires IsBundle(sources, collected, bundle) && m < k < |sources| && Sorted(Names(sources[1..]))
    requires forall j | 0 <= j <= m :: collected[j] == Chain(j)
    requires Before(Chain(m), sources[m + 1].name)
    ensures Before(Chain(m), sources[k].name) && collected[k] == sources[k].name
    decreases k
  {
    hide Candidate, Chain, Before;
    var names, name := Names(sources[1..]), sources[k].name;
    assert forall j | 0 < j < |sources| :: names[j - 1] == sources[j].name;
    if k > m + 1 {
      assert Before(names[m], names[k - 1]);
      BeforeTransitive(Chain(m), sources[m + 1].name, name);
    }
    forall j | 0 <= j < k ensures collected[..k][j] != name {
      if j <= m {
        ChainAscends(j, m);
        if j < m { BeforeTransitive(Chain(j), Chain(m), name); }
        BeforeTotal(Chain(j), name);
      } else {
        RestKept(sources, collected, bundle, m, j);
        assert Before(names[j - 1], names[k - 1]);
        BeforeTotal(sources[j].name, name);
      }
    }
    assert IsFreshName(name, SetOf(collected[..k]), collected[k]);
  }

  lemma FittingIsSorted(sources: seq<Entry>, collected: seq<string>, bundle: map<string, string>, i: nat)
    requires IsBundle(sources, collected, bundle) && sources != [] && sources[0].name == LEGACY_NAME
    requires Sorted(Names(sources[1..])) && i < |sources| && FitsFrom(Names(sources[1..]), i)
    ensures Sorted(collected)
  {
    hide IsBundle, Chain, Before;
    var names := Names(sources[1..]);
    assert forall j | 0 < j < |sources| :: names[j - 1] == sources[j].name;
    assert |collected| == |sources| by { BundleLength(sources, collected, bundle); }
    ChainPushed(sources, collected, bundle, i);
    forall j, k | 0 <= j < k < |collected| ensures Before(collected[j], collected[k]) {
      if k <= i {
        ChainAscends(j, k);
      } else {
        RestKept(sources, collected, bundle, i, k);
        if j <= i {
          ChainAscends(j, i);
          if j < i { BeforeTransitive(Chain(j), Chain(i), sources[k].name); }
        } else {
          RestKept(sources, collected, bundle, i, j);
          assert Before(names[j - 1], names[k - 1]);
        }
      }
    }
  }

  lemma BundleLength(sources: seq<Entry>, collected: seq<string>, bundle: map<string, string>)
    requires IsBundle(sources, collected, bundle)
    ensures |collected| == |sources|
  {
  }

  /** Behind the names that follow the chain, one that sorts before its next link breaks the order. */
  lemma BreaksOrder(sources: seq<Entry>, collected: seq<string>, bundle: map<string, string>, i: nat)
    requires IsBundle(sources, collected, bundle) && i + 1 < |sources| && sources[0].name == LEGACY_NAME
    requires Sorted(Names(sources[1..]))
    requires forall j | 0 <= j < i :: sources[j + 1].name == Chain(j)
    requires Before(sources[i + 1].name, Chain(i))
    ensures !Sorted(collected)
  {
    hide Candidate, Chain, Before;
    var names, name := Names(sources[1..]), sources[i + 1].name;
    assert forall j | 0 < j < |sources| :: names[j - 1] == sources[j].name;
    ChainPushed(sources, collected, bundle, i);
    var before := collected[..i + 1];
    forall j | 0 <= j < |before| ensures before[j] != name {
      if j == i {
        BeforeTotal(name, Chain(i));
      } else {
        assert Before(names[j], names[i]);
        BeforeTotal(Chain(j), name);
      }
    }
    assert IsFreshName(name, SetOf(collected[..i + 1]), collected[i + 1]);
    BeforeTotal(name, Chain(i));
    assert !Before(collected[i], collected[i + 1]);
  }

  lemma {:induction false} ChainLength(names: seq<string>, from: nat) returns (i: nat)
    requires from <= |names| && forall j | 0 <= j < from :: names[j] == Chain(j)
    ensures from <= i <= |names| && (forall j | 0 <= j < i :: names[j] == Chain(j))
    ensures i < |names| ==> names[i] != Chain(i)
    decreases |names| - from
  {
    i := from;
    if from < |names| && names[from] == Chain(from) {
      i := ChainLength(names, from + 1);
    }
  }

  /** For every sorted directory listing, the collected names are sorted exactly when there is no legacy
      log or the listing fits behind it. */
  lemma SortedExactly(legacy: Option<string>, entries: seq<Entry>, collected: seq<string>, bundle: map<string, string>)
    requires Sorted(Names(entries)) && IsBundle(Sources(legacy, entries), collected, bundle)
    ensures Sorted(collected) <==> legacy.None? || FitsBehindLegacy(Names(Eligible(entries)))
  {
    hide IsBundle, Before, Chain, IsCollected, Eligible;
    var sources, eligible := Sources(legacy, entries), Eligible(entries);
    EligibleSorted(entries);
    BundleLength(sources, collected, bundle);
    if legacy.None? {
      assert sources == eligible;
      NamesDiffer(eligible);
      forall i | 0 <= i < |sources| ensures collected[i] == Names(eligible)[i] {
        DistinctNamesKept(sources, collected, bundle, i);
      }
    } else {
      assert sources[1..] == eligible;
      var names := Names(eligible);
      if i :| 0 <= i <= |names| && FitsFrom(names, i) {
        FittingIsSorted(sources, collected, bundle, i);
      }
      var i := ChainLength(names, 0);
      if i < |names| && !Before(Chain(i), names[i]) {
        BeforeTotal(Chain(i), names[i]);
        assert forall j | 0 <= j <= i :: sources[j + 1].name == names[j];
        BreaksOrder(sources, collected, bundle, i);
      } else {
        assert FitsFrom(names, i);
      }
    }
  }

  lemma NamesDiffer(es: seq<Entry>)
    requires Sorted(Names(es))
    ensures forall j, k | 0 <= j < k < |es| :: es[j].name != es[k].name
  {
    forall j, k | 0 <= j < k < |es| ensures es[j].name != es[k].name {
      assert Before(Names(es)[j], Names(es)[k]);
      BeforeTotal(es[j].name, es[k].name);
    }
  }

  /** The usual listing is such a case: the Rust host's log sorts before the legacy name. */
  lemma LegacyComesFirst() returns (entries: seq<Entry>, collected: seq<string>, bundle: map<string, string>)
    ensures Sorted(Names(entries)) && IsBundle(Sources(Some(""), entries), collected, bundle)
    ensures !Sorted(collected)
  {
    hide IsFreshName;
    var rust, lock := "lausu-rust.log", ".lock";
    var legacy, e := Entry(LEGACY_NAME, true, ""), Entry(rust, true, "");
    entries := [e];
    EmptyBundle();
    assert rust[|rust| - 5..][0] == 't' && lock[0] == '.';
    assert entries[..0] == [] && Eligible(entries) == [e];
    AddToBundle([], [], map[], legacy, LEGACY_NAME);
    assert [] + [LEGACY_NAME] == [LEGACY_NAME] && [] + [legacy] == [legacy];
    var first := map[LEGACY_NAME := ""];
    assert |rust| == 14 && |LEGACY_NAME| == 9;
    assert SetOf([LEGACY_NAME]) == {LEGACY_NAME};
    FreeNameIsFresh(rust, {LEGACY_NAME});
    AddToBundle([legacy], [LEGACY_NAME], first, e, rust);
    collected, bundle := [LEGACY_NAME] + [rust], first[rust := ""];
    assert [legacy] + [e] == Sources(Some(""), entries);
    NotBefore(rust);
    assert collected[0] == LEGACY_NAME && collected[1] == rust;
  }

  lemma FreeNameIsFresh(name: string, taken: set<string>)
    requires name !in taken
    ensures IsFreshName(name, taken, name)
  {
  }

  lemma NotBefore(rust: string)
    requires rust == "lausu-rust.log"
    ensures !Before(LEGACY_NAME, rust)
  {
    var a, b := LEGACY_NAME, rust;
    assert a[5] == '.' && b[5] == '-';
    CommonPrefix("lausu", a[5..], b[5..]);
    assert a == "lausu" + a[5..] && b == "lausu" + b[5..];
  }

  lemma {:induction false} CommonPrefix(p: string, a: string, b: string)
    ensures Before(p + a, p + b) <==> Before(a, b)
  {
    if p == "" {
      assert p + a == a && p + b == b;
    } else {
      CommonPrefix(p[1..], a, b);
      assert (p + a)[1..] == p[1..] + a && (p + b)[1..] == p[1..] + b;
    }
  }
}
