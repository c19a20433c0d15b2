/**
 * Toast notifications and their click intents (src-tauri/src/host_events.rs).
 *
 * Two values are shared between blocking tasks and tap callbacks, each behind its
 * own lock: the map of pending intents and the id counter.  One toast runs as four
 * separate critical sections (take an id, store the intent, show, remove on
 * failure), so other toasts and taps interleave between them.  `Exec` runs an
 * arbitrary schedule of those sections.
 */
module HostEvents {
  import opened Wrappers

  // i32::MAX and i32::MIN
  const MAX_ID: int := 0x7FFF_FFFF
  const MIN_I32: int := -0x8000_0000

  // ---------------------------------------------------------------- payloads

  datatype TapAction = OpenMicSettings | Navigate(nav: map<string, string>)

  datatype Payload = Payload(
    title: string, message: string,
    clickPath: Option<string>, clickConsentField: Option<string>)

  function NavigatePayload(p: Payload): map<string, string> {
    match p.clickConsentField
    case Some(field) => map["path" := "/settings", "consent_field" := field]
    case None => map["path" := p.clickPath.GetOr("")]
  }

  function TapActionFor(p: Payload): Option<TapAction> {
    if p.clickPath == Some("/microphone") && p.clickConsentField == None then
      Some(OpenMicSettings)
    else if p.clickPath.Some? || p.clickConsentField.Some? then
      Some(Navigate(NavigatePayload(p)))
    else
      None
  }

  /** Two payloads get the same tap action exactly when they route the same way: the
      consent field alone decides when there is one, the path alone otherwise. */
  lemma SameActionIffSameRoute(p: Payload, q: Payload)
    ensures TapActionFor(p) == TapActionFor(q)
       <==> p.clickConsentField == q.clickConsentField
            && (p.clickConsentField.None? ==> p.clickPath == q.clickPath)
  {
    var a, b := NavigatePayload(p), NavigatePayload(q);
    assert "consent_field" in a <==> p.clickConsentField.Some?;
    assert "consent_field" in b <==> q.clickConsentField.Some?;
    if a == b {
      assert a["path"] == b["path"];
      if p.clickConsentField.Some? {
        assert a["consent_field"] == b["consent_field"];
      }
    }
  }

  /** What a tap leads to, told by the payload's fields alone. */
  ghost predicate LeadsTo(p: Payload, action: Option<TapAction>) {
    match (p.clickConsentField, p.clickPath)
    case (Some(field), _) =>
      && action.Some? && action.value.Navigate? && action.value.nav.Keys == {"path", "consent_field"}
      && action.value.nav["path"] == "/settings" && action.value.nav["consent_field"] == field
    case (None, Some(path)) =>
      if path == "/microphone" then action == Some(OpenMicSettings)
      else
        && action.Some? && action.value.Navigate? && action.value.nav.Keys == {"path"}
        && action.value.nav["path"] == path
    case (None, None) => action == None
  }

  /** Field by field: a consent field leads to that field on the settings page; without one, the
      microphone path leads to the system page and any other path to itself; without both, nowhere. */
  lemma ActionByFields(p: Payload)
    ensures LeadsTo(p, TapActionFor(p))
    ensures forall action | LeadsTo(p, action) :: action == TapActionFor(p)
  {
    var nav := NavigatePayload(p);
    var path, field := "path", "consent_field";
    assert |path| == 4 && |field| == 13;
    assert p.clickConsentField.Some? ==> nav.Keys == {"path", "consent_field"};
    assert p.clickConsentField.None? ==> nav.Keys == {"path"};
    forall action | LeadsTo(p, action)
      ensures action == TapActionFor(p)
    {
      if action.Some? && action.value.Navigate? { assert action.value.nav == nav; }
    }
  }

  // ------------------------------------------------- shared state, one section each

  datatype Registry = Registry(next: int, pending: map<int, TapAction>)

  /** `next.wrapping_add(1).max(1)` on an i32. */
  function Bump(next: int): int {
    var sum := if next == MAX_ID then MIN_I32 else next + 1;
    if sum < 1 then 1 else sum
  }

  function CounterAfter(allocations: nat): int {
    if allocations == 0 then 1 else Bump(CounterAfter(allocations - 1))
  }

  /** The counter skips zero and the negative half: the n-th id is n mod (2^31-1) + 1. */
  lemma {:induction false} NthId(n: nat)
    ensures CounterAfter(n) == n % MAX_ID + 1
  {
    if n > 0 {
      NthId(n - 1);
      var q, r := (n - 1) / MAX_ID, (n - 1) % MAX_ID;
      assert n == MAX_ID * q + (r + 1);
      if r + 1 == MAX_ID {
        assert n == MAX_ID * (q + 1);
        assert n % MAX_ID == 0;
      } else {
        assert n % MAX_ID == r + 1;
      }
    }
  }

  function Insert(r: Registry, id: int, action: TapAction): Registry {
    r.(pending := r.pending[id := action])
  }

  function Remove(r: Registry, id: int): Registry {
    r.(pending := r.pending - {id})
  }

  function Lookup(r: Registry, id: int): Option<TapAction> {
    if id in r.pending then Some(r.pending[id]) else None
  }

  /** The process-wide statics, as the code mutates them. */
  class SharedIntents {
    var pending: map<int, TapAction>
    var next: int

    constructor ()
      ensures View() == Registry(1, map[])
    {
      pending, next := map[], 1;
    }

    function View(): Registry
      reads this
    {
      Registry(next, pending)
    }

    method AllocateId() returns (id: int)
      modifies this`next
      ensures id == old(next)
      ensures View() == old(View()).(next := Bump(id))
    {
      id := next;
      next := Bump(next);
    }

    /** `handle_notification_tap`: consumes the intent it returns. */
    method HandleTap(id: int) returns (action: Option<TapAction>)
      modifies this`pending
      ensures action == Lookup(old(View()), id)
      ensures View() == Remove(old(View()), id)
    {
      action := None;
      if id in pending {
        action := Some(pending[id]);
      }
      pending := pending - {id};
    }

    /** The body of the blocking task, run without interruption. */
    method ShowNotification(payload: Payload, showSucceeds: bool) returns (id: int)
      modifies this
      ensures id == old(next) && next == Bump(id)
      ensures showSucceeds && TapActionFor(payload).Some? ==>
                View() == Insert(old(View()), id, TapActionFor(payload).value).(next := next)
      ensures showSucceeds && TapActionFor(payload).None? ==> pending == old(pending)
      ensures !showSucceeds ==> View() == Remove(old(View()), id).(next := next)
    {
      var tapAction := TapActionFor(payload);
      id := AllocateId();
      if tapAction.Some? {
        pending := pending[id := tapAction.value];
      }
      if !showSucceeds {
        pending := pending - {id};
      }
    }
  }

  // ------------------------------------------------------------ interleaved runs

  /** Where one toast's task stands between two critical sections. */
  datatype Phase = Spawned | Tagged | Armed | Shown | Failed | Retired

  datatype Toast = Toast(intent: Option<TapAction>, phase: Phase, id: int)

  datatype Tap = Tap(id: int, action: TapAction)

  /** `issued` and `fired` are history: ids handed out, intents run, in order. */
  datatype World = World(reg: Registry, toasts: seq<Toast>, issued: nat, fired: seq<Tap>)

  datatype Step =
    | Spawn(payload: Payload)
    | Allocate(k: nat)
    | Arm(k: nat)
    | ShowOk(k: nat)
    | ShowError(k: nat)
    | Discard(k: nat)
    | TapOn(id: int)

  const START := World(Registry(1, map[]), [], 0, [])

  predicate At(w: World, k: nat, phase: Phase) {
    k < |w.toasts| && w.toasts[k].phase == phase
  }

  function Move(w: World, k: nat, phase: Phase): World
    requires k < |w.toasts|
  {
    w.(toasts := w.toasts[k := w.toasts[k].(phase := phase)])
  }

  /** One critical section; a step whose task is elsewhere changes nothing. */
  function Apply(w: World, s: Step): World {
    match s
    case Spawn(payload) => w.(toasts := w.toasts + [Toast(TapActionFor(payload), Spawned, 0)])
    case Allocate(k) =>
      if At(w, k, Spawned) then
        w.(toasts := w.toasts[k := Toast(w.toasts[k].intent, Tagged, w.reg.next)],
           reg := w.reg.(next := Bump(w.reg.next)), issued := w.issued + 1)
      else w
    case Arm(k) =>
      if At(w, k, Tagged) then
        var armed := Move(w, k, Armed);
        if w.toasts[k].intent.Some? then
          armed.(reg := Insert(w.reg, w.toasts[k].id, w.toasts[k].intent.value))
        else armed
      else w
    case ShowOk(k) => if At(w, k, Armed) then Move(w, k, Shown) else w
    case ShowError(k) => if At(w, k, Armed) then Move(w, k, Failed) else w
    case Discard(k) =>
      if At(w, k, Failed) then Move(w, k, Retired).(reg := Remove(w.reg, w.toasts[k].id)) else w
    case TapOn(id) =>
      var action := Lookup(w.reg, id);
      w.(reg := Remove(w.reg, id), fired := if action.Some? then w.fired + [Tap(id, action.value)] else w.fired)
  }

  function Exec(schedule: seq<Step>): World {
    if schedule == [] then START
    else Apply(Exec(schedule[..|schedule| - 1]), schedule[|schedule| - 1])
  }

  function TimesFired(fired: seq<Tap>, id: int): nat {
    if fired == [] then 0
    else TimesFired(fired[..|fired| - 1], id) + (if fired[|fired| - 1].id == id then 1 else 0)
  }

  predicate HasId(t: Toast) {
    t.phase != Spawned
  }

  // ------------------------------------------------------------------- promises

  /** What a tap on a toast's id ran is that toast's own intent. */
  ghost predicate OwnIntentOnly(w: World) {
    forall e, k | e in w.fired && 0 <= k < |w.toasts| && HasId(w.toasts[k]) && w.toasts[k].id == e.id ::
      w.toasts[k].intent == Some(e.action)
  }

  ghost predicate AtMostOnce(w: World) {
    forall t | t in w.toasts && HasId(t) :: TimesFired(w.fired, t.id) <= 1
  }

  ghost predicate ShownStaysTappable(w: World) {
    forall t | t in w.toasts && t.phase == Shown && t.intent.Some? && TimesFired(w.fired, t.id) == 0 ::
      Lookup(w.reg, t.id) == t.intent
  }

  ghost predicate FailedLeavesNothing(w: World) {
    forall t | t in w.toasts && t.phase == Retired :: t.id !in w.reg.pending
  }

  ghost predicate Safe(w: World) {
    OwnIntentOnly(w) && AtMostOnce(w) && ShownStaysTappable(w) && FailedLeavesNothing(w)
  }

  // ------------------------------------------------------------------ invariant

  ghost predicate IdsDistinct(w: World) {
    && w.reg.next == w.issued % MAX_ID + 1
    && (forall t | t in w.toasts && HasId(t) :: 1 <= t.id <= w.issued)
    && (forall j, k | 0 <= j < k < |w.toasts| && HasId(w.toasts[j]) && HasId(w.toasts[k]) ::
          w.toasts[j].id != w.toasts[k].id)
  }

  /** How a toast's phase, its entry and its tap count go together. */
  ghost predicate Accounted(w: World, t: Toast) {
    var entry, taps := Lookup(w.reg, t.id), TimesFired(w.fired, t.id);
    match t.phase
    case Spawned => true
    case Tagged => entry == None && taps == 0
    case Retired => entry == None && taps <= 1
    case _ =>
      if t.intent == None then entry == None && taps == 0
      else (entry == t.intent && taps == 0) || (entry == None && taps == 1)
  }

  ghost predicate Owned(w: World, id: int, action: TapAction) {
    exists t :: t in w.toasts && HasId(t) && t.id == id && t.intent == Some(action)
  }

  ghost predicate Inv(w: World) {
    && IdsDistinct(w)
    && (forall t | t in w.toasts :: Accounted(w, t))
    && (forall id | id in w.reg.pending :: Owned(w, id, w.reg.pending[id]))
    && (forall e | e in w.fired :: Owned(w, e.id, e.action))
  }

  lemma {:induction false} NeverFired(fired: seq<Tap>, id: int)
    ensures TimesFired(fired, id) == 0 <==> forall e | e in fired :: e.id != id
  {
    if fired != [] {
      var prefix, last := fired[..|fired| - 1], fired[|fired| - 1];
      NeverFired(prefix, id);
      assert fired == prefix + [last];
    }
  }

  lemma InvImpliesSafe(w: World)
    requires Inv(w)
    ensures Safe(w)
  {
    forall e, k | e in w.fired && 0 <= k < |w.toasts| && HasId(w.toasts[k]) && w.toasts[k].id == e.id
      ensures w.toasts[k].intent == Some(e.action)
    {
      var t :| t in w.toasts && HasId(t) && t.id == e.id && t.intent == Some(e.action);
      var j :| 0 <= j < |w.toasts| && w.toasts[j] == t;
      assert j == k;
    }
    forall t | t in w.toasts && HasId(t)
      ensures TimesFired(w.fired, t.id) <= 1
    {
      assert Accounted(w, t);
    }
    forall t | t in w.toasts && t.phase == Shown && t.intent.Some? && TimesFired(w.fired, t.id) == 0
      ensures Lookup(w.reg, t.id) == t.intent
    {
      assert Accounted(w, t);
    }
    forall t | t in w.toasts && t.phase == Retired
      ensures t.id !in w.reg.pending
    {
      assert Accounted(w, t);
    }
  }

  /** Entries and taps stay owned when no toast loses its id or intent. */
  lemma OwnersKept(w: World, w': World)
    requires |w.toasts| <= |w'.toasts|
    requires forall k | 0 <= k < |w.toasts| && HasId(w.toasts[k]) ::
               HasId(w'.toasts[k]) && w'.toasts[k].id == w.toasts[k].id && w'.toasts[k].intent == w.toasts[k].intent
    ensures forall id, action | Owned(w, id, action) :: Owned(w', id, action)
  {
    forall id, action | Owned(w, id, action)
      ensures Owned(w', id, action)
    {
      var t :| t in w.toasts && HasId(t) && t.id == id && t.intent == Some(action);
      var k :| 0 <= k < |w.toasts| && w.toasts[k] == t;
      assert w'.toasts[k] in w'.toasts;
    }
  }

  lemma SpawnKeepsInv(w: World, payload: Payload)
    requires Inv(w)
    ensures Inv(Apply(w, Spawn(payload)))
  {
    hide TapActionFor;
    var w' := Apply(w, Spawn(payload));
    OwnersKept(w, w');
    forall t | t in w'.toasts
      ensures Accounted(w', t)
    {
      assert t in w.toasts || t == Toast(TapActionFor(payload), Spawned, 0);
      if t in w.toasts { assert Accounted(w, t); }
    }
    assert forall t | t in w'.toasts && HasId(t) :: t in w.toasts;
  }

  lemma AllocateKeepsInv(w: World, k: nat)
    requires Inv(w) && At(w, k, Spawned) && w.issued < MAX_ID
    ensures Inv(Apply(w, Allocate(k)))
  {
    var w' := Apply(w, Allocate(k));
    OwnersKept(w, w');
    var id := w.reg.next;
    assert id == w.issued + 1;
    assert id !in w.reg.pending;
    NeverFired(w.fired, id);
    forall t | t in w'.toasts
      ensures Accounted(w', t)
    {
      var j :| 0 <= j < |w'.toasts| && w'.toasts[j] == t;
      if j != k { assert t == w.toasts[j]; assert Accounted(w, t); }
    }
    forall t | t in w'.toasts && HasId(t)
      ensures 1 <= t.id <= w'.issued
    {
      var j :| 0 <= j < |w'.toasts| && w'.toasts[j] == t;
      if j != k { assert t == w.toasts[j]; }
    }
    NthId(w.issued);
    NthId(w.issued + 1);
  }

  /** Only toast `k` moves, and the registry changes at most at `k`'s own id. */
  ghost predicate MovesOnly(w: World, w': World, k: nat) {
    && k < |w.toasts| == |w'.toasts|
    && (forall j | 0 <= j < |w.toasts| && j != k :: w'.toasts[j] == w.toasts[j])
    && HasId(w.toasts[k]) && HasId(w'.toasts[k])
    && w'.toasts[k].id == w.toasts[k].id && w'.toasts[k].intent == w.toasts[k].intent
    && w'.fired == w.fired && w'.issued == w.issued && w'.reg.next == w.reg.next
    && (forall id | id != w.toasts[k].id :: Lookup(w'.reg, id) == Lookup(w.reg, id))
  }

  lemma MoveKeepsInv(w: World, w': World, k: nat)
    requires Inv(w) && MovesOnly(w, w', k)
    requires Accounted(w', w'.toasts[k])
    requires w.toasts[k].id in w'.reg.pending ==> w.toasts[k].intent == Some(w'.reg.pending[w.toasts[k].id])
    ensures Inv(w')
  {
    OwnersKept(w, w');
    forall t | t in w'.toasts
      ensures Accounted(w', t)
      ensures HasId(t) ==> 1 <= t.id <= w'.issued
    {
      var j :| 0 <= j < |w'.toasts| && w'.toasts[j] == t;
      if j != k {
        assert t == w.toasts[j];
        assert Accounted(w, t);
      }
      assert w.toasts[k] in w.toasts;
    }
    forall id | id in w'.reg.pending
      ensures Owned(w', id, w'.reg.pending[id])
    {
      if id == w.toasts[k].id {
        assert w'.toasts[k] in w'.toasts;
      } else {
        assert Lookup(w'.reg, id) == Lookup(w.reg, id);
        assert Owned(w, id, w.reg.pending[id]);
      }
    }
  }

  lemma TapKeepsInv(w: World, id: int)
    requires Inv(w)
    ensures Inv(Apply(w, TapOn(id)))
  {
    var w' := Apply(w, TapOn(id));
    OwnersKept(w, w');
    assert id in w.reg.pending ==> w'.fired[..|w.fired|] == w.fired;
    forall t | t in w'.toasts
      ensures Accounted(w', t)
    {
      assert Accounted(w, t);
    }
    forall e | e in w'.fired
      ensures Owned(w', e.id, e.action)
    {
      assert e in w.fired || (id in w.reg.pending && e == Tap(id, w.reg.pending[id]));
    }
  }

  /** Showing moves one task on and leaves the registry alone. */
  lemma ShowKeepsInv(w: World, k: nat, phase: Phase)
    requires Inv(w) && At(w, k, Armed) && (phase == Shown || phase == Failed)
    ensures Inv(Move(w, k, phase))
  {
    assert Accounted(w, w.toasts[k]);
    MoveKeepsInv(w, Move(w, k, phase), k);
  }

  lemma ArmKeepsInv(w: World, k: nat)
    requires Inv(w) && At(w, k, Tagged)
    ensures Inv(Apply(w, Arm(k)))
  {
    assert Accounted(w, w.toasts[k]);
    MoveKeepsInv(w, Apply(w, Arm(k)), k);
  }

  lemma DiscardKeepsInv(w: World, k: nat)
    requires Inv(w) && At(w, k, Failed)
    ensures Inv(Apply(w, Discard(k)))
  {
    assert Accounted(w, w.toasts[k]);
    MoveKeepsInv(w, Apply(w, Discard(k)), k);
  }

  lemma StepKeepsInv(w: World, s: Step)
    requires Inv(w) && Apply(w, s).issued <= MAX_ID
    ensures Inv(Apply(w, s))
  {
    hide Bump, Inv, TapActionFor;
    match s
    case Spawn(payload) => SpawnKeepsInv(w, payload);
    case Allocate(k) => if At(w, k, Spawned) { AllocateKeepsInv(w, k); }
    case TapOn(id) => TapKeepsInv(w, id);
    case Arm(k) => if At(w, k, Tagged) { ArmKeepsInv(w, k); }
    case ShowOk(k) => if At(w, k, Armed) { ShowKeepsInv(w, k, Shown); }
    case ShowError(k) => if At(w, k, Armed) { ShowKeepsInv(w, k, Failed); }
    case Discard(k) => if At(w, k, Failed) { DiscardKeepsInv(w, k); }
  }

  lemma {:induction false} RunKeepsInv(schedule: seq<Step>)
    requires Exec(schedule).issued <= MAX_ID
    ensures Inv(Exec(schedule))
  {
    if schedule != [] {
      var before := schedule[..|schedule| - 1];
      assert Exec(before).issued <= Exec(schedule).issued;
      RunKeepsInv(before);
      StepKeepsInv(Exec(before), schedule[|schedule| - 1]);
    }
  }

  // ------------------------------------------------------------------ main results

  /** Whatever the interleaving of at most 2^31-1 toasts and any taps, all four promises hold. */
  lemma EveryRunIsSafe(schedule: seq<Step>)
    requires Exec(schedule).issued <= MAX_ID
    ensures Safe(Exec(schedule))
  {
    RunKeepsInv(schedule);
    InvImpliesSafe(Exec(schedule));
  }

  /** The payloads of the toasts, in the order they were spawned. */
  function Payloads(schedule: seq<Step>): seq<Payload> {
    if schedule == [] then []
    else
      var last := schedule[|schedule| - 1];
      Payloads(schedule[..|schedule| - 1]) + (if last.Spawn? then [last.payload] else [])
  }

  lemma {:induction false} ToastsHavePayloads(schedule: seq<Step>)
    ensures |Payloads(schedule)| == |Exec(schedule).toasts|
    ensures forall k | 0 <= k < |Payloads(schedule)| ::
              Exec(schedule).toasts[k].intent == TapActionFor(Payloads(schedule)[k])
  {
    hide TapActionFor, Bump;
    if schedule != [] {
      ToastsHavePayloads(schedule[..|schedule| - 1]);
    }
  }

  /** Over every run of at most 2^31-1 toasts: the first tap on a shown toast's id runs exactly what the
      fields of its own payload lead to, and every other tap on it runs nothing. */
  lemma TapRunsOwnPayload(schedule: seq<Step>, k: nat) returns (action: Option<TapAction>)
    requires Exec(schedule).issued <= MAX_ID && At(Exec(schedule), k, Shown)
    ensures k < |Payloads(schedule)| && LeadsTo(Payloads(schedule)[k], action)
    ensures var (w, id) := (Exec(schedule), Exec(schedule).toasts[k].id);
            Exec(schedule + [TapOn(id)]).fired
              == if action.Some? && TimesFired(w.fired, id) == 0 then w.fired + [Tap(id, action.value)] else w.fired
  {
    hide LeadsTo, TapActionFor;
    var w := Exec(schedule);
    var toast := w.toasts[k];
    ToastsHavePayloads(schedule);
    ActionByFields(Payloads(schedule)[k]);
    action := toast.intent;
    RunKeepsInv(schedule);
    assert Accounted(w, toast);
    ExecAppend(schedule, TapOn(toast.id));
  }

  /** Along any run the id of the next toast is the counter's closed form, wrapped or not. */
  lemma {:induction false} RunCounter(schedule: seq<Step>)
    ensures Exec(schedule).reg.next == Exec(schedule).issued % MAX_ID + 1
  {
    if schedule != [] {
      var before := schedule[..|schedule| - 1];
      RunCounter(before);
      NthId(Exec(before).issued);
      NthId(Exec(before).issued + 1);
    }
  }

  lemma ExecAppend(schedule: seq<Step>, s: Step)
    ensures Exec(schedule + [s]) == Apply(Exec(schedule), s)
  {
    assert (schedule + [s])[..|schedule|] == schedule;
  }

  const MIC := Payload("", "", Some("/microphone"), None)
  const QUIET := Payload("", "", None, None)

  /** One shown toast with an intent, followed by `quiet` toasts without any. */
  function WrapSchedule(quiet: nat): seq<Step> {
    if quiet == 0 then [] + [Spawn(MIC)] + [Allocate(0)] + [Arm(0)] + [ShowOk(0)]
    else WrapSchedule(quiet - 1) + [Spawn(QUIET)] + [Allocate(quiet)]
  }

  ghost predicate WrapState(w: World, quiet: nat) {
    && |w.toasts| == quiet + 1 && w.issued == quiet + 1 && w.fired == []
    && w.toasts[0] == Toast(Some(OpenMicSettings), Shown, 1)
  }

  lemma WrapFirst()
    ensures WrapState(Exec(WrapSchedule(0)), 0)
  {
    var s0: seq<Step> := [];
    var s1 := s0 + [Spawn(MIC)];
    var s2 := s1 + [Allocate(0)];
    var s3 := s2 + [Arm(0)];
    ExecAppend(s0, Spawn(MIC));
    ExecAppend(s1, Allocate(0));
    ExecAppend(s2, Arm(0));
    ExecAppend(s3, ShowOk(0));
    var toast := Toast(Some(OpenMicSettings), Spawned, 0);
    assert Exec(s1) == START.(toasts := [toast]);
    assert Exec(s2).toasts == [toast.(phase := Tagged, id := 1)];
    assert Exec(s3).toasts == [toast.(phase := Armed, id := 1)];
  }

  lemma {:induction false} WrapRun(quiet: nat)
    ensures WrapState(Exec(WrapSchedule(quiet)), quiet)
  {
    if quiet == 0 {
      WrapFirst();
    } else {
      WrapRun(quiet - 1);
      ExecAppend(WrapSchedule(quiet - 1), Spawn(QUIET));
      ExecAppend(WrapSchedule(quiet - 1) + [Spawn(QUIET)], Allocate(quiet));
    }
  }

  /** With one toast more the counter wraps: a tap on the first toast's id runs the last one's intent. */
  lemma WrappedRunIsUnsafe() returns (schedule: seq<Step>)
    ensures Exec(schedule).issued == MAX_ID + 1
    ensures !OwnIntentOnly(Exec(schedule))
  {
    var models := Payload("", "", Some("/models"), None);
    var other := Navigate(map["path" := "/models"]);
    assert TapActionFor(models) == Some(other);
    var s0 := WrapSchedule(MAX_ID - 1);
    WrapRun(MAX_ID - 1);
    RunCounter(s0);
    var s1 := s0 + [Spawn(models)];
    ExecAppend(s0, Spawn(models));
    var s2 := s1 + [Allocate(MAX_ID)];
    ExecAppend(s1, Allocate(MAX_ID));
    var s3 := s2 + [Arm(MAX_ID)];
    ExecAppend(s2, Arm(MAX_ID));
    schedule := s3 + [TapOn(1)];
    ExecAppend(s3, TapOn(1));
    var w := Exec(schedule);
    assert Tap(1, other) in w.fired;
    assert w.toasts[0] == Toast(Some(OpenMicSettings), Shown, 1);
  }

  /** The promises hold of every run with up to `n` ids exactly when `n` is at most 2^31-1. */
  lemma SafeExactlyUpToIdSpace(n: nat)
    ensures (forall schedule | Exec(schedule).issued <= n :: Safe(Exec(schedule))) <==> n <= MAX_ID
  {
    if n <= MAX_ID {
      forall schedule | Exec(schedule).issued <= n
        ensures Safe(Exec(schedule))
      {
        EveryRunIsSafe(schedule);
      }
    } else {
      var schedule := WrappedRunIsUnsafe();
      assert Exec(schedule).issued <= n && !Safe(Exec(schedule));
    }
  }

  lemma SectionsUpToShow(w: World, payload: Payload)
    ensures var k := |w.toasts|;
            var intent := TapActionFor(payload);
            var armed := Apply(Apply(Apply(w, Spawn(payload)), Allocate(k)), Arm(k));
            && At(armed, k, Armed) && armed.toasts[k].id == w.reg.next
            && armed.reg == (if intent.Some? then Insert(w.reg, w.reg.next, intent.value) else w.reg)
                            .(next := Bump(w.reg.next))
  {
    hide Bump, TapActionFor;
    var k := |w.toasts|;
    var intent := TapActionFor(payload);
    var spawned := Apply(w, Spawn(payload));
    assert spawned.toasts[k] == Toast(intent, Spawned, 0);
    var tagged := Apply(spawned, Allocate(k));
    assert tagged.toasts[k] == Toast(intent, Tagged, w.reg.next);
  }

  lemma TaskUpToShow(schedule: seq<Step>, payload: Payload) returns (armed: seq<Step>)
    ensures var w, k := Exec(schedule), |Exec(schedule).toasts|;
            var intent := TapActionFor(payload);
            && armed == schedule + [Spawn(payload), Allocate(k), Arm(k)]
            && At(Exec(armed), k, Armed) && Exec(armed).toasts[k].id == w.reg.next
            && Exec(armed).reg == (if intent.Some? then Insert(w.reg, w.reg.next, intent.value) else w.reg)
                                  .(next := Bump(w.reg.next))
  {
    hide Apply, Bump, Insert, At, TapActionFor;
    var k := |Exec(schedule).toasts|;
    var s1 := schedule + [Spawn(payload)];
    var s2 := s1 + [Allocate(k)];
    armed := s2 + [Arm(k)];
    ExecAppend(schedule, Spawn(payload));
    ExecAppend(s1, Allocate(k));
    ExecAppend(s2, Arm(k));
    SectionsUpToShow(Exec(schedule), payload);
  }

  /** The uninterrupted task of `ShowNotification` is the run of its own sections. */
  lemma {:induction false} UninterruptedTask(schedule: seq<Step>, payload: Payload, showSucceeds: bool)
    ensures var w := Exec(schedule);
            var k := |w.toasts|;
            var intent := TapActionFor(payload);
            var after := if showSucceeds then [ShowOk(k)] else [ShowError(k), Discard(k)];
            Exec(schedule + [Spawn(payload), Allocate(k), Arm(k)] + after).reg
              == (if !showSucceeds then Remove(w.reg, w.reg.next)
                  else if intent.Some? then Insert(w.reg, w.reg.next, intent.value)
                  else w.reg).(next := Bump(w.reg.next))
  {
    hide TapActionFor, Bump, Exec;
    var w := Exec(schedule);
    var k := |w.toasts|;
    var armed := TaskUpToShow(schedule, payload);
    if showSucceeds {
      ExecAppend(armed, ShowOk(k));
    } else {
      var failed := armed + [ShowError(k)];
      ExecAppend(armed, ShowError(k));
      ExecAppend(failed, Discard(k));
      assert armed + [ShowError(k), Discard(k)] == failed + [Discard(k)];
      assert Exec(failed + [Discard(k)]).reg.pending == w.reg.pending - {w.reg.next};
    }
  }
}
