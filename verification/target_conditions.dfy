/** The Target reconciler (controllers/target_controller.go): how its conditions Ready, Reconciling
    and Stalled move, and the service account it keeps. */
module TargetConditions {
  import opened Wrappers
  import opened P = Pipeline

  datatype Conditions = Conditions(ready: Condition, reconciling: Condition, stalled: Condition, observed: int)

  datatype Access = MissingAccess | InvalidAccess | ValidAccess

  /** The service account asked for, its namespace being part of its name: the secrets that the
      selector finds for it, None when the target has no selector, and how the calls for it go. */
  datatype Account = Account(name: string, secrets: Option<seq<string>>, listOk: bool, getOk: bool, writeOk: bool)

  /** The pull secrets of the accounts in the cluster. */
  type Held = map<string, seq<string>>

  /** What a run meets; earlyPatch is the patch that a new generation starts with. */
  datatype Sights = Sights(
    generation: int,
    interval: nat,
    earlyPatch: bool,
    access: Access,
    namespaceOk: bool,
    account: Option<Account>)

  /** How the run ends. A spec without any access makes it panic. */
  datatype End = Success | PatchFailed | Panicked | AccessInvalid | NamespaceFailed | AccountFailed

  // ----- the run, stated on values -----

  /** ProgressiveStatus(false, ...) with a stalled condition taken into account. */
  function InProgress(s: Conditions): Conditions {
    s.(reconciling := True, stalled := Unset, ready := if s.ready == Unset then Unknown else s.ready)
  }

  /** The pull secrets that the account should have: those found, or none without a selector. */
  function Wanted(a: Account): seq<string> {
    if a.secrets.Some? then a.secrets.value else []
  }

  predicate Right(held: Held, a: Account) {
    a.name in held && held[a.name] == Wanted(a)
  }

  /** A selector must find something; an account that is right already is not written. */
  predicate Reconcilable(held: Held, a: Account) {
    (a.secrets.Some? ==> a.listOk && Wanted(a) != []) && a.getOk && (Right(held, a) || a.writeOk)
  }

  function EndOf(s: Conditions, held: Held, i: Sights): End {
    if i.generation != s.observed && !i.earlyPatch then PatchFailed
    else if i.access.MissingAccess? then Panicked
    else if i.access.InvalidAccess? then AccessInvalid
    else if !i.namespaceOk then NamespaceFailed
    else if i.account.Some? && !Reconcilable(held, i.account.value) then AccountFailed
    else Success
  }

  /** The accounts after a run that ends like this. */
  function HeldAfter(held: Held, i: Sights, end: End): Held {
    if end.Success? && i.account.Some? then held[i.account.value.name := Wanted(i.account.value)] else held
  }

  function Unready(s: Conditions, interval: nat): Conditions {
    s.(ready := False, reconciling := if interval == 0 then Unset else True, stalled := Unset)
  }

  /** The conditions that the last patch of the run carries. */
  function Final(s: Conditions, i: Sights, end: End): Conditions {
    var c := match end
      case Success => s.(ready := True, reconciling := Unset, stalled := Unset)
      case AccessInvalid => s.(ready := False, reconciling := Unset, stalled := True)
      case NamespaceFailed => Unready(s, i.interval)
      case AccountFailed => Unready(s, i.interval)
      case _ =>
        if i.interval > 0 then InProgress(s)
        else s.(ready := if s.ready == False then False else True, reconciling := Unset, stalled := Unset);
    if c.ready == True || c.stalled == True then c.(observed := i.generation) else c
  }

  // ----- the service account -----

  method EqualSlices(a: seq<string>, b: seq<string>) returns (r: bool)
    ensures r <==> a == b
  {
    if |a| != |b| {
      return false;
    }
    for k := 0 to |a|
      invariant forall j :: 0 <= j < k ==> a[j] == b[j]
    {
      if a[k] != b[k] {
        return false;
      }
    }
    return true;
  }

  class Accounts {
    var secretsOf: Held
    var writes: nat

    constructor ()
      ensures secretsOf == map[] && writes == 0
    {
      secretsOf, writes := map[], 0;
    }

    method ReconcileServiceAccount(a: Account) returns (ok: bool)
      modifies this
      ensures ok <==> Reconcilable(old(secretsOf), a)
      ensures secretsOf == if ok then old(secretsOf)[a.name := Wanted(a)] else old(secretsOf)
      ensures writes == old(writes) + if ok && !Right(old(secretsOf), a) then 1 else 0
    {
      var found: seq<string> := [];
      if a.secrets.Some? {
        if !a.listOk {
          return false;
        }
        if |a.secrets.value| == 0 {
          return false;
        }
        found := a.secrets.value;
      }
      if !a.getOk {
        return false;
      }
      var same := false;
      if a.name in secretsOf {
        same := EqualSlices(secretsOf[a.name], found);
      }
      if same {
        return true;
      }
      if !a.writeOk {
        return false;
      }
      secretsOf := secretsOf[a.name := found];
      writes := writes + 1;
      return true;
    }
  }

  // ----- the controller -----

  class Target {
    var conditions: Conditions
    const accounts: Accounts

    constructor (conditions: Conditions, accounts: Accounts)
      ensures this.conditions == conditions && this.accounts == accounts
    {
      this.conditions, this.accounts := conditions, accounts;
    }

    /** The whole run, with the two deferred functions at its end. The error of the run is not
        known to SetStatus: its argument was evaluated when the call was deferred. */
    method Reconcile(i: Sights) returns (end: End)
      modifies this, accounts
      ensures end == EndOf(old(conditions), old(accounts.secretsOf), i)
      ensures conditions == Final(old(conditions), i, end)
      ensures accounts.secretsOf == HeldAfter(old(accounts.secretsOf), i, end)
    {
      var was := conditions;
      var requeueAfter;
      end, requeueAfter := Work(i);
      var _ := SetStatus(was, requeueAfter, i.interval);
      if conditions.stalled == True || conditions.ready == True {
        conditions := conditions.(observed := i.generation);
      }
    }

    method Work(i: Sights) returns (end: End, requeueAfter: nat)
      modifies this, accounts
      ensures end == EndOf(old(conditions), old(accounts.secretsOf), i)
      ensures accounts.secretsOf == HeldAfter(old(accounts.secretsOf), i, end)
      ensures requeueAfter == if end.Success? then i.interval else 0
      ensures var p := InProgress(old(conditions));
        conditions == match end
          case Success => p.(ready := Unset)
          case AccessInvalid => p.(ready := False, stalled := True)
          case NamespaceFailed => p.(ready := False)
          case AccountFailed => p.(ready := False)
          case _ => p
    {
      requeueAfter := 0;
      conditions := InProgress(conditions);
      if i.generation != conditions.observed {
        conditions := InProgress(conditions);
        if !i.earlyPatch {
          return PatchFailed, 0;
        }
      }
      match i.access {
        case MissingAccess => return Panicked, 0;
        case InvalidAccess =>
          conditions := conditions.(stalled := True);
          conditions := conditions.(ready := False);
          return AccessInvalid, 0;
        case ValidAccess =>
      }
      conditions := conditions.(stalled := Unset);
      if !i.namespaceOk {
        conditions := conditions.(ready := False);
        return NamespaceFailed, 0;
      }
      if i.account.Some? {
        var ok := accounts.ReconcileServiceAccount(i.account.value);
        if !ok {
          conditions := conditions.(ready := False);
          return AccountFailed, 0;
        }
      }
      conditions := conditions.(ready := Unset);
      return Success, i.interval;
    }

    /** The event, when Ready turned true or stopped being so, is made from the Ready condition,
        which it dereferences: here it is that condition's status. */
    method SetStatus(was: Conditions, requeueAfter: nat, interval: nat) returns (event: Option<Condition>)
      requires conditions.reconciling == True
      requires conditions.ready == Unset ==> requeueAfter == interval && conditions.stalled != True
      modifies this
      ensures
        var o := old(conditions);
        conditions ==
          if o.stalled == True then o.(reconciling := Unset)
          else if requeueAfter != interval then o
          else o.(reconciling := Unset, ready := if o.ready == False then False else True)
      ensures event.Some? <==> (was.ready == True) != (conditions.ready == True)
      ensures event.Some? ==> event.value == conditions.ready != Unset
    {
      var failed := false;
      if conditions.stalled == True {
        conditions := conditions.(reconciling := Unset);
      }
      if requeueAfter == interval {
        conditions := conditions.(reconciling := Unset);
        if conditions.ready == False && conditions.stalled != True {
          failed := true;
        }
      }
      if conditions.reconciling != True && conditions.stalled != True && !failed && requeueAfter == interval {
        conditions := conditions.(ready := True);
      }
      event := None;
      if was.ready != True && conditions.ready == True {
        event := Some(conditions.ready);
      }
      if was.ready == True && conditions.ready != True {
        event := Some(conditions.ready);
      }
    }
  }

  // ----- one run -----

  /** When a run ends with Ready=True: it succeeded; or it stopped before it did anything, and
      Ready was True before, or the interval is zero and Ready was not False. */
  lemma ReadyExact(s: Conditions, held: Held, i: Sights)
    ensures var end := EndOf(s, held, i);
      Final(s, i, end).ready == True <==>
            || end == Success
            || ((end == PatchFailed || end == Panicked) &&
                (s.ready == True || (i.interval == 0 && s.ready != False)))
  {
  }

  /** The run comes past the patch that a new generation starts with. */
  predicate Starts(s: Conditions, i: Sights) {
    i.generation == s.observed || i.earlyPatch
  }

  /** The secrets are found, if the target selects some, and the account has just these or can be written. */
  predicate AccountServed(held: Held, a: Account) {
    && (a.secrets.Some? ==> a.listOk && a.secrets.value != [])
    && a.getOk
    && (a.writeOk || (a.name in held && held[a.name] == if a.secrets.Some? then a.secrets.value else []))
  }

  /** How a run ends: it succeeds exactly with an access that can be read, a namespace that is there and an
      account, if one is asked for, that is served. */
  lemma EndExact(s: Conditions, held: Held, i: Sights)
    ensures var end := EndOf(s, held, i);
      && (end == PatchFailed <==> !Starts(s, i))
      && (end == Panicked <==> Starts(s, i) && i.access == MissingAccess)
      && (end == AccessInvalid <==> Starts(s, i) && i.access == InvalidAccess)
      && (end == NamespaceFailed <==> Starts(s, i) && i.access == ValidAccess && !i.namespaceOk)
      && (end == Success <==>
            && Starts(s, i) && i.access == ValidAccess && i.namespaceOk
            && (i.account.Some? ==> AccountServed(held, i.account.value)))
  {
  }

  /** The accounts: only a run that succeeds touches one, and only the one it is asked for, which gets the
      secrets found, or none without a selector. */
  lemma HeldExact(s: Conditions, held: Held, i: Sights, name: string)
    ensures var end := EndOf(s, held, i);
      var r := HeldAfter(held, i, end);
      if end == Success && i.account.Some? && i.account.value.name == name
      then name in r && r[name] == (if i.account.value.secrets.Some? then i.account.value.secrets.value else [])
      else (name in r <==> name in held) && (name in held ==> r[name] == held[name])
  {
  }

  /** The other conditions at the end of a run: a target is stalled by an access that cannot be read and by
      nothing else, and is said to be reconciling while a run that failed otherwise is to be repeated. */
  lemma ConditionsExact(s: Conditions, held: Held, i: Sights)
    ensures var end := EndOf(s, held, i);
      var c := Final(s, i, end);
      && (c.stalled == True <==> end == AccessInvalid) && (c.stalled == True || c.stalled == Unset)
      && c.reconciling == (if end == Success || end == AccessInvalid || i.interval == 0 then Unset else True)
      && (c.ready == False <==>
            || end == AccessInvalid || end == NamespaceFailed || end == AccountFailed
            || ((end == PatchFailed || end == Panicked) && s.ready == False))
      && c.observed == (if c.ready == True || c.stalled == True then i.generation else s.observed)
  {
  }

  // ----- whole runs -----

  /** A run that wrote, and how it ended: None if only its early patch arrived. */
  datatype Writer = Writer(end: Option<End>, sights: Sights)

  /** The stored object, and the accounts in the cluster; writer is the run that last wrote to the
      object, and latest what the last run met that succeeded, whether its patch arrived or not. */
  datatype State = State(
    conditions: Conditions,
    generation: int,
    interval: nat,
    held: Held,
    writer: Option<Writer>,
    latest: Option<Sights>)

  datatype Event =
    | Run(earlyPatch: bool, access: Access, namespaceOk: bool, account: Option<Account>, committed: bool)
    | Edit(interval: nat)

  function SightsOf(s: State, e: Event): Sights
    requires e.Run?
  {
    Sights(s.generation, s.interval, e.earlyPatch, e.access, e.namespaceOk, e.account)
  }

  function Apply(s: State, e: Event): State {
    match e
    case Edit(interval) => s.(generation := s.generation + 1, interval := interval)
    case Run(_, _, _, _, _) =>
      var i := SightsOf(s, e);
      var end := EndOf(s.conditions, s.held, i);
      var worked := s.(held := HeldAfter(s.held, i, end), latest := if end == Success then Some(i) else s.latest);
      if e.committed
      then worked.(conditions := Final(s.conditions, i, end), writer := Some(Writer(Some(end), i)))
      else if s.generation != s.conditions.observed && e.earlyPatch
      then worked.(conditions := InProgress(s.conditions), writer := Some(Writer(None, i)))
      else worked
  }

  /** A run whose last patch is lost leaves the stored conditions as they were, unless it began with the
      patch of a new generation: then they say that work is under way. */
  lemma LostPatch(s: State, e: Event)
    requires e.Run? && !e.committed
    ensures var c, d := s.conditions, Apply(s, e).conditions;
      if s.generation != c.observed && e.earlyPatch
      then
        && d.reconciling == True && d.stalled == Unset && d.observed == c.observed
        && d.ready == (if c.ready == Unset then Unknown else c.ready)
      else d == c
    ensures Apply(s, e).generation == s.generation && Apply(s, e).interval == s.interval
  {
  }

  function History(s: State, es: seq<Event>): State
    decreases |es|
  {
    if es == [] then s else History(Apply(s, es[0]), es[1..])
  }

  function Start(generation: int, interval: nat): State {
    State(Conditions(Unset, Unset, Unset, 0), generation, interval, map[], None, None)
  }

  /** The run that wrote last to the object ended like this. */
  predicate WroteLast(s: State, end: End) {
    s.writer.Some? && s.writer.value.end == Some(end)
  }

  /** Stalled excludes the other two; what is recorded as observed is not in the future. */
  predicate Kept(s: State) {
    var c := s.conditions;
    && c.observed <= s.generation
    && (c.stalled == True ==> c.ready == False && c.reconciling == Unset)
    && (c.stalled == Unset || c.stalled == True) && (c.reconciling == Unset || c.reconciling == True)
    && (c.stalled == True <==> WroteLast(s, AccessInvalid))
    && (WroteLast(s, AccessInvalid) ==> s.writer.value.sights.generation == c.observed)
  }

  lemma {:induction false} HistoryKeeps(s: State, es: seq<Event>)
    requires Kept(s)
    ensures Kept(History(s, es))
    decreases |es|
  {
    if es != [] {
      HistoryKeeps(Apply(s, es[0]), es[1..]);
    }
  }

  /** Ready and done: Ready=True, and no work under way. */
  predicate Settled(c: Conditions) { c.ready == True && c.reconciling == Unset }

  predicate Vouched(s: State) {
    Settled(s.conditions) <==> WroteLast(s, Success) && s.writer.value.sights.generation == s.conditions.observed
  }

  /** The interval is never zero. */
  predicate Positive(s: State, es: seq<Event>) {
    s.interval > 0 && forall e :: e in es && e.Edit? ==> e.interval > 0
  }

  lemma {:induction false} HistoryVouches(s: State, es: seq<Event>)
    requires Kept(s) && Vouched(s) && Positive(s, es)
    ensures Vouched(History(s, es))
    decreases |es|
  {
    if es != [] {
      assert es[0] in es && forall e :: e in es[1..] ==> e in es;
      HistoryVouches(Apply(s, es[0]), es[1..]);
    }
  }

  /** Over any history, patches lost or not: Stalled=True exactly when the run that wrote last met
      an access it could not read, and then the target is not ready and not reconciling. If the
      interval is never zero, Ready=True without Reconciling holds exactly when the run that wrote
      last succeeded on the generation recorded as observed. */
  lemma ConditionsVouch(generation: int, interval: nat, es: seq<Event>)
    requires generation > 0
    ensures
      var end := History(Start(generation, interval), es);
      && (end.conditions.stalled == True <==> WroteLast(end, AccessInvalid))
      && (end.conditions.stalled == True ==> end.conditions.ready == False && end.conditions.reconciling == Unset)
      && end.conditions.observed <= end.generation
      && (Positive(Start(generation, interval), es) ==>
            (Settled(end.conditions) <==>
              WroteLast(end, Success) && end.writer.value.sights.generation == end.conditions.observed))
  {
    var start := Start(generation, interval);
    HistoryKeeps(start, es);
    if Positive(start, es) {
      HistoryVouches(start, es);
    }
  }

  // ----- what a ready target vouches for -----

  /** The account of the last run that succeeded is as that run found it should be. */
  predicate Served(s: State) {
    && (WroteLast(s, Success) ==> s.latest.Some?)
    && (s.latest.Some? && s.latest.value.account.Some? ==> Right(s.held, s.latest.value.account.value))
  }

  lemma {:induction false} HistoryServes(s: State, es: seq<Event>)
    requires Served(s)
    ensures Served(History(s, es))
    decreases |es|
  {
    if es != [] {
      HistoryServes(Apply(s, es[0]), es[1..]);
    }
  }

  predicate NoneLost(es: seq<Event>) {
    forall e :: e in es && e.Run? ==> e.committed
  }

  lemma {:induction false} WriterIsLatest(s: State, es: seq<Event>)
    requires NoneLost(es) && (WroteLast(s, Success) ==> s.latest == Some(s.writer.value.sights))
    ensures var end := History(s, es); WroteLast(end, Success) ==> end.latest == Some(end.writer.value.sights)
    decreases |es|
  {
    if es != [] {
      assert es[0] in es && forall e :: e in es[1..] ==> e in es;
      WriterIsLatest(Apply(s, es[0]), es[1..]);
    }
  }

  /** Over any history, with intervals above zero: a target with Ready=True and no work under way has
      an account that holds exactly the secrets that the last successful run found for it; and with
      no patch lost that run is the one that made the target ready. */
  lemma ReadyServed(generation: int, interval: nat, es: seq<Event>)
    requires generation > 0 && Positive(Start(generation, interval), es)
    ensures
      var end := History(Start(generation, interval), es);
      Settled(end.conditions) ==>
        && end.latest.Some? && end.writer.Some?
        && (end.latest.value.account.Some? ==> Right(end.held, end.latest.value.account.value))
        && (NoneLost(es) ==> end.latest.value == end.writer.value.sights)
  {
    var start := Start(generation, interval);
    ConditionsVouch(generation, interval, es);
    HistoryServes(start, es);
    if NoneLost(es) {
      WriterIsLatest(start, es);
    }
  }

  /** With a zero interval a target without any access is reported ready, its generation observed,
      although its run panicked. */
  lemma ZeroIntervalMisleads()
    ensures
      var end := History(Start(1, 0), [Run(true, MissingAccess, true, None, true)]);
      Settled(end.conditions) && end.conditions.observed == 1 && WroteLast(end, Panicked)
  {
    var e := Run(true, MissingAccess, true, None, true);
    var next := Apply(Start(1, 0), e);
    assert [e][1..] == [];
    assert History(next, []) == next;
  }
}
