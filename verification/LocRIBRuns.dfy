/** All interleavings of table changes with registrations. A change holds the Loc-RIB's lock
    while it tells one client after another; an initial dump holds it for reading. Adding a
    client to the client list needs neither, so it can fall between any two calls. */
module LocRIBRuns {
  import opened Options
  import opened Prefixes
  import opened Paths
  import opened Routes
  import opened LocRIBs

  datatype Call = Call(client: Client, path: PathPtr)

  /** Where the holder of the write lock is. The client list is read twice, once before the
      withdrawals and once before the advertisements. */
  datatype Stage = Decided | Withdrawing(calls: seq<Call>) | Advertising(calls: seq<Call>)

  datatype Lock = Free | Held(pfx: Prefix, before: RouteCopy, stage: Stage)

  datatype Phase = Registered | Dumping(todo: seq<(Prefix, PathPtr)>) | Complete

  /** `narrowed` marks a client that has registered again with options that may give it less. */
  datatype ClientState = ClientState(options: ClientOptions, phase: Phase, view: View, narrowed: bool)

  datatype State = State(rib: Rib, clients: map<Client, ClientState>, lock: Lock)

  datatype Step =
    | Register(c: Client, o: ClientOptions)
    | StartDump(c: Client, dump: seq<(Prefix, PathPtr)>)
    | DumpPath(c: Client)
    | EndDump(c: Client)
    | Decide(change: Change, sorted: seq<PathPtr>)
    | ReadWithdrawals(calls: seq<Call>)
    | WithdrawPath
    | ReadAdvertisements(calls: seq<Call>)
    | AdvertisePath
    | Release

  // ---------------------------------------------------------------- steps

  const INITIAL := State(map[], map[], Free)

  predicate NobodyDumps(s: State) {
    forall c :: c in s.clients ==> !s.clients[c].phase.Dumping?
  }

  /** The calls the loop over the registered clients makes, in any order of the clients. */
  ghost predicate CallsFor(s: State, calls: seq<Call>, paths: (ClientOptions) -> seq<PathPtr>) {
    forall c, p :: Call(c, p) in calls <==> c in s.clients && p in paths(s.clients[c].options)
  }

  /** The dump cuts a route's list at its count; a count past the end would panic. */
  predicate InBounds(o: ClientOptions, r: RouteCopy) {
    DumpCount(o, r) <= |r.paths|
  }

  /** The calls of an initial dump, in any order of the prefixes. */
  ghost predicate DumpFor(s: State, o: ClientOptions, dump: seq<(Prefix, PathPtr)>) {
    && (forall k :: k in s.rib ==> InBounds(o, s.rib[k]))
    && (forall k, p :: (k, p) in dump <==> k in s.rib && p in s.rib[k].paths[..DumpCount(o, s.rib[k])])
  }

  ghost predicate Enabled(s: State, step: Step) {
    match step
    case Register(c, _) => c in s.clients ==> !s.clients[c].phase.Dumping?
    case StartDump(c, dump) =>
      c in s.clients && s.clients[c].phase.Registered? && s.lock.Free? && DumpFor(s, s.clients[c].options, dump)
    case DumpPath(c) => c in s.clients && s.clients[c].phase.Dumping? && s.clients[c].phase.todo != []
    case EndDump(c) => c in s.clients && s.clients[c].phase.Dumping? && s.clients[c].phase.todo == []
    case Decide(change, sorted) => s.lock.Free? && NobodyDumps(s) && MaySelect(s.rib, change, sorted)
    case ReadWithdrawals(calls) =>
      s.lock.Held? && s.lock.stage.Decided? &&
      CallsFor(s, calls, o => Withdrawals(o, s.lock.before, At(s.rib, s.lock.pfx)))
    case WithdrawPath => s.lock.Held? && s.lock.stage.Withdrawing? && s.lock.stage.calls != []
    case ReadAdvertisements(calls) =>
      s.lock.Held? && s.lock.stage.Withdrawing? && s.lock.stage.calls == [] &&
      CallsFor(s, calls, o => Advertisements(o, s.lock.before, At(s.rib, s.lock.pfx)))
    case AdvertisePath => s.lock.Held? && s.lock.stage.Advertising? && s.lock.stage.calls != []
    case Release => s.lock.Held? && s.lock.stage.Advertising? && s.lock.stage.calls == []
  }

  /** Options `o'` entitle to all that `o` entitles to. */
  ghost predicate Widens(o: ClientOptions, o': ClientOptions) {
    forall n: nat :: GetMaxPaths(o, n) <= GetMaxPaths(o', n)
  }

  lemma SelectedWidens(o: ClientOptions, o': ClientOptions, r: RouteCopy)
    requires Widens(o, o')
    ensures forall p :: p in Selected(o, r) ==> p in Selected(o', r)
  {
    assert GetMaxPaths(o, r.ecmpPaths) <= GetMaxPaths(o', r.ecmpPaths);
    var m, n := |Selected(o, r)|, |Selected(o', r)|;
    assert Selected(o', r)[..m] == Selected(o, r);
  }

  function WithView(s: State, c: Client, view: View): (r: State)
    requires c in s.clients
  {
    s.(clients := s.clients[c := s.clients[c].(view := view)])
  }

  function WithPhase(s: State, c: Client, phase: Phase): (r: State)
    requires c in s.clients
  {
    s.(clients := s.clients[c := s.clients[c].(phase := phase)])
  }

  function WithStage(s: State, stage: Stage): (r: State)
    requires s.lock.Held?
  {
    s.(lock := s.lock.(stage := stage))
  }

  /** Pending calls address clients that exist. */
  predicate WellFormedState(s: State) {
    s.lock.Held? && !s.lock.stage.Decided? ==>
      forall call :: call in s.lock.stage.calls ==> call.client in s.clients
  }

  ghost function Apply(s: State, step: Step): (r: State)
    requires Enabled(s, step) && WellFormedState(s)
  {
    match step
    case Register(c, o) =>
      if c !in s.clients then s.(clients := s.clients[c := ClientState(o, Registered, {}, false)])
      else
        var cs := s.clients[c];
        s.(clients := s.clients[c := ClientState(o, Registered, cs.view, cs.narrowed || !Widens(cs.options, o))])
    case StartDump(c, dump) => WithPhase(s, c, Dumping(dump))
    case DumpPath(c) =>
      var todo := s.clients[c].phase.todo;
      WithPhase(WithView(s, c, s.clients[c].view + {todo[0]}), c, Dumping(todo[1..]))
    case EndDump(c) => WithPhase(s, c, Complete)
    case Decide(change, sorted) =>
      State(Changed(s.rib, change.pfx, sorted), s.clients, Held(change.pfx, At(s.rib, change.pfx), Decided))
    case ReadWithdrawals(calls) => WithStage(s, Withdrawing(calls))
    case WithdrawPath =>
      var call := s.lock.stage.calls[0];
      WithStage(WithView(s, call.client, s.clients[call.client].view - {(s.lock.pfx, call.path)}),
                Withdrawing(s.lock.stage.calls[1..]))
    case ReadAdvertisements(calls) => WithStage(s, Advertising(calls))
    case AdvertisePath =>
      var call := s.lock.stage.calls[0];
      WithStage(WithView(s, call.client, s.clients[call.client].view + {(s.lock.pfx, call.path)}),
                Advertising(s.lock.stage.calls[1..]))
    case Release => s.(lock := Free)
  }

  // ---------------------------------------------------------------- the invariant

  /** No client may hold more of prefix `k` than this at the moment. */
  ghost predicate Allowed(s: State, c: Client, k: Prefix, p: PathPtr)
    requires c in s.clients
  {
    var o := s.clients[c].options;
    if s.lock.Free? || s.lock.pfx != k then p in Selected(o, At(s.rib, k))
    else match s.lock.stage
      case Decided => p in Selected(o, s.lock.before)
      case Withdrawing(calls) =>
        p in Selected(o, s.lock.before) && (p in Selected(o, At(s.rib, k)) || Call(c, p) in calls)
      case Advertising(_) => p in Selected(o, At(s.rib, k))
  }

  /** A client with a complete dump holds at least this. */
  ghost predicate Owed(s: State, c: Client, k: Prefix, p: PathPtr)
    requires c in s.clients
  {
    var o := s.clients[c].options;
    if s.lock.Free? || s.lock.pfx != k then p in Selected(o, At(s.rib, k))
    else match s.lock.stage
      case Decided => p in Selected(o, s.lock.before)
      case Withdrawing(_) => p in Selected(o, s.lock.before) && p in Selected(o, At(s.rib, k))
      case Advertising(calls) => p in Selected(o, At(s.rib, k)) && Call(c, p) !in calls
  }

  ghost predicate Follows(s: State, c: Client, cs: ClientState)
    requires c in s.clients
  {
    && (forall k, p :: (k, p) in cs.view ==> Allowed(s, c, k, p))
    && (cs.phase.Complete? ==> forall k, p :: Owed(s, c, k, p) ==> (k, p) in cs.view)
    && (cs.phase.Dumping? ==>
          && (forall e :: e in cs.phase.todo ==> e.1 in Selected(cs.options, At(s.rib, e.0)))
          && (forall k, p :: Owed(s, c, k, p) ==> (k, p) in cs.view || (k, p) in cs.phase.todo))
  }

  /** Clients are told what they need; only one that registers again for less keeps what its former
      options gave it. */
  ghost predicate Tracks(s: State, c: Client)
    requires c in s.clients
  {
    var cs := s.clients[c];
    && (cs.phase.Dumping? ==> s.lock.Free?)
    && (!cs.narrowed ==> Follows(s, c, cs))
  }

  /** Pending calls are withdrawals of paths no longer selected, if the client has been told
      everything, or advertisements of selected ones. */
  ghost predicate CallsOk(s: State) {
    s.lock.Held? && !s.lock.stage.Decided? ==>
      forall c, p :: Call(c, p) in s.lock.stage.calls ==>
        && c in s.clients
        && (!s.clients[c].narrowed ==>
              if s.lock.stage.Advertising? then p in Selected(s.clients[c].options, At(s.rib, s.lock.pfx))
              else s.clients[c].phase.Complete? ==> p !in Selected(s.clients[c].options, At(s.rib, s.lock.pfx)))
  }

  ghost predicate Inv(s: State) {
    && AllSettled(s.rib)
    && WellFormedState(s)
    && CallsOk(s)
    && forall c :: c in s.clients ==> Tracks(s, c)
  }

  // ---------------------------------------------------------------- every step keeps it

  ghost predicate Ready(s: State, step: Step, c: Client) {
    Enabled(s, step) && AllSettled(s.rib) && WellFormedState(s) && CallsOk(s) && c in s.clients && Tracks(s, c)
  }

  lemma RegisterKeeps(s: State, step: Step, c: Client)
    requires step.Register? && Enabled(s, step) && WellFormedState(s) && CallsOk(s)
    requires c in s.clients ==> Tracks(s, c)
    requires c in Apply(s, step).clients
    ensures Tracks(Apply(s, step), c)
  {
    if c == step.c && c in s.clients && !Apply(s, step).clients[c].narrowed {
      forall k, p | (k, p) in s.clients[c].view
        ensures Allowed(Apply(s, step), c, k, p)
      {
        assert Allowed(s, c, k, p);
        SelectedWidens(s.clients[c].options, step.o, At(s.rib, k));
        if s.lock.Held? {
          SelectedWidens(s.clients[c].options, step.o, s.lock.before);
        }
      }
    }
  }

  lemma StartDumpKeeps(s: State, step: Step, c: Client)
    requires step.StartDump? && Ready(s, step, c)
    ensures Tracks(Apply(s, step), c)
  {
    var o := s.clients[step.c].options;
    forall k | k in s.rib
      ensures s.rib[k].paths[..DumpCount(o, s.rib[k])] == Selected(o, s.rib[k])
    {
      DumpCountSelects(o, s.rib[k]);
    }
  }

  lemma DumpPathKeeps(s: State, step: Step, c: Client)
    requires step.DumpPath? && Ready(s, step, c)
    ensures Tracks(Apply(s, step), c)
  {
    var todo := s.clients[step.c].phase.todo;
    assert todo == [todo[0]] + todo[1..];
  }

  lemma EndDumpKeeps(s: State, step: Step, c: Client)
    requires step.EndDump? && Ready(s, step, c)
    ensures Tracks(Apply(s, step), c)
  {
  }

  lemma DecideKeeps(s: State, step: Step, c: Client)
    requires step.Decide? && Ready(s, step, c)
    ensures Tracks(Apply(s, step), c)
  {
  }

  lemma ReadWithdrawalsKeeps(s: State, step: Step, c: Client)
    requires step.ReadWithdrawals? && Ready(s, step, c)
    ensures Tracks(Apply(s, step), c)
  {
  }

  lemma WithdrawPathKeeps(s: State, step: Step, c: Client)
    requires step.WithdrawPath? && Ready(s, step, c)
    ensures Tracks(Apply(s, step), c)
  {
    var calls := s.lock.stage.calls;
    assert calls == [calls[0]] + calls[1..];
    assert Call(calls[0].client, calls[0].path) in calls;
  }

  lemma ReadAdvertisementsKeeps(s: State, step: Step, c: Client)
    requires step.ReadAdvertisements? && Ready(s, step, c)
    ensures Tracks(Apply(s, step), c)
  {
  }

  lemma AdvertisePathKeeps(s: State, step: Step, c: Client)
    requires step.AdvertisePath? && Ready(s, step, c)
    ensures Tracks(Apply(s, step), c)
  {
    var calls := s.lock.stage.calls;
    assert calls == [calls[0]] + calls[1..];
    assert Call(calls[0].client, calls[0].path) in calls;
  }

  lemma ReleaseKeeps(s: State, step: Step, c: Client)
    requires step.Release? && Ready(s, step, c)
    ensures Tracks(Apply(s, step), c)
  {
  }

  /** What may become of a client while a change is in progress. */
  ghost predicate Succeeds(cs: ClientState, ds: ClientState) {
    ds.narrowed || (
      && !cs.narrowed
      && (ds.options == cs.options || (Widens(cs.options, ds.options) && !ds.phase.Complete?))
      && (ds.phase.Complete? ==> cs.phase.Complete?))
  }

  /** Fewer calls, and clients that are the same or have registered again, keep the calls right. */
  lemma FewerCalls(s: State, t: State)
    requires WellFormedState(s) && CallsOk(s) && s.lock.Held? && t.lock.Held? && t.rib == s.rib
    requires t.lock.pfx == s.lock.pfx && s.clients.Keys <= t.clients.Keys
    requires forall c :: c in s.clients ==> Succeeds(s.clients[c], t.clients[c])
    requires !t.lock.stage.Decided? ==>
               && !s.lock.stage.Decided?
               && (t.lock.stage.Advertising? <==> s.lock.stage.Advertising?)
               && forall x :: x in t.lock.stage.calls ==> x in s.lock.stage.calls
    ensures WellFormedState(t) && CallsOk(t)
  {
    hide Selected;
    if !t.lock.stage.Decided? && t.lock.stage.Advertising? {
      forall c, p | Call(c, p) in t.lock.stage.calls && !t.clients[c].narrowed
        ensures p in Selected(t.clients[c].options, At(t.rib, t.lock.pfx))
      {
        if t.clients[c].options != s.clients[c].options {
          SelectedWidens(s.clients[c].options, t.clients[c].options, At(t.rib, t.lock.pfx));
        }
      }
    }
  }

  lemma CallsRead(s: State, step: Step)
    requires Inv(s) && Enabled(s, step) && (step.ReadWithdrawals? || step.ReadAdvertisements?)
    ensures WellFormedState(Apply(s, step)) && CallsOk(Apply(s, step))
  {
    hide Tracks, Selected, AllSettled;
  }

  lemma DumpingIsFree(s: State, c: Client)
    requires Inv(s) && c in s.clients && s.clients[c].phase.Dumping?
    ensures s.lock.Free?
  {
    assert Tracks(s, c);
  }

  lemma CallsKept(s: State, step: Step)
    requires Inv(s) && Enabled(s, step)
    ensures WellFormedState(Apply(s, step)) && CallsOk(Apply(s, step))
  {
    hide Tracks, Selected, AllSettled, DumpFor, MaySelect, Changed;
    var t := Apply(s, step);
    if step.ReadWithdrawals? || step.ReadAdvertisements? {
      CallsRead(s, step);
    } else if t.lock.Held? && s.lock.Held? {
      if step.EndDump? {
        DumpingIsFree(s, step.c);
      }
      hide Widens;
      FewerCalls(s, t);
    }
  }

  /** Every step of every participant keeps the invariant. */
  lemma StepKeepsInv(s: State, step: Step)
    requires Inv(s) && Enabled(s, step)
    ensures Inv(Apply(s, step))
  {
    CallsKept(s, step);
    if step.Decide? {
      ChangedSettles(s.rib, step.change.pfx, step.sorted);
    }
    forall c | c in Apply(s, step).clients
      ensures Tracks(Apply(s, step), c)
    {
      match step
      case Register(_, _) => RegisterKeeps(s, step, c);
      case StartDump(_, _) => StartDumpKeeps(s, step, c);
      case DumpPath(_) => DumpPathKeeps(s, step, c);
      case EndDump(_) => EndDumpKeeps(s, step, c);
      case Decide(_, _) => DecideKeeps(s, step, c);
      case ReadWithdrawals(_) => ReadWithdrawalsKeeps(s, step, c);
      case WithdrawPath => WithdrawPathKeeps(s, step, c);
      case ReadAdvertisements(_) => ReadAdvertisementsKeeps(s, step, c);
      case AdvertisePath => AdvertisePathKeeps(s, step, c);
      case Release => ReleaseKeeps(s, step, c);
    }
  }

  // ---------------------------------------------------------------- every run

  ghost predicate Steps(s: State, s': State) {
    exists step :: Enabled(s, step) && WellFormedState(s) && Apply(s, step) == s'
  }

  /** `run` is a sequence of states from the initial one, each reached by a step. */
  ghost predicate IsRun(run: seq<State>) {
    && run != [] && run[0] == INITIAL
    && forall i :: 0 <= i < |run| - 1 ==> Steps(run[i], run[i + 1])
  }

  lemma {:induction false} RunKeepsInv(run: seq<State>, i: nat)
    requires IsRun(run) && i < |run|
    ensures Inv(run[i])
  {
    if i > 0 {
      RunKeepsInv(run, i - 1);
      assert Steps(run[i - 1], run[(i - 1) + 1]);
      var step :| Enabled(run[i - 1], step) && WellFormedState(run[i - 1]) && Apply(run[i - 1], step) == run[i];
      StepKeepsInv(run[i - 1], step);
    }
  }

  /** In every run, whenever no change is in progress, a client that never registered again for less
      holds only selected paths, and once its dump is complete it holds all of them. */
  lemma QuiescentViews(run: seq<State>, i: nat, c: Client)
    requires IsRun(run) && i < |run| && run[i].lock.Free? && c in run[i].clients && !run[i].clients[c].narrowed
    ensures var cs := run[i].clients[c];
            && (forall k, p :: (k, p) in cs.view ==> p in Selected(cs.options, At(run[i].rib, k)))
            && (cs.phase.Complete? ==> InSync(cs.options, run[i].rib, cs.view))
  {
    RunKeepsInv(run, i);
    assert Tracks(run[i], c);
    var cs := run[i].clients[c];
    forall k, p | (k, p) in cs.view
      ensures p in Selected(cs.options, At(run[i].rib, k))
    {
      assert Allowed(run[i], c, k, p);
    }
    if cs.phase.Complete? {
      forall k, p | p in Selected(cs.options, At(run[i].rib, k))
        ensures (k, p) in cs.view
      {
        assert Owed(run[i], c, k, p);
      }
    }
  }

  /** In every run an initial dump, whatever the client's options, cuts no list past its end. */
  lemma DumpNeverPanics(run: seq<State>, i: nat, o: ClientOptions, k: Prefix)
    requires IsRun(run) && i < |run| && k in run[i].rib
    ensures InBounds(o, run[i].rib[k])
  {
    RunKeepsInv(run, i);
    DumpCountSelects(o, run[i].rib[k]);
  }

  /** In the middle of a change, too, a client never holds a path that was neither selected
      before nor is selected now. */
  lemma ViewsNeverStray(run: seq<State>, i: nat, c: Client, k: Prefix, p: PathPtr)
    requires IsRun(run) && i < |run| && c in run[i].clients && !run[i].clients[c].narrowed
    requires (k, p) in run[i].clients[c].view
    ensures var s := run[i];
            || p in Selected(s.clients[c].options, At(s.rib, k))
            || (s.lock.Held? && s.lock.pfx == k && p in Selected(s.clients[c].options, s.lock.before))
  {
    RunKeepsInv(run, i);
    assert Tracks(run[i], c);
    assert Allowed(run[i], c, k, p);
  }

  /** A registration puts the new options in force and asks for a dump, and takes nothing back that
      the client has been told. */
  lemma RegistrationTakesEffect(s: State, c: Client, o: ClientOptions)
    requires Enabled(s, Register(c, o)) && WellFormedState(s)
    ensures var t := Apply(s, Register(c, o));
            && t.rib == s.rib && t.lock == s.lock && t.clients.Keys == s.clients.Keys + {c}
            && t.clients[c].options == o && t.clients[c].phase.Registered?
            && t.clients[c].view == (if c in s.clients then s.clients[c].view else {})
            && forall d :: d in s.clients && d != c ==> t.clients[d] == s.clients[d]
  {
  }

  /** A client counts as one that registered again for less exactly from the step on in which it is
      given options under which some route would yield fewer paths. */
  lemma NarrowedIff(s: State, step: Step, c: Client)
    requires Enabled(s, step) && WellFormedState(s) && c in Apply(s, step).clients
    ensures Apply(s, step).clients[c].narrowed <==>
            c in s.clients &&
            (|| s.clients[c].narrowed
             || (step.Register? && step.c == c &&
                 exists n: nat :: GetMaxPaths(s.clients[c].options, n) > GetMaxPaths(step.o, n)))
  {
    hide CallsFor, DumpFor, MaySelect, Changed;
    if step.Register? && step.c == c && c in s.clients && !Widens(s.clients[c].options, step.o) {
      var n: nat :| GetMaxPaths(s.clients[c].options, n) > GetMaxPaths(step.o, n);
    }
  }

  // ---------------------------------------------------------------- no run gets stuck

  ghost function Last(run: seq<State>): (s: State)
    requires run != []
  {
    run[|run| - 1]
  }

  /** Nothing may differ but views, the phases of some clients, and how far a change has got. */
  ghost predicate OnlyTells(s: State, t: State, cs: set<Client>) {
    && t.rib == s.rib && t.clients.Keys == s.clients.Keys
    && forall d :: d in s.clients ==>
         && t.clients[d].options == s.clients[d].options
         && t.clients[d].narrowed == s.clients[d].narrowed
         && (d !in cs ==> t.clients[d].phase == s.clients[d].phase)
  }

  lemma InvIsWellFormed(s: State)
    requires Inv(s)
    ensures WellFormedState(s)
  {
    hide Tracks, CallsOk, AllSettled;
  }

  lemma Extend(run: seq<State>, step: Step) returns (more: seq<State>)
    requires IsRun(run) && Enabled(Last(run), step)
    ensures Inv(Last(run)) && IsRun(more) && run <= more && Last(more) == Apply(Last(run), step)
  {
    hide Enabled, Apply, Inv;
    RunKeepsInv(run, |run| - 1);
    InvIsWellFormed(Last(run));
    more := run + [Apply(Last(run), step)];
    forall i | 0 <= i < |more| - 1
      ensures Steps(more[i], more[i + 1])
    {
      assert i < |run| - 1 ==> Steps(run[i], run[i + 1]);
    }
  }

  /** The calls for some clients, one after the other. */
  lemma CallsOver(s: State, clients: set<Client>, paths: (ClientOptions) -> seq<PathPtr>) returns (calls: seq<Call>)
    requires clients <= s.clients.Keys
    ensures forall c, p :: Call(c, p) in calls <==> c in clients && p in paths(s.clients[c].options)
  {
    calls := [];
    var todo := clients;
    while todo != {}
      invariant todo <= clients
      invariant forall c, p :: Call(c, p) in calls <==> c in clients - todo && p in paths(s.clients[c].options)
    {
      var c :| c in todo;
      var ps := paths(s.clients[c].options);
      var own := seq(|ps|, i requires 0 <= i < |ps| => Call(c, ps[i]));
      assert forall p :: p in ps ==> Call(c, p) in own by {
        forall p | p in ps
          ensures Call(c, p) in own
        {
          var i :| 0 <= i < |ps| && ps[i] == p;
          assert own[i] == Call(c, p);
        }
      }
      calls := calls + own;
      todo := todo - {c};
    }
  }

  lemma DumpOver(s: State, o: ClientOptions) returns (dump: seq<(Prefix, PathPtr)>)
    requires AllSettled(s.rib)
    ensures DumpFor(s, o, dump)
  {
    forall k | k in s.rib
      ensures InBounds(o, s.rib[k])
    {
      DumpCountSelects(o, s.rib[k]);
    }
    hide DumpCount, Settled;
    dump := [];
    var todo := s.rib.Keys;
    while todo != {}
      invariant todo <= s.rib.Keys
      invariant forall k, p :: (k, p) in dump <==> k in s.rib.Keys - todo && p in s.rib[k].paths[..DumpCount(o, s.rib[k])]
    {
      var k :| k in todo;
      var ps := s.rib[k].paths[..DumpCount(o, s.rib[k])];
      var own := seq(|ps|, i requires 0 <= i < |ps| => (k, ps[i]));
      assert forall p :: p in ps ==> (k, p) in own by {
        forall p | p in ps
          ensures (k, p) in own
        {
          var i :| 0 <= i < |ps| && ps[i] == p;
          assert own[i] == (k, p);
        }
      }
      dump := dump + own;
      todo := todo - {k};
    }
  }

  /** The step a dump takes next. */
  lemma NextOfDump(s: State, c: Client) returns (step: Step)
    requires c in s.clients && s.clients[c].phase.Dumping? && WellFormedState(s)
    ensures Enabled(s, step) && OnlyTells(s, Apply(s, step), {c}) && Apply(s, step).lock == s.lock
    ensures var before, after := s.clients[c].phase, Apply(s, step).clients[c].phase;
            after.Complete? || (after.Dumping? && |after.todo| < |before.todo|)
  {
    step := if s.clients[c].phase.todo == [] then EndDump(c) else DumpPath(c);
  }

  /** A dump that has begun can be finished. */
  lemma FinishDump(run: seq<State>, c: Client) returns (more: seq<State>)
    requires IsRun(run) && c in Last(run).clients && Last(run).clients[c].phase.Dumping? && Last(run).lock.Free?
    ensures IsRun(more) && run <= more && OnlyTells(Last(run), Last(more), {c})
    ensures Last(more).clients[c].phase.Complete? && Last(more).lock.Free?
    decreases |Last(run).clients[c].phase.todo|
  {
    hide Steps, Inv, Enabled, Apply, WellFormedState;
    RunKeepsInv(run, |run| - 1);
    InvIsWellFormed(Last(run));
    var step := NextOfDump(Last(run), c);
    more := Extend(run, step);
    if Last(more).clients[c].phase.Dumping? {
      more := FinishDump(more, c);
    }
  }

  function StagesLeft(stage: Stage): (n: nat) {
    match stage
    case Decided => 2
    case Withdrawing(_) => 1
    case Advertising(_) => 0
  }

  function CallsLeft(stage: Stage): (n: nat) {
    if stage.Decided? then 0 else |stage.calls|
  }

  /** The step the holder of the lock takes next. */
  lemma NextOfChange(s: State) returns (step: Step)
    requires s.lock.Held? && WellFormedState(s)
    ensures Enabled(s, step) && OnlyTells(s, Apply(s, step), {})
    ensures var t := Apply(s, step);
            t.lock.Held? ==>
              || StagesLeft(t.lock.stage) < StagesLeft(s.lock.stage)
              || (StagesLeft(t.lock.stage) == StagesLeft(s.lock.stage) && CallsLeft(t.lock.stage) < CallsLeft(s.lock.stage))
  {
    hide Withdrawals, Advertisements, At;
    if s.lock.stage.Decided? {
      var calls := CallsOver(s, s.clients.Keys, o => Withdrawals(o, s.lock.before, At(s.rib, s.lock.pfx)));
      step := ReadWithdrawals(calls);
    } else if s.lock.stage.Withdrawing? && s.lock.stage.calls == [] {
      var calls := CallsOver(s, s.clients.Keys, o => Advertisements(o, s.lock.before, At(s.rib, s.lock.pfx)));
      step := ReadAdvertisements(calls);
    } else if s.lock.stage.Withdrawing? {
      step := WithdrawPath;
    } else if s.lock.stage.calls != [] {
      step := AdvertisePath;
    } else {
      step := Release;
    }
  }

  /** A change that has begun can be finished. */
  lemma FinishChange(run: seq<State>) returns (more: seq<State>)
    requires IsRun(run)
    ensures IsRun(more) && run <= more && OnlyTells(Last(run), Last(more), {}) && Last(more).lock.Free?
    decreases Last(run).lock.Held?, if Last(run).lock.Held? then StagesLeft(Last(run).lock.stage) else 0,
              if Last(run).lock.Held? then CallsLeft(Last(run).lock.stage) else 0
  {
    hide Steps, Inv, Enabled, Apply, WellFormedState;
    if Last(run).lock.Free? {
      more := run;
    } else {
      RunKeepsInv(run, |run| - 1);
      InvIsWellFormed(Last(run));
      var step := NextOfChange(Last(run));
      var next := Extend(run, step);
      more := FinishChange(next);
    }
  }

  /** Without a change in progress every client can be given a complete dump. */
  lemma FinishClient(run: seq<State>, c: Client) returns (more: seq<State>)
    requires IsRun(run) && c in Last(run).clients && Last(run).lock.Free?
    ensures IsRun(more) && run <= more && OnlyTells(Last(run), Last(more), {c})
    ensures Last(more).clients[c].phase.Complete? && Last(more).lock.Free?
  {
    hide Steps, DumpFor;
    var s := Last(run);
    match s.clients[c].phase
    case Complete => more := run;
    case Dumping(_) => more := FinishDump(run, c);
    case Registered =>
      RunKeepsInv(run, |run| - 1);
      var dump := DumpOver(s, s.clients[c].options);
      hide Inv;
      var next := Extend(run, StartDump(c, dump));
      more := FinishDump(next, c);
  }

  /** No run gets stuck: whatever the participants are in the middle of, the calls that are still
      due lead to where no change is in progress and every registered client has had its dump, and
      then everyone that never registered again for less holds exactly what it is entitled to. */
  lemma EveryRunSettles(run: seq<State>) returns (all: seq<State>)
    requires IsRun(run)
    ensures IsRun(all) && run <= all && OnlyTells(Last(run), Last(all), Last(run).clients.Keys)
    ensures Last(all).lock.Free? && forall c :: c in Last(all).clients ==> Last(all).clients[c].phase.Complete?
    ensures forall c :: c in Last(all).clients && !Last(all).clients[c].narrowed ==>
              InSync(Last(all).clients[c].options, Last(all).rib, Last(all).clients[c].view)
  {
    hide Steps, InSync;
    all := FinishChange(run);
    var todo := Last(run).clients.Keys;
    while todo != {}
      invariant IsRun(all) && run <= all && OnlyTells(Last(run), Last(all), Last(run).clients.Keys)
      invariant Last(all).lock.Free? && todo <= Last(run).clients.Keys
      invariant forall c :: c in Last(run).clients && c !in todo ==> Last(all).clients[c].phase.Complete?
    {
      var c :| c in todo;
      all := FinishClient(all, c);
      todo := todo - {c};
    }
    forall c | c in Last(all).clients && !Last(all).clients[c].narrowed
      ensures InSync(Last(all).clients[c].options, Last(all).rib, Last(all).clients[c].view)
    {
      QuiescentViews(all, |all| - 1, c);
    }
  }

  /** And then any change among BGP paths can be made. */
  lemma AnyChangeCanBeMade(run: seq<State>, change: Change) returns (all: seq<State>, sorted: seq<PathPtr>)
    requires IsRun(run) && Unsorted(Last(run).rib, change).Some? && AllBGP(Unsorted(Last(run).rib, change).value)
    ensures IsRun(all) && run <= all && MaySelect(Last(run).rib, change, sorted)
    ensures Last(all).rib == Changed(Last(run).rib, change.pfx, sorted)
  {
    hide Steps, InSync, Unsorted;
    all := EveryRunSettles(run);
    sorted := Unsorted(Last(run).rib, change).value;
    UniformNeverPanics(sorted);
    all := Extend(all, Decide(change, sorted));
  }
}
