/** The queue between the RIB and one RIS observer: any number of producers append under a
    mutex and signal through a channel with one slot, one consumer waits for the signal and
    takes everything. Every statement that can interleave is a step of its own. */
module UpdateQueues {
  import opened Options

  /** Where the holder of the mutex is. */
  datatype Lock<U> = Free | Entered(update: U) | Appended | Sent | Consuming

  /** Where the consumer is: before the receive, after it, inside the mutex, holding a batch. */
  datatype Consumer<U> = AtReceive | PastReceive | Locked | Holding(batch: seq<U>)

  /** `queued` and `batches` record the history: what was appended and what dequeue returned.
      `overtaken` records that a signal was sent since the consumer last received one and before
      it took the mutex. */
  datatype State<U> = State(data: seq<U>, token: bool, lock: Lock<U>, consumer: Consumer<U>,
                            queued: seq<U>, batches: seq<seq<U>>, overtaken: bool)

  datatype Step<U> =
    | ProducerLock(u: U) | Append | Send | ProducerUnlock
    | Receive | ConsumerLock | Take | Return

  function Initial<U>(): (s: State<U>) {
    State([], false, Free, AtReceive, [], [], false)
  }

  predicate Enabled<U>(s: State<U>, step: Step<U>) {
    match step
    case ProducerLock(_) => s.lock.Free?
    case Append => s.lock.Entered?
    case Send => s.lock.Appended?
    case ProducerUnlock => s.lock.Sent?
    case Receive => s.consumer.AtReceive? && s.token
    case ConsumerLock => s.consumer.PastReceive? && s.lock.Free?
    case Take => s.consumer.Locked?
    case Return => s.consumer.Holding?
  }

  function Apply<U>(s: State<U>, step: Step<U>): (r: State<U>)
    requires Enabled(s, step)
  {
    match step
    case ProducerLock(u) => s.(lock := Entered(u))
    case Append => s.(data := s.data + [s.lock.update], queued := s.queued + [s.lock.update], lock := Appended)
    case Send =>  // a full slot is left as it is
      s.(token := true, lock := Sent, overtaken := s.overtaken || s.consumer.PastReceive?)
    case ProducerUnlock => s.(lock := Free)
    case Receive => s.(token := false, consumer := PastReceive, overtaken := false)
    case ConsumerLock => s.(lock := Consuming, consumer := Locked)
    case Take => s.(data := [], consumer := Holding(s.data))
    case Return => s.(lock := Free, consumer := AtReceive, batches := s.batches + [s.consumer.batch])
  }

  ghost predicate Legal<U>(s: State<U>, steps: seq<Step<U>>)
    decreases |steps|
  {
    steps == [] || (Enabled(s, steps[0]) && Legal(Apply(s, steps[0]), steps[1..]))
  }

  ghost function Run<U>(s: State<U>, steps: seq<Step<U>>): (r: State<U>)
    requires Legal(s, steps)
    decreases |steps|
  {
    if steps == [] then s else Run(Apply(s, steps[0]), steps[1..])
  }

  // ---------------------------------------------------------------- invariants

  function Concat<U>(batches: seq<seq<U>>): (r: seq<U>) {
    if batches == [] then [] else Concat(batches[..|batches| - 1]) + batches[|batches| - 1]
  }

  /** All batches taken so far, with the one being returned. */
  function Taken<U>(s: State<U>): (r: seq<seq<U>>) {
    if s.consumer.Holding? then s.batches + [s.consumer.batch] else s.batches
  }

  /** Nothing is lost, duplicated or reordered. */
  ghost predicate InOrder<U>(s: State<U>) {
    Concat(Taken(s)) + s.data == s.queued
  }

  /** Pending data always has someone to announce it: the token, a consumer that has already
      received it, or a producer about to send it. */
  ghost predicate Announced<U>(s: State<U>) {
    s.data != [] ==> s.token || s.consumer.PastReceive? || s.consumer.Locked? || s.lock.Appended?
  }

  ghost predicate MutualExclusion<U>(s: State<U>) {
    s.lock.Consuming? <==> s.consumer.Locked? || s.consumer.Holding?
  }

  /** The last take, if any, came away empty. */
  predicate LastWasEmpty<U>(s: State<U>) {
    Taken(s) == [] || Taken(s)[|Taken(s)| - 1] == []
  }

  /** An empty batch is never the first one and never follows another empty one. */
  ghost predicate NoTwoEmpty<U>(taken: seq<seq<U>>) {
    forall i :: 0 <= i < |taken| && taken[i] == [] ==> i > 0 && taken[i - 1] != []
  }

  /** Outside the receive the slot is full exactly if the consumer was overtaken; at the receive
      that is so unless there is data to signal. */
  ghost predicate SlotExplained<U>(s: State<U>) {
    && (s.overtaken ==> s.token)
    && (s.token && !s.overtaken ==> s.consumer.AtReceive? && s.data != [])
  }

  ghost predicate Inv<U>(s: State<U>) {
    && SlotExplained(s)
    && InOrder(s)
    && Announced(s)
    && MutualExclusion(s)
    && NoTwoEmpty(Taken(s))
    && (s.lock.Appended? || s.lock.Sent? ==> s.data != [])
    && (s.consumer.PastReceive? || s.consumer.Locked? ==> (s.token ==> s.data != []))
    && (LastWasEmpty(s) ==>
          if s.consumer.PastReceive? || s.consumer.Locked? then s.data != [] else s.token ==> s.data != [])
  }

  lemma ConcatAppend<U>(batches: seq<seq<U>>, batch: seq<U>)
    ensures Concat(batches + [batch]) == Concat(batches) + batch
  {
    assert (batches + [batch])[..|batches|] == batches;
  }

  lemma StepKeepsOrder<U>(s: State<U>, step: Step<U>)
    requires InOrder(s) && Enabled(s, step)
    ensures InOrder(Apply(s, step))
  {
    match step
    case Append =>
      assert Concat(Taken(s)) + (s.data + [s.lock.update]) == (Concat(Taken(s)) + s.data) + [s.lock.update];
    case Take =>
      ConcatAppend(s.batches, s.data);
    case _ =>
  }

  lemma StepKeepsInv<U>(s: State<U>, step: Step<U>)
    requires Inv(s) && Enabled(s, step)
    ensures Inv(Apply(s, step))
  {
    StepKeepsOrder(s, step);
    var r := Apply(s, step);
    match step
    case Take =>
      assert Taken(r) == Taken(s) + [s.data];
      assert NoTwoEmpty(Taken(r));
    case _ =>
      assert Taken(r) == Taken(s);
  }

  // ---------------------------------------------------------------- every run

  lemma {:induction false} RunKeepsInv<U>(s: State<U>, steps: seq<Step<U>>)
    requires Inv(s) && Legal(s, steps)
    ensures Inv(Run(s, steps))
    decreases |steps|
  {
    if steps != [] {
      StepKeepsInv(s, steps[0]);
      RunKeepsInv(Apply(s, steps[0]), steps[1..]);
    }
  }

  lemma ReachableInv<U>(steps: seq<Step<U>>)
    requires Legal(Initial<U>(), steps)
    ensures Inv(Run(Initial<U>(), steps))
  {
    RunKeepsInv(Initial(), steps);
  }

  /** In every interleaving the batches, followed by what is pending, are the queued updates in
      order, and pending updates are always announced. */
  lemma EveryRunInOrder<U>(steps: seq<Step<U>>)
    requires Legal(Initial<U>(), steps)
    ensures var s := Run(Initial<U>(), steps);
            && Concat(Taken(s)) + s.data == s.queued
            && Announced(s) && MutualExclusion(s)
  {
    RunKeepsInv(Initial(), steps);
  }

  /** No wake-up is lost: a consumer that would block finds, once no producer is in the middle
      of a call, an empty queue and every update delivered. */
  lemma BlockedMeansDelivered<U>(steps: seq<Step<U>>)
    requires Legal(Initial<U>(), steps)
    ensures var s := Run(Initial<U>(), steps);
            s.consumer.AtReceive? && !s.token && s.lock.Free? ==> s.data == [] && Concat(s.batches) == s.queued
  {
    RunKeepsInv(Initial(), steps);
  }

  lemma {:induction false} RunAppend<U>(s: State<U>, steps: seq<Step<U>>, step: Step<U>)
    requires Legal(s, steps) && Enabled(Run(s, steps), step)
    ensures Legal(s, steps + [step]) && Run(s, steps + [step]) == Apply(Run(s, steps), step)
    decreases |steps|
  {
    var all := steps + [step];
    if steps == [] {
      assert all[1..] == [];
    } else {
      assert all[1..] == steps[1..] + [step];
      RunAppend(Apply(s, steps[0]), steps[1..], step);
    }
  }

  ghost predicate OvertakesAt<U>(steps: seq<Step<U>>, i: int, j: int) {
    && 0 <= i < j < |steps| && steps[i].Receive? && steps[j].Send?
    && (forall k :: i < k < |steps| ==> !steps[k].Receive?)
    && (forall k :: i < k < j ==> !steps[k].ConsumerLock?)
  }

  /** The interleaving in question, read off the steps of a run: a producer signals after the
      consumer's last receive and before the consumer locks. */
  ghost predicate Overtakes<U>(steps: seq<Step<U>>) {
    exists i, j :: OvertakesAt(steps, i, j)
  }

  /** Nothing but a lock takes the consumer past its receive. */
  ghost predicate PastSince<U>(steps: seq<Step<U>>, i: int) {
    && 0 <= i < |steps| && steps[i].Receive?
    && forall k :: i < k < |steps| ==> !steps[k].Receive? && !steps[k].ConsumerLock?
  }

  lemma SplitLast<U>(s: State<U>, steps: seq<Step<U>>)
    requires Legal(s, steps) && steps != []
    ensures var front, last := steps[..|steps| - 1], steps[|steps| - 1];
            Legal(s, front) && Enabled(Run(s, front), last) && Run(s, steps) == Apply(Run(s, front), last)
    decreases |steps|
  {
    var front := steps[..|steps| - 1];
    if |steps| > 1 {
      SplitLast(Apply(s, steps[0]), steps[1..]);
      assert front[1..] == steps[1..][..|steps| - 2];
    }
  }

  /** The consumer is past its receive exactly after a receive that no lock has followed. */
  lemma {:induction false} PastReceiveIff<U>(steps: seq<Step<U>>)
    requires Legal(Initial<U>(), steps)
    ensures Run(Initial<U>(), steps).consumer.PastReceive? <==> exists i :: PastSince(steps, i)
    decreases |steps|
  {
    if steps != [] {
      var n := |steps| - 1;
      var front, last := steps[..n], steps[n];
      SplitLast(Initial(), steps);
      PastReceiveIff(front);
      forall i | 0 <= i < n
        ensures PastSince(steps, i) <==> PastSince(front, i) && !last.Receive? && !last.ConsumerLock?
      {
        if PastSince(steps, i) {
          assert forall k :: i < k < n ==> front[k] == steps[k];
        }
      }
      assert PastSince(steps, n) <==> last.Receive?;
    }
  }

  lemma {:induction false} OvertakenIff<U>(steps: seq<Step<U>>)
    requires Legal(Initial<U>(), steps)
    ensures Run(Initial<U>(), steps).overtaken <==> Overtakes(steps)
    decreases |steps|
  {
    if steps != [] {
      var n := |steps| - 1;
      var front, last := steps[..n], steps[n];
      SplitLast(Initial(), steps);
      OvertakenIff(front);
      PastReceiveIff(front);
      forall i, j | 0 <= i < j < n
        ensures OvertakesAt(steps, i, j) <==> OvertakesAt(front, i, j) && !last.Receive?
      {
        if OvertakesAt(steps, i, j) {
          assert forall k :: i < k < n ==> front[k] == steps[k];
        }
      }
      forall i | 0 <= i < n
        ensures OvertakesAt(steps, i, n) <==> PastSince(front, i) && last.Send?
      {
        if OvertakesAt(steps, i, n) {
          assert forall k :: i < k < n ==> front[k] == steps[k];
        }
      }
    }
  }

  /** Exactly when dequeue, called on an empty queue, goes on instead of blocking, and so may
      return an empty batch: in every run, when a producer has signalled between the consumer's
      last receive and its lock. */
  lemma EmptyQueueSignalledIff<U>(steps: seq<Step<U>>)
    requires Legal(Initial<U>(), steps)
    ensures var s := Run(Initial<U>(), steps);
            s.consumer.AtReceive? && s.data == [] ==> (Enabled(s, Receive) <==> Overtakes(steps))
  {
    RunKeepsInv(Initial(), steps);
    OvertakenIff(steps);
  }

  /** dequeue may return an empty batch, but never first and never twice in a row. */
  lemma EmptyBatchesAreRare<U>(steps: seq<Step<U>>)
    requires Legal(Initial<U>(), steps)
    ensures NoTwoEmpty(Run(Initial<U>(), steps).batches)
  {
    RunKeepsInv(Initial(), steps);
  }

  lemma Do<U>(steps: seq<Step<U>>, step: Step<U>) returns (more: seq<Step<U>>)
    requires Legal(Initial<U>(), steps) && Enabled(Run(Initial<U>(), steps), step)
    ensures Legal(Initial<U>(), more) && Run(Initial<U>(), more) == Apply(Run(Initial<U>(), steps), step)
    ensures more == steps + [step]
  {
    more := steps + [step];
    RunAppend(Initial(), steps, step);
  }

  /** The step that is due when no producer enters any more; None when all participants rest. */
  function Due<U>(s: State<U>): (step: Option<Step<U>>) {
    if s.lock.Entered? then Some(Append)
    else if s.lock.Appended? then Some(Send)
    else if s.lock.Sent? then Some(ProducerUnlock)
    else match s.consumer
      case AtReceive => if s.token then Some(Receive) else None
      case PastReceive => Some(ConsumerLock)
      case Locked => Some(Take)
      case Holding(_) => Some(Return)
  }

  function ProducerSteps<U>(s: State<U>): (n: nat) {
    if s.lock.Entered? then 3 else if s.lock.Appended? then 2 else if s.lock.Sent? then 1 else 0
  }

  function ConsumerSteps<U>(s: State<U>): (n: nat) {
    match s.consumer
    case AtReceive => 0
    case PastReceive => 3
    case Locked => 2
    case Holding(_) => 1
  }

  /** What has been queued once the producer that is in the middle of a call has finished it. */
  function Submitted<U>(s: State<U>): (r: seq<U>) {
    if s.lock.Entered? then s.queued + [s.lock.update] else s.queued
  }

  /** A due step can be taken, changes nothing of what is submitted, and brings the end nearer. */
  lemma DueStep<U>(s: State<U>, step: Step<U>)
    requires Inv(s) && Due(s) == Some(step)
    ensures Enabled(s, step) && Submitted(Apply(s, step)) == Submitted(s)
    ensures var t := Apply(s, step);
            || ProducerSteps(t) < ProducerSteps(s)
            || (ProducerSteps(t) == ProducerSteps(s) &&
                if s.token then !t.token || ConsumerSteps(t) < ConsumerSteps(s)
                else !t.token && ConsumerSteps(t) < ConsumerSteps(s))
  {
    hide InOrder, Announced, SlotExplained, NoTwoEmpty, LastWasEmpty;
  }

  lemma AtRest<U>(s: State<U>)
    requires Inv(s) && Due(s).None?
    ensures s.consumer.AtReceive? && !s.token && s.lock.Free?
  {
  }

  /** Nobody gets stuck: every run can be carried on, without further calls of enqueue, to where
      everything that was submitted is delivered, in order. */
  lemma EverythingCanBeDelivered<U>(steps: seq<Step<U>>) returns (all: seq<Step<U>>)
    requires Legal(Initial<U>(), steps)
    ensures Legal(Initial<U>(), all) && steps <= all
    ensures forall i :: |steps| <= i < |all| ==> !all[i].ProducerLock?
    ensures Concat(Run(Initial<U>(), all).batches) == Submitted(Run(Initial<U>(), steps))
  {
    hide Run, Legal, Inv;
    all := steps;
    var s := Run(Initial<U>(), all);
    ReachableInv(all);
    while Due(s).Some?
      invariant Legal(Initial<U>(), all) && steps <= all && s == Run(Initial<U>(), all) && Inv(s)
      invariant forall i :: |steps| <= i < |all| ==> !all[i].ProducerLock?
      invariant Submitted(s) == Submitted(Run(Initial<U>(), steps))
      decreases ProducerSteps(s), s.token, ConsumerSteps(s)
    {
      DueStep(s, Due(s).value);
      all := Do(all, Due(s).value);
      s := Run(Initial<U>(), all);
      ReachableInv(all);
    }
    AtRest(s);
    BlockedMeansDelivered(all);
  }

  /** Both updates are queued, the first signal is received, the second is in the slot. */
  lemma TwoQueued<U>(u: U, v: U) returns (steps: seq<Step<U>>)
    ensures Legal(Initial<U>(), steps)
    ensures Run(Initial<U>(), steps) == State([u, v], true, Free, PastReceive, [u, v], [], true)
  {
    steps := Do([], ProducerLock(u));
    steps := Do(steps, Append);
    steps := Do(steps, Send);
    steps := Do(steps, Receive);
    steps := Do(steps, ProducerUnlock);
    steps := Do(steps, ProducerLock(v));
    steps := Do(steps, Append);
    steps := Do(steps, Send);
    steps := Do(steps, ProducerUnlock);
  }

  /** A second producer signals between the consumer's receive and its lock: the consumer takes
      both updates, and the leftover token makes the next dequeue return nothing. */
  lemma EmptyBatchHappens<U>(u: U, v: U) returns (steps: seq<Step<U>>)
    ensures Legal(Initial<U>(), steps) && Run(Initial<U>(), steps).batches == [[u, v], []]
  {
    steps := TwoQueued(u, v);
    steps := Do(steps, ConsumerLock);
    steps := Do(steps, Take);
    steps := Do(steps, Return);
    steps := Do(steps, Receive);
    steps := Do(steps, ConsumerLock);
    steps := Do(steps, Take);
    steps := Do(steps, Return);
  }
}
