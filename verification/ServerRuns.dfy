/**
 The accepting thread, the worker threads and shutdown of net/network.c as steps of one
 system, each critical section being one step, interleaved in any order.
 */
module ServerRuns {

  /** The accepting thread: between connections; past the connection check with a client; past the queue, the
      connection not yet counted. */
  datatype Producer = Idle | Admitted(client: nat) | Queued

  datatype Worker = Waiting | Handling(client: nat) | Exited

  /** The server, with the log of clients queued, the log of who took which client, and the number of times closing a
      connection found the counter at zero. */
  datatype Server = Server(queue: seq<nat>, size: int, shutdown: bool, active: int, producer: Producer,
                           workers: seq<Worker>, accepted: seq<nat>, taken: seq<(nat, nat)>, clamped: nat)

  datatype Limits = Limits(maxQueue: nat, maxConnections: nat)

  datatype Step =
    | Accept(client: nat) | Refuse | Enqueue | Reject | Count
    | Take(worker: nat) | Exit(worker: nat) | Close(worker: nat)
    | Shutdown

  predicate Enabled(s: Server, l: Limits, step: Step) {
    match step
    case Accept(c) => s.producer == Idle && s.active < l.maxConnections && c !in s.accepted
    case Refuse => s.producer == Idle && s.active >= l.maxConnections
    case Enqueue => s.producer.Admitted? && s.size < l.maxQueue && !s.shutdown
    // Shutdown, or no memory for the work item.
    case Reject => s.producer.Admitted?
    case Count => s.producer == Queued
    case Take(w) => w < |s.workers| && s.workers[w] == Waiting && s.size > 0 && s.queue != []
    case Exit(w) => w < |s.workers| && s.workers[w] == Waiting && s.shutdown && s.size == 0
    case Close(w) => w < |s.workers| && s.workers[w].Handling?
    case Shutdown => true
  }

  function Next(s: Server, l: Limits, step: Step): Server
    requires Enabled(s, l, step)
  {
    match step
    case Accept(c) => s.(producer := Admitted(c))
    case Refuse => s
    case Enqueue =>
      var c := s.producer.client;
      s.(queue := s.queue + [c], size := s.size + 1, accepted := s.accepted + [c], producer := Queued)
    case Reject => s.(producer := Idle)
    case Count => s.(active := s.active + 1, producer := Idle)
    case Take(w) =>
      var c := s.queue[0];
      s.(queue := s.queue[1..], size := s.size - 1, workers := s.workers[w := Handling(c)], taken := s.taken + [(w, c)])
    case Exit(w) => s.(workers := s.workers[w := Exited])
    case Close(w) =>
      s.(workers := s.workers[w := Waiting],
         active := if s.active > 0 then s.active - 1 else s.active,
         clamped := if s.active > 0 then s.clamped else s.clamped + 1)
    case Shutdown => s.(shutdown := true)
  }

  function Initial(k: nat): Server {
    Server([], 0, false, 0, Idle, seq(k, _ => Waiting), [], [], 0)
  }

  // ---------- The invariant ----------

  function Clients(taken: seq<(nat, nat)>): seq<nat> {
    seq(|taken|, (i: nat) requires i < |taken| => taken[i].1)
  }

  function Busy(ws: seq<Worker>): nat {
    if ws == [] then 0 else (if ws[0].Handling? then 1 else 0) + Busy(ws[1..])
  }

  function Pending(p: Producer): nat {
    if p == Queued then 1 else 0
  }

  /** Connections queued or being handled. */
  function InProgress(s: Server): nat {
    |s.queue| + Busy(s.workers)
  }

  ghost predicate Distinct(xs: seq<nat>) {
    forall i, j :: 0 <= i < j < |xs| ==> xs[i] != xs[j]
  }

  /** The size is the length of the queue and within bounds; what went in is what came out, in order, and then
      what is still in; nothing went in twice. */
  ghost predicate QueueInv(s: Server, l: Limits) {
    && s.size == |s.queue| <= l.maxQueue
    && s.accepted == Clients(s.taken) + s.queue && Distinct(s.accepted)
    && (s.producer.Admitted? ==> s.producer.client !in s.accepted)
    && (forall w :: 0 <= w < |s.workers| && s.workers[w].Handling? ==> (w, s.workers[w].client) in s.taken)
    && ((exists w :: 0 <= w < |s.workers| && s.workers[w] == Exited) ==> s.shutdown && s.queue == [])
  }

  /** The counter is within its limit, and off from the true number by exactly the closes that found it at zero, of which
      there is at most one. */
  ghost predicate CounterInv(s: Server, l: Limits) {
    && 0 <= s.active <= l.maxConnections
    && (s.producer != Idle ==> s.active < l.maxConnections)
    && s.active + Pending(s.producer) == InProgress(s) + s.clamped && s.clamped <= 1
  }

  ghost predicate Inv(s: Server, l: Limits) {
    QueueInv(s, l) && CounterInv(s, l)
  }

  lemma {:induction false} BusyUpdate(ws: seq<Worker>, i: nat, w: Worker)
    requires i < |ws|
    ensures Busy(ws[i := w]) + (if ws[i].Handling? then 1 else 0) == Busy(ws) + if w.Handling? then 1 else 0
  {
    if i == 0 {
      assert ws[i := w][1..] == ws[1..];
    } else {
      assert ws[i := w][1..] == ws[1..][i - 1 := w];
      BusyUpdate(ws[1..], i - 1, w);
    }
  }

  lemma {:induction false} NobodyBusy(k: nat)
    ensures Busy(seq(k, _ => Waiting)) == 0
  {
    if k > 0 {
      assert seq(k, _ => Waiting)[1..] == seq(k - 1, _ => Waiting);
      NobodyBusy(k - 1);
    }
  }

  lemma InitialInv(k: nat, l: Limits)
    ensures Inv(Initial(k), l)
  {
    NobodyBusy(k);
    assert Clients([]) + [] == [];
  }

  lemma QueueStep(s: Server, l: Limits, step: Step)
    requires QueueInv(s, l) && Enabled(s, l, step)
    ensures QueueInv(Next(s, l, step), l)
  {
    var s' := Next(s, l, step);
    match step
    case Enqueue =>
      assert s'.accepted == Clients(s'.taken) + s'.queue;
    case Take(w) =>
      var c := s.queue[0];
      assert Clients(s'.taken) == Clients(s.taken) + [c];
      assert s'.accepted == Clients(s'.taken) + s'.queue;
      assert (w, c) in s'.taken;
    case _ =>
  }

  lemma CounterStep(s: Server, l: Limits, step: Step)
    requires CounterInv(s, l) && Enabled(s, l, step)
    ensures CounterInv(Next(s, l, step), l)
  {
    match step
    case Take(w) => BusyUpdate(s.workers, w, Handling(s.queue[0]));
    case Exit(w) => BusyUpdate(s.workers, w, Exited);
    case Close(w) =>
      BusyUpdate(s.workers, w, Waiting);
    case _ =>
  }

  /** A close finds the counter at zero exactly while the one connection in progress has yet to be counted, and only once. */
  lemma ClampedWhen(s: Server, l: Limits, w: nat)
    requires CounterInv(s, l) && Enabled(s, l, Close(w))
    ensures s.active == 0 <==> s.producer == Queued && InProgress(s) == 1 && s.clamped == 0
  {
    BusyUpdate(s.workers, w, Waiting);
  }

  // ---------- Runs ----------

  ghost predicate Runs(s: Server, l: Limits, steps: seq<Step>)
    decreases |steps|
  {
    steps == [] || (Enabled(s, l, steps[0]) && Runs(Next(s, l, steps[0]), l, steps[1..]))
  }

  ghost function After(s: Server, l: Limits, steps: seq<Step>): Server
    requires Runs(s, l, steps)
    decreases |steps|
  {
    if steps == [] then s else After(Next(s, l, steps[0]), l, steps[1..])
  }

  lemma {:induction false} RunKeeps(s: Server, l: Limits, steps: seq<Step>)
    requires Inv(s, l) && Runs(s, l, steps)
    ensures Inv(After(s, l, steps), l) && |After(s, l, steps).workers| == |s.workers|
    decreases |steps|
  {
    if steps != [] {
      QueueStep(s, l, steps[0]);
      CounterStep(s, l, steps[0]);
      RunKeeps(Next(s, l, steps[0]), l, steps[1..]);
    }
  }

  /** In every interleaving the queue is bounded, clients leave it in the order they came, each once and to one worker,
      the counter stays within its limit, and with the increment still to come it covers every connection in progress. */
  lemma ServerSafety(k: nat, l: Limits, steps: seq<Step>)
    requires Runs(Initial(k), l, steps)
    ensures var s := After(Initial(k), l, steps);
            && s.size == |s.queue| <= l.maxQueue
            && Clients(s.taken) <= s.accepted && Distinct(Clients(s.taken))
            && 0 <= s.active <= l.maxConnections
            && InProgress(s) <= s.active + Pending(s.producer)
            && (InProgress(s) == s.active + Pending(s.producer) <==> s.clamped == 0)
            && s.active + Pending(s.producer) <= InProgress(s) + 1
  {
    InitialInv(k, l);
    RunKeeps(Initial(k), l, steps);
    var s := After(Initial(k), l, steps);
    assert forall i :: 0 <= i < |s.taken| ==> Clients(s.taken)[i] == s.accepted[i];
  }

  /** Once all workers have exited, every client that was ever queued has been taken by a worker: none is left behind. */
  lemma NothingLeftBehind(k: nat, l: Limits, steps: seq<Step>)
    requires k >= 1 && Runs(Initial(k), l, steps)
    requires forall w :: 0 <= w < k ==> w < |After(Initial(k), l, steps).workers| && After(Initial(k), l, steps).workers[w] == Exited
    ensures var s := After(Initial(k), l, steps);
            s.shutdown && s.queue == [] && s.accepted == Clients(s.taken)
  {
    InitialInv(k, l);
    RunKeeps(Initial(k), l, steps);
    var s := After(Initial(k), l, steps);
    assert s.workers[0] == Exited;
  }

  /** Once it is too high, the counter stays one too high for good: in every continuation a connection is admitted only
      while fewer than the limit less one are in progress. */
  lemma {:induction false} DriftLasts(s: Server, l: Limits, steps: seq<Step>)
    requires Inv(s, l) && s.clamped == 1 && Runs(s, l, steps)
    ensures var t := After(s, l, steps);
            && t.active + Pending(t.producer) == InProgress(t) + 1
            && forall c :: Enabled(t, l, Accept(c)) ==> InProgress(t) + 1 < l.maxConnections
    decreases |steps|
  {
    if steps != [] {
      QueueStep(s, l, steps[0]);
      CounterStep(s, l, steps[0]);
      DriftLasts(Next(s, l, steps[0]), l, steps[1..]);
    }
  }

  /** With a limit of one, a server that has drifted never admits a connection again. */
  lemma RefusesForGood(s: Server, l: Limits, steps: seq<Step>, c: nat)
    requires Inv(s, l) && s.clamped == 1 && l.maxConnections == 1 && Runs(s, l, steps)
    ensures !Enabled(After(s, l, steps), l, Accept(c))
  {
    DriftLasts(s, l, steps);
  }

  lemma OneMore(s: Server, l: Limits, step: Step, rest: seq<Step>)
    requires Enabled(s, l, step) && Runs(Next(s, l, step), l, rest)
    ensures Runs(s, l, [step] + rest) && After(s, l, [step] + rest) == After(Next(s, l, step), l, rest)
  {
    assert ([step] + rest)[1..] == rest;
  }

  /** The counter can run ahead: a connection taken and closed before it is counted. */
  lemma CounterDrifts()
    ensures var l, steps := Limits(1, 1), [Accept(7), Enqueue, Take(0), Close(0), Count];
            && Runs(Initial(1), l, steps)
            && var s := After(Initial(1), l, steps); InProgress(s) == 0 && s.active == 1 && s.clamped == 1 && Inv(s, l)
  {
    var l := Limits(1, 1);
    var s0 := Initial(1);
    var s1 := Next(s0, l, Accept(7));
    var s2 := Next(s1, l, Enqueue);
    var s3 := Next(s2, l, Take(0));
    var s4 := Next(s3, l, Close(0));
    var s5 := Next(s4, l, Count);
    assert s5.queue == [] && s5.workers == seq(1, _ => Waiting) && s5.active == 1;
    NobodyBusy(1);
    assert s5.clamped == 1 && Busy(s5.workers) == 0;
    hide Enabled, Next, Busy;
    assert Runs(s5, l, []) && After(s5, l, []) == s5;
    hide Runs, After;
    OneMore(s4, l, Count, []);
    OneMore(s3, l, Close(0), [Count] + []);
    OneMore(s2, l, Take(0), [Close(0)] + ([Count] + []));
    OneMore(s1, l, Enqueue, [Take(0)] + ([Close(0)] + ([Count] + [])));
    OneMore(s0, l, Accept(7), [Enqueue] + ([Take(0)] + ([Close(0)] + ([Count] + []))));
    assert [Accept(7)] + ([Enqueue] + ([Take(0)] + ([Close(0)] + ([Count] + [])))) == [Accept(7), Enqueue, Take(0), Close(0), Count];
    InitialInv(1, l);
    RunKeeps(s0, l, [Accept(7), Enqueue, Take(0), Close(0), Count]);
  }
}
