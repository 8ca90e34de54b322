// The signing worker pool (pkg/signer/pool.go) and the enrolment handler that waits for its answer
// (pkg/protocols/est/handler.go:86-94), as steps of their goroutines.
module SignerPool {
  import opened Wrappers
  import opened Text

  datatype Request = Request(csrDER: seq<byte>, serial: nat, validity: Time, dnsNames: seq<string>)

  type Response = Result<seq<byte>, string>

  // What Issuer.SignCertificate answers to the fields of a request.
  type Issuer = Request -> Response

  datatype Worker = Idle | Holding(id: nat) | Replying(id: nat, response: Response) | Exited

  // Requests are numbered in the order of their Submit calls. `blocked` are the senders waiting on the channel and
  // `queue` its buffer, both first in, first out; `channels` are the reply channels, one a request, and `received` what
  // each submitter took from its own.
  datatype Pool = Pool(requests: seq<Request>, blocked: seq<nat>, queue: seq<nat>, workers: seq<Worker>,
                       channels: seq<seq<Response>>, received: seq<seq<Response>>, cancelled: bool)

  // Enqueue: the channel accepts the first waiting sender. HandOff: an idle worker takes from it directly, the buffer
  // being empty. Take: an idle worker takes from the buffer.
  datatype Action = Submit(req: Request) | Enqueue | HandOff(w: nat) | Take(w: nat) | Sign(w: nat) | Reply(w: nat)
                  | Receive(id: nat) | Cancel | Exit(w: nat)

  const REPLY_CAPACITY := 1

  function NewWorkerPool(workers: nat): Pool {
    Pool([], [], [], seq(workers, _ => Idle), [], [], false)
  }

  // len(wp.jobs)
  function QueueDepth(s: Pool): nat {
    |s.queue|
  }

  predicate Enabled(s: Pool, a: Action, capacity: nat) {
    match a
    case Submit(_) => true
    case Enqueue => s.blocked != [] && |s.queue| < capacity
    case HandOff(w) => w < |s.workers| && s.workers[w].Idle? && s.queue == [] && s.blocked != []
    case Take(w) => w < |s.workers| && s.workers[w].Idle? && s.queue != []
    case Sign(w) => w < |s.workers| && s.workers[w].Holding? && s.workers[w].id < |s.requests|
    case Reply(w) => w < |s.workers| && s.workers[w].Replying? && s.workers[w].id < |s.channels|
                     && |s.channels[s.workers[w].id]| < REPLY_CAPACITY
    case Receive(id) => id < |s.channels| && id < |s.received| && s.channels[id] != []
    case Cancel => !s.cancelled
    case Exit(w) => w < |s.workers| && s.workers[w].Idle? && s.cancelled
  }

  function Next(s: Pool, a: Action, capacity: nat, issue: Issuer): Pool
    requires Enabled(s, a, capacity)
  {
    match a
    case Submit(req) => s.(requests := s.requests + [req], blocked := s.blocked + [|s.requests|],
                           channels := s.channels + [[]], received := s.received + [[]])
    case Enqueue => s.(queue := s.queue + [s.blocked[0]], blocked := s.blocked[1..])
    case HandOff(w) => s.(workers := s.workers[w := Holding(s.blocked[0])], blocked := s.blocked[1..])
    case Take(w) => s.(workers := s.workers[w := Holding(s.queue[0])], queue := s.queue[1..])
    case Sign(w) =>
      var id := s.workers[w].id;
      s.(workers := s.workers[w := Replying(id, issue(s.requests[id]))])
    case Reply(w) =>
      var id := s.workers[w].id;
      s.(workers := s.workers[w := Idle], channels := s.channels[id := s.channels[id] + [s.workers[w].response]])
    case Receive(id) =>
      s.(channels := s.channels[id := s.channels[id][1..]],
         received := s.received[id := s.received[id] + [s.channels[id][0]]])
    case Cancel => s.(cancelled := true)
    case Exit(w) => s.(workers := s.workers[w := Exited])
  }

  // ----- Conservation -----

  function Holds(worker: Worker, id: nat): nat {
    if (worker.Holding? || worker.Replying?) && worker.id == id then 1 else 0
  }

  // How many workers have the request in hand.
  function InHand(workers: seq<Worker>, id: nat): nat {
    if workers == [] then 0 else InHand(workers[..|workers| - 1], id) + Holds(workers[|workers| - 1], id)
  }

  function Waiting(s: Pool): seq<nat> {
    s.queue + s.blocked
  }

  // The number of requests that have left the channel.
  function Taken(s: Pool): int {
    |s.requests| - |Waiting(s)|
  }

  ghost predicate Shape(s: Pool, capacity: nat) {
    && |s.channels| == |s.requests| == |s.received|
    && |s.queue| <= capacity
    && Taken(s) >= 0
    && (forall i :: 0 <= i < |Waiting(s)| ==> Waiting(s)[i] == Taken(s) + i)
  }

  ghost predicate OnePlace(s: Pool)
    requires |s.channels| == |s.requests| == |s.received|
  {
    && (forall id: nat :: id < Taken(s) && id < |s.requests| ==>
          InHand(s.workers, id) + |s.channels[id]| + |s.received[id]| == 1)
    && (forall id: nat :: Taken(s) <= id ==> InHand(s.workers, id) == 0)
    && (forall id: nat :: Taken(s) <= id < |s.requests| ==> s.channels[id] == [] && s.received[id] == [])
  }

  ghost predicate Faithful(s: Pool, issue: Issuer)
    requires |s.channels| == |s.requests| == |s.received|
  {
    && (forall w :: 0 <= w < |s.workers| && s.workers[w].Replying? ==>
          s.workers[w].id < |s.requests| && s.workers[w].response == issue(s.requests[s.workers[w].id]))
    && (forall id, r :: 0 <= id < |s.requests| && r in s.channels[id] ==> r == issue(s.requests[id]))
    && (forall id, r :: 0 <= id < |s.requests| && r in s.received[id] ==> r == issue(s.requests[id]))
  }

  ghost predicate Inv(s: Pool, capacity: nat, issue: Issuer) {
    Shape(s, capacity) && OnePlace(s) && Faithful(s, issue)
  }

  lemma {:induction false} InHandUpdate(workers: seq<Worker>, w: nat, worker: Worker, id: nat)
    requires w < |workers|
    ensures InHand(workers[w := worker], id) == InHand(workers, id) - Holds(workers[w], id) + Holds(worker, id)
    ensures Holds(workers[w], id) <= InHand(workers, id)
  {
    var n := |workers| - 1;
    if w < n {
      InHandUpdate(workers[..n], w, worker, id);
      assert workers[w := worker][..n] == workers[..n][w := worker];
    } else {
      assert workers[w := worker][..n] == workers[..n];
    }
  }

  lemma {:induction false} InHandIdle(n: nat, id: nat)
    ensures InHand(seq(n, _ => Idle), id) == 0
  {
    if n > 0 {
      assert seq(n, _ => Idle)[..n - 1] == seq(n - 1, _ => Idle);
      InHandIdle(n - 1, id);
    }
  }

  lemma {:induction false} InHandWitness(workers: seq<Worker>, id: nat)
    ensures InHand(workers, id) == 0 <==> forall w :: 0 <= w < |workers| ==> Holds(workers[w], id) == 0
  {
    if workers != [] { InHandWitness(workers[..|workers| - 1], id); }
  }

  lemma InitialInv(workers: nat, capacity: nat, issue: Issuer)
    ensures Inv(NewWorkerPool(workers), capacity, issue)
  {
    var idle := NewWorkerPool(workers).workers;
    forall id: nat ensures InHand(idle, id) == 0 { InHandIdle(workers, id); }
  }

  lemma ShapeKept(s: Pool, a: Action, capacity: nat, issue: Issuer)
    requires Shape(s, capacity) && Enabled(s, a, capacity)
    ensures Shape(Next(s, a, capacity, issue), capacity)
    ensures Taken(Next(s, a, capacity, issue)) == Taken(s) + if a.HandOff? || a.Take? then 1 else 0
  {
    var s' := Next(s, a, capacity, issue);
    var w, w' := Waiting(s), Waiting(s');
    match a
    case Submit(_) => assert w' == w + [|s.requests|];
    case Enqueue => assert w' == w;
    case HandOff(_) => TailOf(s.queue, s.blocked); assert w' == w[1..];
    case Take(_) => TailOf(s.queue, s.blocked); assert w' == w[1..];
    case _ => assert w' == w;
  }

  lemma TailOf(a: seq<nat>, b: seq<nat>)
    ensures a != [] ==> a[1..] + b == (a + b)[1..]
    ensures a == [] && b != [] ==> a + b[1..] == (a + b)[1..]
  {
  }

  // The request that an idle worker takes is the first one waiting.
  lemma TakesFirst(s: Pool, a: Action, capacity: nat, issue: Issuer)
    requires Shape(s, capacity) && Enabled(s, a, capacity) && (a.HandOff? || a.Take?)
    ensures Next(s, a, capacity, issue).workers == s.workers[a.w := Holding(Taken(s))]
  {
    assert Waiting(s)[0] == Taken(s);
  }

  predicate MovesWorker(a: Action) {
    a.HandOff? || a.Take? || a.Sign? || a.Reply? || a.Exit?
  }

  // How many hands hold a request after a worker's step.
  lemma HandsAfter(s: Pool, a: Action, capacity: nat, issue: Issuer, id: nat)
    requires Enabled(s, a, capacity) && MovesWorker(a)
    ensures var s' := Next(s, a, capacity, issue);
      InHand(s'.workers, id) == InHand(s.workers, id) - Holds(s.workers[a.w], id) + Holds(s'.workers[a.w], id)
  {
    InHandUpdate(s.workers, a.w, Next(s, a, capacity, issue).workers[a.w], id);
  }

  lemma OnePlaceMoved(s: Pool, a: Action, capacity: nat, issue: Issuer)
    requires Shape(s, capacity) && OnePlace(s) && Enabled(s, a, capacity) && MovesWorker(a)
    requires |Next(s, a, capacity, issue).channels| == |Next(s, a, capacity, issue).requests|
          == |Next(s, a, capacity, issue).received|
    ensures OnePlace(Next(s, a, capacity, issue))
  {
    assert 0 <= Taken(s) <= |s.requests|;
    var s' := Next(s, a, capacity, issue);
    ShapeKept(s, a, capacity, issue);
    forall id: nat ensures InHand(s'.workers, id)
        == InHand(s.workers, id) - Holds(s.workers[a.w], id) + Holds(s'.workers[a.w], id) {
      HandsAfter(s, a, capacity, issue, id);
    }
    if a.HandOff? || a.Take? {
      TakesFirst(s, a, capacity, issue);
      hide Shape, InHand, Taken, Waiting, OnePlace;
      OneMoreTaken(s, s');
    } else if a.Reply? {
      hide Shape, InHand, Taken, Waiting, OnePlace;
      OneReplied(s, s', s.workers[a.w].id);
    } else {
      hide Shape, InHand, Taken, Waiting, OnePlace;
      assert forall id: nat :: Holds(s'.workers[a.w], id) == Holds(s.workers[a.w], id);
      NothingPlaced(s, s');
    }
  }

  lemma OneReplied(s: Pool, s': Pool, r: nat)
    requires |s.channels| == |s.requests| == |s.received| && OnePlace(s) && r < |s.requests|
    requires |s'.channels| == |s.channels| && s'.received == s.received && s'.requests == s.requests
    requires Taken(s') == Taken(s) && InHand(s.workers, r) > 0
    requires forall id: nat :: id < |s.channels| ==> |s'.channels[id]| == |s.channels[id]| + if id == r then 1 else 0
    requires forall id: nat :: InHand(s'.workers, id) == InHand(s.workers, id) - if id == r then 1 else 0
    ensures OnePlace(s')
  {
    hide InHand, Taken, Waiting;
  }

  lemma NothingPlaced(s: Pool, s': Pool)
    requires |s.channels| == |s.requests| == |s.received| && OnePlace(s)
    requires s'.channels == s.channels && s'.received == s.received && s'.requests == s.requests
    requires Taken(s') == Taken(s) && forall id: nat :: InHand(s'.workers, id) == InHand(s.workers, id)
    ensures OnePlace(s')
  {
    hide InHand, Taken, Waiting;
  }

  lemma OneMoreTaken(s: Pool, s': Pool)
    requires |s.channels| == |s.requests| == |s.received| && OnePlace(s) && 0 <= Taken(s) <= |s.requests|
    requires s'.channels == s.channels && s'.received == s.received && s'.requests == s.requests
    requires Taken(s') == Taken(s) + 1
    requires forall id: nat :: InHand(s'.workers, id) == InHand(s.workers, id) + if id == Taken(s) then 1 else 0
    ensures OnePlace(s')
  {
    hide InHand, Taken, Waiting;
  }

  lemma OnePlaceKept(s: Pool, a: Action, capacity: nat, issue: Issuer)
    requires Shape(s, capacity) && OnePlace(s) && Enabled(s, a, capacity)
    requires |Next(s, a, capacity, issue).channels| == |Next(s, a, capacity, issue).requests|
          == |Next(s, a, capacity, issue).received|
    ensures OnePlace(Next(s, a, capacity, issue))
  {
    assert Taken(s) <= |s.requests|;
    hide Shape, InHand, Taken, Waiting;
    if MovesWorker(a) {
      OnePlaceMoved(s, a, capacity, issue);
    } else {
      ShapeKept(s, a, capacity, issue);
    }
  }

  lemma FaithfulKept(s: Pool, a: Action, capacity: nat, issue: Issuer)
    requires Inv(s, capacity, issue) && Enabled(s, a, capacity)
    requires |Next(s, a, capacity, issue).channels| == |Next(s, a, capacity, issue).requests|
          == |Next(s, a, capacity, issue).received|
    ensures Faithful(Next(s, a, capacity, issue), issue)
  {
    hide InHand, Taken, OnePlace;
    var s' := Next(s, a, capacity, issue);
    match a
    case Submit(req) => assert forall id :: 0 <= id < |s.requests| ==> s'.requests[id] == s.requests[id];
    case Receive(id) =>
      var channel := s.channels[id];
      assert forall r :: r in s'.channels[id] ==> r in channel;
      assert channel[0] in channel;
    case _ =>
  }

  lemma StepKeepsInv(s: Pool, a: Action, capacity: nat, issue: Issuer)
    requires Inv(s, capacity, issue) && Enabled(s, a, capacity)
    ensures Inv(Next(s, a, capacity, issue), capacity, issue)
  {
    hide Taken, OnePlace, Faithful;
    ShapeKept(s, a, capacity, issue);
    OnePlaceKept(s, a, capacity, issue);
    FaithfulKept(s, a, capacity, issue);
  }

  ghost predicate Run(states: seq<Pool>, actions: seq<Action>, capacity: nat, issue: Issuer) {
    && |states| == |actions| + 1
    && forall i :: 0 <= i < |actions| ==>
         Enabled(states[i], actions[i], capacity) && states[i + 1] == Next(states[i], actions[i], capacity, issue)
  }

  lemma {:induction false} RunKeepsInv(states: seq<Pool>, actions: seq<Action>, capacity: nat, issue: Issuer, i: nat)
    requires Run(states, actions, capacity, issue) && Inv(states[0], capacity, issue) && i < |states|
    ensures Inv(states[i], capacity, issue)
  {
    hide Inv, Enabled, Next;
    if i > 0 {
      RunKeepsInv(states, actions, capacity, issue, i - 1);
      StepKeepsInv(states[i - 1], actions[i - 1], capacity, issue);
    }
  }

  // In how many places the request is: waiting senders, the buffer, workers, its reply channel, its submitter.
  function Places(s: Pool, id: nat): nat
    requires id < |s.channels| && id < |s.received|
  {
    multiset(s.blocked)[id] + multiset(s.queue)[id] + InHand(s.workers, id) + |s.channels[id]| + |s.received[id]|
  }

  lemma {:induction false} CountInRange(waiting: seq<nat>, first: nat, id: nat)
    requires forall i :: 0 <= i < |waiting| ==> waiting[i] == first + i
    ensures multiset(waiting)[id] == if first <= id < first + |waiting| then 1 else 0
  {
    if waiting != [] {
      var n := |waiting| - 1;
      CountInRange(waiting[..n], first, id);
      assert waiting == waiting[..n] + [waiting[n]];
    }
  }

  // At every moment of every run of a pool, under every schedule, each request is in exactly one place, it is answered
  // at most once, by the issuer's result on its own fields, and the buffer keeps to its capacity.
  lemma EveryRequestInOnePlace(states: seq<Pool>, actions: seq<Action>, workers: nat, capacity: nat, issue: Issuer,
                               i: nat, id: nat)
    requires Run(states, actions, capacity, issue) && states[0] == NewWorkerPool(workers) && i < |states|
    requires id < |states[i].requests|
    ensures |states[i].channels| == |states[i].requests| == |states[i].received|
    ensures Places(states[i], id) == 1
    ensures states[i].received[id] == [] || states[i].received[id] == [issue(states[i].requests[id])]
    ensures QueueDepth(states[i]) <= capacity
  {
    InitialInv(workers, capacity, issue);
    RunKeepsInv(states, actions, capacity, issue, i);
    var s := states[i];
    CountInRange(Waiting(s), Taken(s), id);
    assert multiset(Waiting(s)) == multiset(s.queue) + multiset(s.blocked);
    if s.received[id] != [] { assert s.received[id][0] in s.received[id]; }
  }

  // ----- Draining -----

  function Weight(worker: Worker): nat {
    match worker case Idle => 1 case Holding(_) => 4 case Replying(_, _) => 3 case Exited => 0
  }

  function Weights(workers: seq<Worker>): nat {
    if workers == [] then 0 else Weights(workers[..|workers| - 1]) + Weight(workers[|workers| - 1])
  }

  function Total(channels: seq<seq<Response>>): nat {
    if channels == [] then 0 else Total(channels[..|channels| - 1]) + |channels[|channels| - 1]|
  }

  function Measure(s: Pool): nat {
    5 * |s.blocked| + 4 * |s.queue| + Weights(s.workers) + Total(s.channels) + if s.cancelled then 0 else 1
  }

  lemma {:induction false} WeightsUpdate(workers: seq<Worker>, w: nat, worker: Worker)
    requires w < |workers|
    ensures Weights(workers[w := worker]) == Weights(workers) - Weight(workers[w]) + Weight(worker)
  {
    var n := |workers| - 1;
    if w < n {
      WeightsUpdate(workers[..n], w, worker);
      assert workers[w := worker][..n] == workers[..n][w := worker];
    } else {
      assert workers[w := worker][..n] == workers[..n];
    }
  }

  lemma {:induction false} TotalUpdate(channels: seq<seq<Response>>, id: nat, channel: seq<Response>)
    requires id < |channels|
    ensures Total(channels[id := channel]) == Total(channels) - |channels[id]| + |channel|
  {
    var n := |channels| - 1;
    if id < n {
      TotalUpdate(channels[..n], id, channel);
      assert channels[id := channel][..n] == channels[..n][id := channel];
    } else {
      assert channels[id := channel][..n] == channels[..n];
    }
  }

  // Every step but a submission brings the pool nearer to rest.
  lemma MeasureFalls(s: Pool, a: Action, capacity: nat, issue: Issuer)
    requires Enabled(s, a, capacity) && !a.Submit?
    ensures Measure(Next(s, a, capacity, issue)) < Measure(s)
  {
    hide Weights, Total;
    var s' := Next(s, a, capacity, issue);
    if MovesWorker(a) { WeightsUpdate(s.workers, a.w, s'.workers[a.w]); }
    if a.Reply? { TotalUpdate(s.channels, s.workers[a.w].id, s'.channels[s.workers[a.w].id]); }
    if a.Receive? { TotalUpdate(s.channels, a.id, s'.channels[a.id]); }
  }

  lemma {:induction false} RunsEnd(states: seq<Pool>, actions: seq<Action>, capacity: nat, issue: Issuer)
    requires Run(states, actions, capacity, issue) && forall i :: 0 <= i < |actions| ==> !actions[i].Submit?
    ensures Measure(states[|actions|]) + |actions| <= Measure(states[0])
  {
    hide Enabled, Next, Measure;
    if actions != [] {
      var n := |actions| - 1;
      RunsEnd(states[..n + 1], actions[..n], capacity, issue);
      MeasureFalls(states[n], actions[n], capacity, issue);
    }
  }

  // Nothing is left to happen by itself: no step is enabled but a new submission or a cancellation.
  ghost predicate AtRest(s: Pool, capacity: nat) {
    forall a: Action :: Enabled(s, a, capacity) ==> a.Submit? || a.Cancel?
  }

  // A worker with a request in hand is never stuck: the reply channel has room.
  lemma WorkerNeverStuck(s: Pool, capacity: nat, issue: Issuer, w: nat)
    requires Inv(s, capacity, issue) && w < |s.workers| && (s.workers[w].Holding? || s.workers[w].Replying?)
    ensures Enabled(s, if s.workers[w].Holding? then Sign(w) else Reply(w), capacity)
  {
    InHandWitness(s.workers, s.workers[w].id);
  }

  // At rest, no worker has anything in hand and every request taken from the channel has reached its submitter.
  lemma RestAnswersTaken(s: Pool, capacity: nat, issue: Issuer, id: nat)
    requires Inv(s, capacity, issue) && AtRest(s, capacity) && id < Taken(s) && id < |s.requests|
    ensures s.received[id] == [issue(s.requests[id])]
  {
    hide InHand, Taken;
    forall w | 0 <= w < |s.workers| ensures Holds(s.workers[w], id) == 0 {
      if s.workers[w].Holding? || s.workers[w].Replying? {
        WorkerNeverStuck(s, capacity, issue, w);
        assert false;
      }
    }
    InHandWitness(s.workers, id);
    assert !Enabled(s, Receive(id), capacity);
    assert s.received[id][0] in s.received[id];
  }

  // At rest and not cancelled, a pool with a worker has nothing waiting.
  lemma RestHasNothingWaiting(s: Pool, capacity: nat, issue: Issuer)
    requires Inv(s, capacity, issue) && AtRest(s, capacity) && 0 < |s.workers|
    requires forall w :: 0 <= w < |s.workers| ==> !s.workers[w].Exited?
    ensures Waiting(s) == []
  {
    assert !Enabled(s, Take(0), capacity) && !Enabled(s, HandOff(0), capacity);
    if s.workers[0].Holding? || s.workers[0].Replying? {
      WorkerNeverStuck(s, capacity, issue, 0);
      assert false;
    }
  }

  // Workers leave only after a cancellation.
  lemma {:induction false} NobodyLeaves(states: seq<Pool>, actions: seq<Action>, capacity: nat, issue: Issuer, i: nat)
    requires Run(states, actions, capacity, issue) && i < |states|
    requires forall w :: 0 <= w < |states[0].workers| ==> !states[0].workers[w].Exited?
    requires !states[0].cancelled && forall k :: 0 <= k < i ==> !actions[k].Cancel?
    ensures !states[i].cancelled && |states[i].workers| == |states[0].workers|
    ensures forall w :: 0 <= w < |states[i].workers| ==> !states[i].workers[w].Exited?
  {
    if i > 0 { NobodyLeaves(states, actions, capacity, issue, i - 1); }
  }

  // A pool with at least one worker that is not cancelled answers every request, in the end: whatever the schedule, once
  // no step is left every submitter has the issuer's result on its own request.
  lemma EverythingAnswered(states: seq<Pool>, actions: seq<Action>, workers: nat, capacity: nat, issue: Issuer, id: nat)
    requires Run(states, actions, capacity, issue) && states[0] == NewWorkerPool(workers) && workers > 0
    requires forall i :: 0 <= i < |actions| ==> !actions[i].Cancel?
    requires AtRest(states[|actions|], capacity) && id < |states[|actions|].requests|
    ensures id < |states[|actions|].received|
    ensures states[|actions|].received[id] == [issue(states[|actions|].requests[id])]
  {
    hide AtRest, OnePlace, Faithful;
    var n := |actions|;
    InitialInv(workers, capacity, issue);
    RunKeepsInv(states, actions, capacity, issue, n);
    NobodyLeaves(states, actions, capacity, issue, n);
    RestHasNothingWaiting(states[n], capacity, issue);
    RestAnswersTaken(states[n], capacity, issue, id);
  }

  lemma {:induction false} TakenStays(states: seq<Pool>, actions: seq<Action>, capacity: nat, issue: Issuer, i: nat, j: nat)
    requires Run(states, actions, capacity, issue) && Inv(states[0], capacity, issue) && i <= j < |states|
    ensures Taken(states[i]) <= Taken(states[j])
    ensures states[i].requests <= states[j].requests
  {
    hide Taken, OnePlace, Faithful, Shape;
    if i < j {
      TakenStays(states, actions, capacity, issue, i, j - 1);
      RunKeepsInv(states, actions, capacity, issue, j - 1);
      ShapeKept(states[j - 1], actions[j - 1], capacity, issue);
    }
  }

  // A request in a worker's hand at any moment, before or after a cancellation, is still answered when the run comes to
  // rest.
  lemma InHandIsAnswered(states: seq<Pool>, actions: seq<Action>, workers: nat, capacity: nat, issue: Issuer,
                         i: nat, id: nat)
    requires Run(states, actions, capacity, issue) && states[0] == NewWorkerPool(workers) && i < |states|
    requires InHand(states[i].workers, id) > 0 && AtRest(states[|actions|], capacity)
    ensures id < |states[i].requests| && id < |states[|actions|].received|
    ensures states[|actions|].received[id] == [issue(states[i].requests[id])]
  {
    hide AtRest, Faithful;
    var n := |actions|;
    InitialInv(workers, capacity, issue);
    RunKeepsInv(states, actions, capacity, issue, i);
    RunKeepsInv(states, actions, capacity, issue, n);
    TakenStays(states, actions, capacity, issue, i, n);
    RestAnswersTaken(states[n], capacity, issue, id);
  }

  // What a run that comes to rest, cancelled or not, has answered: exactly the requests some worker took. Every other
  // submitter waits for ever, its request still in the buffer or not even there.
  lemma AnsweredIffTaken(states: seq<Pool>, actions: seq<Action>, workers: nat, capacity: nat, issue: Issuer, id: nat)
    requires Run(states, actions, capacity, issue) && states[0] == NewWorkerPool(workers)
    requires AtRest(states[|actions|], capacity) && id < |states[|actions|].requests|
    ensures var s := states[|actions|];
      && |s.channels| == |s.requests| == |s.received|
      && s.received[id] == (if id < Taken(s) then [issue(s.requests[id])] else [])
      && (id >= Taken(s) <==> id in Waiting(s))
  {
    hide AtRest, Faithful;
    var s := states[|actions|];
    InitialInv(workers, capacity, issue);
    RunKeepsInv(states, actions, capacity, issue, |actions|);
    if id < Taken(s) {
      RestAnswersTaken(s, capacity, issue, id);
    } else {
      assert Waiting(s)[id - Taken(s)] == id;
    }
  }

  // The queue is full before anyone waits for it: its depth, once no sender can move up, is the number of requests not
  // yet taken, or the capacity when there are more.
  lemma DepthOfQueue(s: Pool, capacity: nat, issue: Issuer)
    requires Inv(s, capacity, issue) && !Enabled(s, Enqueue, capacity)
    ensures var waiting := |s.requests| - Taken(s);
      QueueDepth(s) == if waiting <= capacity then waiting else capacity
  {
  }

  // And at any moment it counts the requests in the buffer: the ones taken up next.
  lemma DepthCounts(s: Pool, capacity: nat, issue: Issuer, id: nat)
    requires Inv(s, capacity, issue)
    ensures id in s.queue <==> Taken(s) <= id < Taken(s) + QueueDepth(s)
  {
    if Taken(s) <= id < Taken(s) + QueueDepth(s) { assert Waiting(s)[id - Taken(s)] == s.queue[id - Taken(s)] == id; }
    if id in s.queue {
      var i :| 0 <= i < |s.queue| && s.queue[i] == id;
      assert Waiting(s)[i] == id;
    }
  }
}
