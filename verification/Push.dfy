/** The non-idempotent push protocol (`e2e/src/harness.rs`,
    `push_sm_corpus` of `e2e/src/logs.rs`, `push_corpus` of
    `e2e/src/metrics.rs`) against an adversarial network: what is ingested, in
    which order, and how often. */
module Push {
  import opened Common
  import opened Polling
  import opened Arithmetic

  /** How one `send()` ends, from the client's side. */
  datatype SendOutcome = Responded(status: nat) | ConnectFailed | PostConnectFailed

  /** What the network does with the k-th request of a run: the outcome the
      client sees, whether the server ingested the body, and the timing. */
  datatype Reaction = Reaction(outcome: SendOutcome, ingested: bool, takes: nat, late: nat)

  type Network = nat -> Reaction

  predicate Success(status: nat) { 200 <= status < 300 }

  /** The protocol's two assumptions: a connect-phase failure means no bytes
      were processed, and a 2xx means the body was ingested. */
  predicate Honest(r: Reaction) {
    && (r.outcome.ConnectFailed? ==> !r.ingested)
    && (r.outcome.Responded? && Success(r.outcome.status) ==> r.ingested)
  }

  ghost predicate HonestNet(net: Network) {
    forall k: nat :: Honest(net(k))
  }

  // ----- classification -----

  datatype Stop = Arrived(status: nat) | Ambiguous
  datatype Retry = Retry

  /** `push_retry_is_safe`. */
  predicate RetryIsSafe(o: SendOutcome) { o.ConnectFailed? }

  /** `classify_push_send`, with the retry guard as a parameter. */
  function ClassifyBy(guard: SendOutcome -> bool, o: SendOutcome): Outcome<Stop, Retry> {
    if guard(o) then Failed(Retry)
    else if o.Responded? then Found(Arrived(o.status)) else Found(Ambiguous)
  }

  function Classify(o: SendOutcome): (c: Outcome<Stop, Retry>)
    ensures !c.NotYet?
    ensures c.Failed? <==> o == ConnectFailed
    ensures forall s: nat :: c == Found(Arrived(s)) <==> o == Responded(s)
    ensures c == Found(Ambiguous) <==> o == PostConnectFailed
  {
    ClassifyBy(RetryIsSafe, o)
  }

  /** The poll of one body, when the run has already made `sent` requests. */
  function PollEnv(guard: SendOutcome -> bool, net: Network, sent: nat): Env<Stop, Retry> {
    Env(k => ClassifyBy(guard, net(sent + k).outcome), k => net(sent + k).takes, k => net(sent + k).late)
  }

  lemma PollEnvAt(guard: SendOutcome -> bool, net: Network, sent: nat, k: nat)
    ensures PollEnv(guard, net, sent).outcome(k) == ClassifyBy(guard, net(sent + k).outcome)
    ensures PollEnv(guard, net, sent).takes(k) == net(sent + k).takes
    ensures PollEnv(guard, net, sent).late(k) == net(sent + k).late
  {
  }

  // ----- the state of a run -----

  /** One body, addressed to one store. */
  datatype Item = Item(store: nat, index: nat)

  /** The clock, the requests made, and everything the servers ingested, in order. */
  datatype World = World(now: nat, sent: nat, ingested: seq<Item>)

  /** What `n` requests carrying `item` add to the servers. */
  function Delivered(net: Network, sent: nat, n: nat, item: Item): seq<Item> {
    if n == 0 then []
    else Delivered(net, sent, n - 1, item) + (if net(sent + n - 1).ingested then [item] else [])
  }

  datatype PushError = NeverConnected | PostConnect | BadStatus(status: nat) | NoRequests

  const TIMEOUT := 90_000_000_000
  const INTERVAL := 500_000_000

  /** The server took the body and said so: the only good end of a push. */
  predicate Accepted(o: SendOutcome) { o.Responded? && 200 <= o.status < 300 }

  /** What the client reports is decided by how request `last` ended, and tells how it did. */
  ghost predicate Reported(last: SendOutcome, r: Result<(), PushError>) {
    && (r.Ok? <==> Accepted(last))
    && (forall s: nat :: r == Err(BadStatus(s)) <==> last == Responded(s) && !Accepted(last))
    && (r == Err(PostConnect) <==> last == PostConnectFailed)
    && (r == Err(NeverConnected) <==> last == ConnectFailed)
  }

  ghost predicate NoneConnected(net: Network, from: nat, to: nat) {
    forall k: nat :: from <= k < to ==> net(k).outcome == ConnectFailed
  }

  /** What one push has done: every request but its last failed to connect, the
      last one alone decides what is reported, and alone can have been ingested. */
  ghost predicate PushedOnce(net: Network, w: World, w': World, item: Item, r: Result<(), PushError>) {
    && w'.now >= w.now && w'.sent > w.sent
    && NoneConnected(net, w.sent, w'.sent - 1)
    && Reported(net(w'.sent - 1).outcome, r)
    && w'.ingested == w.ingested + (if net(w'.sent - 1).ingested then [item] else [])
    && (r.Ok? ==> w'.ingested == w.ingested + [item])
    && (r == Err(NeverConnected) ==> w'.ingested == w.ingested)
  }

  /** `poll_until` around one post, then the status check. It gives up on
      connecting only when its 90 seconds are over. */
  method PushPolling(net: Network, w: World, item: Item) returns (r: Result<(), PushError>, w': World)
    requires HonestNet(net)
    ensures PushedOnce(net, w, w', item, r)
    ensures r == Err(NeverConnected) ==> w'.now >= w.now + 90_000_000_000
    ensures w'.sent - w.sent <= 181
    ensures r == Err(NeverConnected) && Instant(net) ==> w'.sent - w.sent == 181
  {
    hide IsRun, Delivered, Honest, NoneConnected, PollEnv;
    var env := PollEnv(RetryIsSafe, net, w.sent);
    EndsExactly(env, w.now, TIMEOUT, INTERVAL);
    var polled, now, starts := PollUntil(env, w.now, TIMEOUT, INTERVAL);
    AtMostTheLast(net, w.sent, env, w.now, TIMEOUT, INTERVAL, starts, item);
    RetriedConnects(net, w.sent, env, w.now, TIMEOUT, INTERVAL, starts);
    RunAdvances(env, w.now, TIMEOUT, INTERVAL, starts, |starts| - 1);
    if Instant(net) { EvenRun(net, w.sent, env, w.now, TIMEOUT, INTERVAL, starts, |starts| - 1); }
    w' := World(now, w.sent + |starts|, w.ingested + Delivered(net, w.sent, |starts|, item));
    HonestAt(net, w.sent + |starts| - 1);
    PollEnvAt(RetryIsSafe, net, w.sent, |starts| - 1);
    match polled {
      case Ok(Arrived(status)) => r := if Success(status) then Ok(()) else Err(BadStatus(status));
      case Ok(Ambiguous) => r := Err(PostConnect);
      case Err(_) => r := Err(NeverConnected);
    }
  }

  /** One plain post: a connect failure is an error too, never a retry. */
  method PushPlain(net: Network, w: World, item: Item) returns (r: Result<(), PushError>, w': World)
    requires HonestNet(net)
    ensures PushedOnce(net, w, w', item, r)
    ensures w'.sent == w.sent + 1
  {
    var reaction := net(w.sent);
    assert Honest(reaction);
    w' := World(w.now + reaction.takes, w.sent + 1, w.ingested + (if reaction.ingested then [item] else []));
    match Classify(reaction.outcome) {
      case Found(Arrived(status)) => r := if Success(status) then Ok(()) else Err(BadStatus(status));
      case Found(Ambiguous) => r := Err(PostConnect);
      case Failed(_) => r := Err(NeverConnected);
      case NotYet => assert false;
    }
  }

  /** Requests that take no time, and sleeps that wake when asked. */
  ghost predicate Instant(net: Network) {
    forall k: nat :: net(k).takes == 0 && net(k).late == 0
  }

  /** Then the attempts are an interval apart, the last at the deadline. */
  lemma {:induction false} EvenRun(
    net: Network, sent: nat, env: Env<Stop, Retry>, start: nat, timeout: nat, interval: nat, starts: seq<nat>, k: nat)
    requires Instant(net) && env == PollEnv(RetryIsSafe, net, sent)
    requires IsRun(env, start, timeout, interval, starts) && k < |starts|
    ensures starts[k] == start + Min(k * interval, timeout)
  {
    hide IsRun, PollEnv;
    if k > 0 {
      EvenRun(net, sent, env, start, timeout, interval, starts, k - 1);
      RunContinues(env, start, timeout, interval, starts, k);
      PollEnvAt(RetryIsSafe, net, sent, k - 1);
      assert k * interval == (k - 1) * interval + interval;
    } else {
      RunStarts(env, start, timeout, interval, starts);
    }
  }

  lemma RunStarts<T, E>(env: Env<T, E>, start: nat, timeout: nat, interval: nat, starts: seq<nat>)
    requires IsRun(env, start, timeout, interval, starts)
    ensures |starts| > 0 && starts[0] == start
  {
  }

  lemma HonestAt(net: Network, k: nat)
    requires HonestNet(net)
    ensures net(k).outcome.ConnectFailed? ==> !net(k).ingested
    ensures Accepted(net(k).outcome) ==> net(k).ingested
  {
    assert Honest(net(k));
  }

  /** A poll goes on only after a connect failure. */
  lemma RetriedConnects(
    net: Network, sent: nat, env: Env<Stop, Retry>, start: nat, timeout: nat, interval: nat, starts: seq<nat>)
    requires env == PollEnv(RetryIsSafe, net, sent)
    requires IsRun(env, start, timeout, interval, starts)
    ensures |starts| > 0 && NoneConnected(net, sent, sent + |starts| - 1)
  {
    forall k: nat | sent <= k < sent + |starts| - 1 ensures net(k).outcome == ConnectFailed {
      RunContinues(env, start, timeout, interval, starts, k - sent + 1);
      PollEnvAt(RetryIsSafe, net, sent, k - sent);
    }
  }

  lemma {:induction false} RunAdvances<T, E>(env: Env<T, E>, start: nat, timeout: nat, interval: nat,
                                             starts: seq<nat>, k: nat)
    requires IsRun(env, start, timeout, interval, starts) && k < |starts|
    ensures starts[k] >= start
  {
    if k > 0 {
      RunAdvances(env, start, timeout, interval, starts, k - 1);
      assert Continues(env, start + timeout, interval, k - 1, starts[k - 1], starts[k]);
    }
  }

  /** Every request but the last of a poll failed to connect, so only the last
      can have been ingested. */
  lemma {:induction false} AtMostTheLast(
    net: Network, sent: nat, env: Env<Stop, Retry>, start: nat, timeout: nat, interval: nat, starts: seq<nat>,
    item: Item)
    requires HonestNet(net) && env == PollEnv(RetryIsSafe, net, sent)
    requires IsRun(env, start, timeout, interval, starts)
    ensures var last := net(sent + |starts| - 1);
            Delivered(net, sent, |starts|, item) == (if last.ingested then [item] else [])
  {
    assert forall o :: RetryIsSafe(o) ==> o.ConnectFailed?;
    NothingRetried(RetryIsSafe, net, sent, start, timeout, interval, starts, item, |starts| - 1);
  }

  lemma {:induction false} NothingRetried(
    guard: SendOutcome -> bool, net: Network, sent: nat, start: nat, timeout: nat, interval: nat, starts: seq<nat>,
    item: Item, k: nat)
    requires forall o :: guard(o) ==> o.ConnectFailed?
    requires HonestNet(net) && IsRun(PollEnv(guard, net, sent), start, timeout, interval, starts) && k < |starts|
    ensures Delivered(net, sent, k, item) == []
  {
    hide IsRun, PollEnv;
    if k > 0 {
      NothingRetried(guard, net, sent, start, timeout, interval, starts, item, k - 1);
      PollEnvAt(guard, net, sent, k - 1);
      RunContinues(PollEnv(guard, net, sent), start, timeout, interval, starts, k);
      assert Honest(net(sent + k - 1));
    }
  }

  // ----- the push loops -----

  /** The order in which `stores` stores receive `bodies` bodies each. */
  function Order(stores: nat, bodies: nat): (o: seq<Item>)
    ensures |o| == stores * bodies
  {
    seq(stores * bodies, i requires 0 <= i < stores * bodies => Item(i / bodies, i % bodies))
  }

  /** Everything `acked` items long was delivered in order; one more may have been. */
  ghost predicate PrefixPushed(w: World, w': World, order: seq<Item>, acked: nat, r: Result<(), PushError>) {
    && acked <= |order|
    && (r.Ok? ==> acked == |order| && w'.ingested == w.ingested + order)
    && (r.Err? ==> acked < |order|)
    && (r.Err? ==> w'.ingested == w.ingested + order[..acked] || w'.ingested == w.ingested + order[..acked + 1])
  }

  /** How many of the requests `from` up to `to` were accepted. */
  function Acks(net: Network, from: nat, to: nat): nat
    decreases to
  {
    if to <= from then 0 else Acks(net, from, to - 1) + if Accepted(net(to - 1).outcome) then 1 else 0
  }

  ghost predicate AllAccepted(net: Network, from: nat, to: nat) {
    forall k: nat :: from <= k < to ==> Accepted(net(k).outcome)
  }

  /** How a run over `items` bodies ends, from what its requests met: it acknowledges
      one body per accepted request, goes on only past those and past connect
      failures, and its last request decides what it reports. */
  ghost predicate RunReported(
    net: Network, w: World, w': World, items: nat, acked: nat, r: Result<(), PushError>)
  {
    && w'.sent >= w.sent && acked == Acks(net, w.sent, w'.sent)
    && (forall k: nat :: w.sent <= k < w'.sent - 1 ==>
          net(k).outcome == ConnectFailed || Accepted(net(k).outcome))
    && (items == 0 ==> r.Ok? && w'.sent == w.sent)
    && (items > 0 ==> w'.sent > w.sent && Reported(net(w'.sent - 1).outcome, r))
    && (AllAccepted(net, w.sent, w'.sent) ==> r.Ok? && w'.sent == w.sent + items)
  }

  lemma {:induction false} AcksJoin(net: Network, a: nat, b: nat, c: nat)
    requires a <= b <= c
    ensures Acks(net, a, c) == Acks(net, a, b) + Acks(net, b, c)
  {
    if b < c { AcksJoin(net, a, b, c - 1); }
  }

  lemma {:induction false} NoAcks(net: Network, a: nat, b: nat)
    requires NoneConnected(net, a, b)
    ensures Acks(net, a, b) == 0
  {
    if a < b { NoAcks(net, a, b - 1); }
  }

  lemma {:induction false} EveryAck(net: Network, a: nat, b: nat)
    requires AllAccepted(net, a, b) && a <= b
    ensures Acks(net, a, b) == b - a
  {
    if a < b { EveryAck(net, a, b - 1); }
  }

  /** A run in progress: everything so far was delivered in order and acknowledged. */
  ghost predicate Going(net: Network, w: World, w': World, order: seq<Item>, acked: nat) {
    && acked <= |order| && w'.ingested == w.ingested + order[..acked]
    && w'.sent >= w.sent && acked == Acks(net, w.sent, w'.sent)
    && (acked > 0 ==> w'.sent > w.sent && Accepted(net(w'.sent - 1).outcome))
    && (acked == 0 ==> w'.sent == w.sent)
    && (forall k: nat :: w.sent <= k < w'.sent ==> net(k).outcome == ConnectFailed || Accepted(net(k).outcome))
  }

  ghost predicate Ended(
    net: Network, w: World, w': World, order: seq<Item>, acked: nat, r: Result<(), PushError>)
  {
    PrefixPushed(w, w', order, acked, r) && RunReported(net, w, w', |order|, acked, r)
  }

  lemma RunBegun(net: Network, w: World, order: seq<Item>)
    ensures Going(net, w, w, order, 0)
  {
  }

  /** One more push continues the run, or ends it. */
  lemma GoesOn(net: Network, w: World, mid: World, w': World, order: seq<Item>, acked: nat,
               r: Result<(), PushError>)
    requires Going(net, w, mid, order, acked) && acked < |order|
    requires PushedOnce(net, mid, w', order[acked], r)
    ensures r.Ok? ==> Going(net, w, w', order, acked + 1)
    ensures r.Err? ==> Ended(net, w, w', order, acked, r)
  {
    AcksAfter(net, w.sent, mid.sent, w'.sent);
    assert order[..acked + 1] == order[..acked] + [order[acked]];
  }

  lemma AcksAfter(net: Network, a: nat, b: nat, c: nat)
    requires a <= b < c && NoneConnected(net, b, c - 1)
    ensures Acks(net, a, c) == Acks(net, a, b) + if Accepted(net(c - 1).outcome) then 1 else 0
  {
    AcksJoin(net, a, b, c);
    NoAcks(net, b, c - 1);
  }

  lemma RunDone(net: Network, w: World, w': World, order: seq<Item>, r: Result<(), PushError>)
    requires Going(net, w, w', order, |order|) && r.Ok?
    ensures Ended(net, w, w', order, |order|, r)
  {
    assert order[..|order|] == order;
    if AllAccepted(net, w.sent, w'.sent) { EveryAck(net, w.sent, w'.sent); }
  }

  /** `push_sm_corpus`: every body to the first store, then every body to the second. */
  method PushSmCorpus(net: Network, w: World, bodies: nat)
    returns (r: Result<(), PushError>, w': World, acked: nat)
    requires HonestNet(net)
    ensures PrefixPushed(w, w', Order(2, bodies), acked, r)
    ensures RunReported(net, w, w', 2 * bodies, acked, r)
  {
    hide Going, PushedOnce, PrefixPushed, RunReported;
    w', acked, r := w, 0, Ok(());
    ghost var order := Order(2, bodies);
    var store := 0;
    RunBegun(net, w, order);
    while store < 2
      invariant 0 <= store <= 2 && r.Ok?
      invariant acked == store * bodies && Going(net, w, w', order, acked)
    {
      var body := 0;
      while body < bodies
        invariant 0 <= body <= bodies && r.Ok?
        invariant acked == store * bodies + body && Going(net, w, w', order, acked)
      {
        OrderAt(2, bodies, store, body);
        ghost var before := w';
        r, w' := PushPolling(net, w', Item(store, body));
        GoesOn(net, w, before, w', order, acked, r);
        if r.Err? { return; }
        acked := acked + 1;
        body := body + 1;
      }
      store := store + 1;
    }
    RunDone(net, w, w', order, r);
  }

  lemma OrderAt(stores: nat, bodies: nat, store: nat, body: nat)
    requires store < stores && body < bodies
    ensures store * bodies + body < stores * bodies
    ensures Order(stores, bodies)[store * bodies + body] == Item(store, body)
  {
    MulLe(store + 1, stores, bodies);
    assert (store + 1) * bodies == store * bodies + bodies;
    DivUnique(store * bodies + body, bodies, store, body);
  }

  /** Once a request got through, no later one but the last failed to connect. */
  ghost predicate NoLaterRetry(net: Network, from: nat, to: nat) {
    forall j: nat, k: nat :: from <= j < k < to && Accepted(net(j).outcome) ==> Accepted(net(k).outcome)
  }

  /** `push_corpus`: the first request polls, the rest are plain posts. */
  method PushCorpus(net: Network, w: World, requests: nat)
    returns (r: Result<(), PushError>, w': World, acked: nat)
    requires HonestNet(net)
    ensures requests == 0 ==> r == Err(NoRequests) && w' == w
    ensures requests > 0 ==> PrefixPushed(w, w', Order(1, requests), acked, r)
    ensures requests > 0 ==> RunReported(net, w, w', requests, acked, r)
    ensures requests > 0 ==> NoLaterRetry(net, w.sent, w'.sent - 1)
  {
    hide Going, PrefixPushed, RunReported, Reported;
    w', acked := w, 0;
    if requests == 0 { r := Err(NoRequests); return; }
    ghost var order := Order(1, requests);
    OrderAt(1, requests, 0, 0);
    RunBegun(net, w, order);
    r, w' := PushPolling(net, w, Item(0, 0));
    GoesOn(net, w, w, w', order, 0, r);
    NothingAccepted(net, w.sent, w'.sent - 1);
    if r.Err? { return; }
    acked := 1;
    while acked < requests
      invariant 1 <= acked <= requests == |order| && r.Ok? && w'.sent > w.sent
      invariant Going(net, w, w', order, acked) && NoLaterRetry(net, w.sent, w'.sent)
    {
      OrderAt(1, requests, 0, acked);
      ghost var before := w';
      r, w' := PushPlain(net, w', Item(0, acked));
      GoesOn(net, w, before, w', order, acked, r);
      if r.Err? { return; }
      LastAccepted(net, w, w', order, acked + 1);
      acked := acked + 1;
    }
    RunDone(net, w, w', order, r);
  }

  lemma NothingAccepted(net: Network, from: nat, to: nat)
    requires NoneConnected(net, from, to)
    ensures NoLaterRetry(net, from, to + 1)
  {
  }

  lemma LastAccepted(net: Network, w: World, w': World, order: seq<Item>, acked: nat)
    requires Going(net, w, w', order, acked) && acked > 0 && NoLaterRetry(net, w.sent, w'.sent - 1)
    ensures NoLaterRetry(net, w.sent, w'.sent)
  {
  }

  /** However a push run ends, no store holds any body twice; if it ends well,
      every store holds every body exactly once. */
  lemma NeverTwice(w: World, w': World, stores: nat, bodies: nat, acked: nat, r: Result<(), PushError>)
    requires w.ingested == [] && PrefixPushed(w, w', Order(stores, bodies), acked, r)
    ensures forall i, j :: 0 <= i < j < |w'.ingested| ==> w'.ingested[i] != w'.ingested[j]
    ensures r.Ok? ==> forall s: nat, b: nat :: s < stores && b < bodies ==> Item(s, b) in w'.ingested
    ensures forall item :: item in w'.ingested ==> item.store < stores && item.index < bodies
  {
    var order := Order(stores, bodies);
    var n := |w'.ingested|;
    assert w'.ingested == order[..n];
    forall i | 0 <= i < |order|
      ensures i == order[i].store * bodies + order[i].index && order[i].store < stores && order[i].index < bodies
    {
      PlaceOf(i, stores, bodies);
    }
    if r.Ok? {
      forall s: nat, b: nat | s < stores && b < bodies ensures Item(s, b) in w'.ingested {
        OrderAt(stores, bodies, s, b);
        assert w'.ingested[s * bodies + b] == Item(s, b);
      }
    }
  }

  predicate Earlier(a: Item, b: Item) {
    a.store < b.store || (a.store == b.store && a.index < b.index)
  }

  /** Store by store, body by body: what was ingested is in that order, and when a body was, so
      was every one before it. In particular a store receives nothing until the one before has all. */
  lemma StoreByStore(w: World, w': World, stores: nat, bodies: nat, acked: nat, r: Result<(), PushError>)
    requires w.ingested == [] && PrefixPushed(w, w', Order(stores, bodies), acked, r)
    ensures forall i, j :: 0 <= i < j < |w'.ingested| ==> Earlier(w'.ingested[i], w'.ingested[j])
    ensures forall a: Item, b: Item :: b in w'.ingested && Earlier(a, b) && a.index < bodies ==> a in w'.ingested
  {
    hide Earlier, Order;
    var (order, n) := (Order(stores, bodies), |w'.ingested|);
    assert w'.ingested == order[..n];
    forall i, j | 0 <= i < j < n ensures Earlier(w'.ingested[i], w'.ingested[j]) {
      OrderEarlier(stores, bodies, i, j);
    }
    forall a: Item, b: Item | b in w'.ingested && Earlier(a, b) && a.index < bodies ensures a in w'.ingested {
      var j :| 0 <= j < n && w'.ingested[j] == b;
      var i := EarlierPlace(stores, bodies, a, j);
      assert w'.ingested[i] == a;
    }
  }

  lemma OrderEarlier(stores: nat, bodies: nat, i: nat, j: nat)
    requires i < j < |Order(stores, bodies)|
    ensures Earlier(Order(stores, bodies)[i], Order(stores, bodies)[j])
  {
    PlaceOf(i, stores, bodies);
    PlaceOf(j, stores, bodies);
    var (p, q) := (i / bodies, j / bodies);
    if p > q {
      MulLe(q + 1, p, bodies);
      Spread(q, 1, bodies);
    }
  }

  lemma EarlierPlace(stores: nat, bodies: nat, a: Item, j: nat) returns (i: nat)
    requires j < |Order(stores, bodies)| && Earlier(a, Order(stores, bodies)[j]) && a.index < bodies
    ensures i < j && Order(stores, bodies)[i] == a
  {
    PlaceOf(j, stores, bodies);
    OrderAt(stores, bodies, a.store, a.index);
    i := a.store * bodies + a.index;
    var q := j / bodies;
    if a.store < q {
      MulLe(a.store + 1, q, bodies);
      Spread(a.store, 1, bodies);
    }
  }

  lemma PlaceOf(i: nat, stores: nat, bodies: nat)
    requires i < stores * bodies
    ensures bodies > 0 && i == (i / bodies) * bodies + i % bodies && i / bodies < stores && i % bodies < bodies
  {
    if i / bodies >= stores { MulLe(stores, i / bodies, bodies); }
  }

  // ----- the guard is exactly what is needed -----

  ghost predicate AtMostOnceUnder(guard: SendOutcome -> bool) {
    forall net: Network, sent: nat, start: nat, timeout: nat, interval: nat, starts: seq<nat>, item: Item ::
      HonestNet(net) && IsRun(PollEnv(guard, net, sent), start, timeout, interval, starts)
      ==> |Delivered(net, sent, |starts|, item)| <= 1
  }

  /** A retry guard is safe on every honest network exactly when it retries
      nothing but connect-phase failures. */
  lemma GuardIsExact(guard: SendOutcome -> bool)
    ensures AtMostOnceUnder(guard) <==> forall o :: guard(o) ==> o.ConnectFailed?
  {
    if o :| guard(o) && !o.ConnectFailed? {
      DoubleDelivery(guard, o);
    } else {
      forall net: Network, sent: nat, start: nat, timeout: nat, interval: nat, starts: seq<nat>, item: Item
        | HonestNet(net) && IsRun(PollEnv(guard, net, sent), start, timeout, interval, starts)
        ensures |Delivered(net, sent, |starts|, item)| <= 1
      {
        NothingRetried(guard, net, sent, start, timeout, interval, starts, item, |starts| - 1);
      }
    }
  }

  lemma DoubleDelivery(guard: SendOutcome -> bool, o: SendOutcome)
    requires guard(o) && !o.ConnectFailed?
    ensures !AtMostOnceUnder(guard)
  {
    var net: Network := k => if k == 0 then Reaction(o, true, 0, 0) else Reaction(Responded(200), true, 0, 0);
    var starts := [0, 1];
    var env := PollEnv(guard, net, 0);
    PollEnvAt(guard, net, 0, 0);
    assert net(0) == Reaction(o, true, 0, 0);
    assert Continues(env, 1, 1, 0, starts[0], starts[1]);
    assert IsRun(env, 0, 1, 1, starts);
    var item := Item(0, 0);
    assert Delivered(net, 0, 1, item) == [item];
    assert |Delivered(net, 0, |starts|, item)| == 2;
  }
}
