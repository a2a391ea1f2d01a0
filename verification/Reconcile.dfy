/** The reconcile loop as interleaved steps: informer, work queue, workers, version counter and snapshot cache. */
module Reconcile {
  import opened Text

  const TWO_TO_THE_64 := 0x1_0000_0000_0000_0000

  // ----- state -----

  /** What the informer cache holds of a Gateway: its resource version, and whether it has our GatewayClass. */
  datatype GatewayObject = GatewayObject(version: nat, ours: bool)

  /** An informer event that its handler has not seen yet; ours says whether it carries a Gateway of our class. */
  datatype Notification = Notification(key: string, ours: bool)

  /** Where a worker is in processNextWorkItem. seen is the version that syncHandler read, None for a deleted Gateway. */
  datatype Worker =
    | Idle
    | Got(key: string)
    | Read(key: string, seen: Option<nat>)
    | Drawn(key: string, seen: Option<nat>, version: nat)
    | Pushed(key: string, seen: Option<nat>)
    | Failing(key: string)
    | Releasing(key: string)

  /** A snapshot in the cache of the xDS server, with the version of the Gateway that it was built from. */
  datatype Install = Install(node: string, version: nat, seen: Option<nat>)

  datatype State = State(
    cache: map<string, GatewayObject>, clock: nat, undelivered: seq<Notification>,
    dirty: set<string>, processing: set<string>, queue: seq<string>, backoff: set<string>,
    workers: seq<Worker>, counter: nat, installs: seq<Install>, synced: map<string, nat>)

  predicate Init(n: nat, s: State) {
    s == State(map[], 0, [], {}, {}, [], {}, seq(n, _ => Idle), 0, [], map[])
  }

  /** The atomic counter after one increment, as a uint64. */
  function NextVersion(counter: nat): nat { (counter + 1) % TWO_TO_THE_64 }

  /** The node a Gateway's proxies identify as; hash stands for the truncated digest of the key. */
  function NodeId(hash: string -> string, key: string): (id: string)
    ensures |id| >= 12 && id[12..] == hash(key)
  {
    "envoy-proxy-" + hash(key)
  }

  // ----- the queue -----

  /** Adding a key: once while it waits, and put off while a worker has it. */
  function Add(s: State, key: string): State {
    if key in s.dirty then s
    else if key in s.processing then s.(dirty := s.dirty + {key})
    else s.(dirty := s.dirty + {key}, queue := s.queue + [key])
  }

  /** Giving a key back: it waits again if it was added meanwhile. */
  function Release(s: State, key: string): State {
    s.(processing := s.processing - {key}, queue := if key in s.dirty then s.queue + [key] else s.queue)
  }

  // ----- steps -----

  datatype Event =
    | CacheUpdate(key: string, ours: bool)
    | CacheDelete(key: string, watched: bool)
    | Deliver
    | EnqueueForRoute(key: string)
    | BackoffOver(key: string)
    | Get(w: nat)
    | ReadGateway(w: nat)
    | DrawVersion(w: nat)
    | InstallSnapshot(w: nat)
    | Fail(w: nat)
    | Forget(w: nat)
    | AddRateLimited(w: nat)
    | Done(w: nat)

  predicate Enabled(s: State, e: Event) {
    match e
    case CacheUpdate(_, _) => true
    case CacheDelete(key, _) => key in s.cache
    case Deliver => s.undelivered != []
    case EnqueueForRoute(_) => true
    case BackoffOver(key) => key in s.backoff
    case Get(w) => w < |s.workers| && s.workers[w].Idle? && s.queue != []
    case ReadGateway(w) => w < |s.workers| && s.workers[w].Got?
    case DrawVersion(w) => w < |s.workers| && s.workers[w].Read? && s.workers[w].seen.Some?
    case InstallSnapshot(w) => w < |s.workers| && s.workers[w].Drawn?
    case Fail(w) => w < |s.workers| && (s.workers[w].Got? || s.workers[w].Read? || s.workers[w].Drawn?)
    case Forget(w) => w < |s.workers| && (s.workers[w].Pushed? || (s.workers[w].Read? && s.workers[w].seen.None?))
    case AddRateLimited(w) => w < |s.workers| && s.workers[w].Failing?
    case Done(w) => w < |s.workers| && s.workers[w].Releasing?
  }

  function SetWorker(s: State, w: nat, x: Worker): State
    requires w < |s.workers|
  {
    s.(workers := s.workers[w := x])
  }

  function Apply(hash: string -> string, s: State, e: Event): State
    requires Enabled(s, e)
  {
    match e
    case CacheUpdate(key, ours) =>
      s.(cache := s.cache[key := GatewayObject(s.clock + 1, ours)], clock := s.clock + 1,
         undelivered := s.undelivered + [Notification(key, ours)])
    case CacheDelete(key, watched) =>
      // A deletion that the watch missed is notified with a tombstone, which the handler does not take for a Gateway.
      s.(cache := s.cache - {key}, undelivered := s.undelivered + [Notification(key, watched && s.cache[key].ours)])
    case Deliver =>
      var n, t := s.undelivered[0], s.(undelivered := s.undelivered[1..]);
      if n.ours then Add(t, n.key) else t
    case EnqueueForRoute(key) => Add(s, key)
    case BackoffOver(key) => Add(s.(backoff := s.backoff - {key}), key)
    case Get(w) =>
      var key := s.queue[0];
      SetWorker(s.(queue := s.queue[1..], processing := s.processing + {key}, dirty := s.dirty - {key}), w, Got(key))
    case ReadGateway(w) =>
      var key := s.workers[w].key;
      SetWorker(s, w, Read(key, if key in s.cache then Some(s.cache[key].version) else None))
    case DrawVersion(w) =>
      var v := NextVersion(s.counter);
      SetWorker(s.(counter := v), w, Drawn(s.workers[w].key, s.workers[w].seen, v))
    case InstallSnapshot(w) =>
      var x := s.workers[w];
      SetWorker(s.(installs := s.installs + [Install(NodeId(hash, x.key), x.version, x.seen)]), w, Pushed(x.key, x.seen))
    case Fail(w) => SetWorker(s, w, Failing(s.workers[w].key))
    case Forget(w) =>
      var x := s.workers[w];
      SetWorker(s.(synced := if x.seen.Some? then s.synced[x.key := x.seen.value] else s.synced - {x.key}),
                w, Releasing(x.key))
    case AddRateLimited(w) =>
      var key := s.workers[w].key;
      SetWorker(s.(backoff := s.backoff + {key}), w, Releasing(key))
    case Done(w) => SetWorker(Release(s, s.workers[w].key), w, Idle)
  }

  // ----- runs -----

  datatype Run = Run(states: seq<State>, events: seq<Event>)

  /** A run of n workers in any interleaving, from the initial state. */
  ghost predicate IsRun(hash: string -> string, n: nat, r: Run) {
    && |r.states| == |r.events| + 1 && Init(n, r.states[0])
    && forall i :: 0 <= i < |r.events| ==>
         Enabled(r.states[i], r.events[i]) && r.states[i + 1] == Apply(hash, r.states[i], r.events[i])
  }

  // ----- a key has one holder -----

  predicate Holds(x: Worker, key: string) { !x.Idle? && x.key == key }

  /** The queue's contract: waiting keys wait once and are exactly the dirty keys nobody holds; a held key has one
      holder and is marked as processed. */
  ghost predicate QueueInv(s: State) {
    && (forall i, j :: 0 <= i < j < |s.queue| ==> s.queue[i] != s.queue[j])
    && (forall k :: k in s.queue <==> k in s.dirty && k !in s.processing)
    && (forall w :: 0 <= w < |s.workers| && !s.workers[w].Idle? ==> s.workers[w].key in s.processing)
    && (forall k :: k in s.processing ==> exists w :: 0 <= w < |s.workers| && Holds(s.workers[w], k))
    && (forall w, v :: 0 <= w < v < |s.workers| && !s.workers[w].Idle? && !s.workers[v].Idle? ==>
          s.workers[w].key != s.workers[v].key)
  }

  lemma AddKeepsQueue(s: State, key: string)
    requires QueueInv(s)
    ensures QueueInv(Add(s, key))
  {
    var t := Add(s, key);
    assert t.workers == s.workers;
  }

  lemma QueueStep(hash: string -> string, s: State, e: Event)
    requires QueueInv(s) && Enabled(s, e)
    ensures QueueInv(Apply(hash, s, e))
  {
    match e
    case Deliver => DeliverKeepsQueue(hash, s);
    case EnqueueForRoute(key) => AddKeepsQueue(s, key);
    case BackoffOver(key) => BackoffKeepsQueue(hash, s, key);
    case Get(w) => GetKeepsQueue(hash, s, w);
    case Done(w) => DoneKeepsQueue(hash, s, w);
    case _ =>
      HoldersStay(hash, s, e);
      SameHoldersKeepQueue(s, Apply(hash, s, e));
  }

  lemma HoldersStay(hash: string -> string, s: State, e: Event)
    requires Enabled(s, e)
    requires !e.Deliver? && !e.EnqueueForRoute? && !e.BackoffOver? && !e.Get? && !e.Done?
    ensures SameHolders(s, Apply(hash, s, e))
  {
  }

  lemma DeliverKeepsQueue(hash: string -> string, s: State)
    requires QueueInv(s) && Enabled(s, Deliver)
    ensures QueueInv(Apply(hash, s, Deliver))
  {
    var t := s.(undelivered := s.undelivered[1..]);
    SameHoldersKeepQueue(s, t);
    AddKeepsQueue(t, s.undelivered[0].key);
  }

  lemma BackoffKeepsQueue(hash: string -> string, s: State, key: string)
    requires QueueInv(s) && Enabled(s, BackoffOver(key))
    ensures QueueInv(Apply(hash, s, BackoffOver(key)))
  {
    var t := s.(backoff := s.backoff - {key});
    SameHoldersKeepQueue(s, t);
    AddKeepsQueue(t, key);
  }

  /** The queue is left alone, and every worker with its key. */
  ghost predicate SameHolders(s: State, t: State) {
    && t.queue == s.queue && t.dirty == s.dirty && t.processing == s.processing && |t.workers| == |s.workers|
    && forall w :: 0 <= w < |s.workers| ==>
         (t.workers[w].Idle? <==> s.workers[w].Idle?) && (!s.workers[w].Idle? ==> t.workers[w].key == s.workers[w].key)
  }

  lemma SameHoldersKeepQueue(s: State, t: State)
    requires QueueInv(s)
    requires SameHolders(s, t)
    ensures QueueInv(t)
  {
    forall k | k in t.processing ensures exists w :: 0 <= w < |t.workers| && Holds(t.workers[w], k) {
      var w :| 0 <= w < |s.workers| && Holds(s.workers[w], k);
      assert Holds(t.workers[w], k);
    }
  }

  lemma GetKeepsQueue(hash: string -> string, s: State, w: nat)
    requires QueueInv(s) && Enabled(s, Get(w))
    ensures QueueInv(Apply(hash, s, Get(w)))
  {
    var t, key := Apply(hash, s, Get(w)), s.queue[0];
    assert s.queue == [key] + s.queue[1..];
    forall k | k in t.processing ensures exists v :: 0 <= v < |t.workers| && Holds(t.workers[v], k) {
      if k == key {
        assert Holds(t.workers[w], k);
      } else {
        var v :| 0 <= v < |s.workers| && Holds(s.workers[v], k);
        assert Holds(t.workers[v], k);
      }
    }
  }

  lemma DoneKeepsQueue(hash: string -> string, s: State, w: nat)
    requires QueueInv(s) && Enabled(s, Done(w))
    ensures QueueInv(Apply(hash, s, Done(w)))
  {
    var t, key := Apply(hash, s, Done(w)), s.workers[w].key;
    forall k | k in t.processing ensures exists v :: 0 <= v < |t.workers| && Holds(t.workers[v], k) {
      var v :| 0 <= v < |s.workers| && Holds(s.workers[v], k);
      assert Holds(t.workers[v], k);
    }
    assert forall k :: k in s.queue ==> k != key;
  }

  // ----- versions -----

  /** Installed versions strictly increase on every node, and no version is installed twice anywhere. */
  ghost predicate Monotone(installs: seq<Install>) {
    forall i, j :: 0 <= i < j < |installs| ==>
      installs[i].version != installs[j].version &&
      (installs[i].node == installs[j].node ==> installs[i].version < installs[j].version)
  }

  /** No two of the keys share a node: their digests differ. */
  ghost predicate NodesDistinct(hash: string -> string, keys: set<string>) {
    forall a, b :: a in keys && b in keys && hash(a) == hash(b) ==> a == b
  }

  /** A drawn version is not installed yet, is above all installed on its node, and nobody else has it. */
  ghost predicate VersionInv(hash: string -> string, s: State) {
    && Monotone(s.installs)
    && (forall i :: 0 <= i < |s.installs| ==> s.installs[i].version <= s.counter)
    && (forall w :: 0 <= w < |s.workers| && s.workers[w].Drawn? ==> s.workers[w].version <= s.counter)
    && (forall w, i :: 0 <= w < |s.workers| && s.workers[w].Drawn? && 0 <= i < |s.installs| ==>
          s.installs[i].version != s.workers[w].version &&
          (s.installs[i].node == NodeId(hash, s.workers[w].key) ==> s.installs[i].version < s.workers[w].version))
    && (forall w, v :: 0 <= w < v < |s.workers| && s.workers[w].Drawn? && s.workers[v].Drawn? ==>
          s.workers[w].version != s.workers[v].version)
  }

  /** The keys that occur in a state. */
  ghost predicate KeysIn(s: State, keys: set<string>) {
    && s.dirty <= keys && s.processing <= keys && s.backoff <= keys
    && (forall n :: n in s.undelivered ==> n.key in keys)
  }

  predicate EventOver(e: Event, keys: set<string>) {
    match e
    case CacheUpdate(key, _) => key in keys
    case CacheDelete(key, _) => key in keys
    case EnqueueForRoute(key) => key in keys
    case BackoffOver(key) => key in keys
    case _ => true
  }

  lemma VersionStep(hash: string -> string, keys: set<string>, s: State, e: Event)
    requires VersionInv(hash, s) && QueueInv(s) && KeysIn(s, keys) && NodesDistinct(hash, keys)
    requires Enabled(s, e) && s.counter + 1 < TWO_TO_THE_64
    ensures VersionInv(hash, Apply(hash, s, e))
  {
    match e
    case InstallSnapshot(w) => InstallStep(hash, keys, s, w);
    case DrawVersion(w) => DrawStep(hash, s, w);
    case _ =>
      OthersKeepVersions(hash, s, e);
      OtherVersionStep(hash, s, Apply(hash, s, e));
  }

  lemma OthersKeepVersions(hash: string -> string, s: State, e: Event)
    requires Enabled(s, e) && !e.InstallSnapshot? && !e.DrawVersion?
    ensures KeepsVersions(s, Apply(hash, s, e))
  {
  }

  /** No version is drawn or installed. */
  predicate KeepsVersions(s: State, t: State) {
    && t.installs == s.installs && t.counter == s.counter && |t.workers| == |s.workers|
    && forall w :: 0 <= w < |s.workers| && t.workers[w].Drawn? ==> t.workers[w] == s.workers[w]
  }

  /** Steps that neither draw nor install keep versions as they are. */
  lemma OtherVersionStep(hash: string -> string, s: State, t: State)
    requires VersionInv(hash, s) && KeepsVersions(s, t)
    ensures VersionInv(hash, t)
  {
  }

  lemma DrawStep(hash: string -> string, s: State, w: nat)
    requires VersionInv(hash, s) && Enabled(s, DrawVersion(w)) && s.counter + 1 < TWO_TO_THE_64
    ensures VersionInv(hash, Apply(hash, s, DrawVersion(w)))
  {
    assert Apply(hash, s, DrawVersion(w)).counter == s.counter + 1;
  }

  /** Installing is safe because no other worker holds a key of the same node. */
  lemma InstallStep(hash: string -> string, keys: set<string>, s: State, w: nat)
    requires VersionInv(hash, s) && QueueInv(s) && KeysIn(s, keys) && NodesDistinct(hash, keys)
    requires Enabled(s, InstallSnapshot(w))
    ensures VersionInv(hash, Apply(hash, s, InstallSnapshot(w)))
  {
    var x := Install(NodeId(hash, s.workers[w].key), s.workers[w].version, s.workers[w].seen);
    var t := Apply(hash, s, InstallSnapshot(w));
    OtherWorkersDiffer(hash, keys, s, w);
    InstalledKeepsVersions(hash, s, t, x, w);
  }

  /** One more install, of a version that worker w had drawn and that no other worker has. */
  lemma InstalledKeepsVersions(hash: string -> string, s: State, t: State, x: Install, w: nat)
    requires VersionInv(hash, s) && w < |s.workers| && s.workers[w].Drawn?
    requires x.node == NodeId(hash, s.workers[w].key) && x.version == s.workers[w].version
    requires forall v :: 0 <= v < |s.workers| && v != w && s.workers[v].Drawn? ==>
               s.workers[v].version != x.version && NodeId(hash, s.workers[v].key) != x.node
    requires t.installs == s.installs + [x] && t.counter == s.counter && |t.workers| == |s.workers|
    requires forall v :: 0 <= v < |t.workers| && t.workers[v].Drawn? ==> v != w && t.workers[v] == s.workers[v]
    ensures VersionInv(hash, t)
  {
    NewestInstalled(s.installs, x);
    forall v, i | 0 <= v < |t.workers| && t.workers[v].Drawn? && 0 <= i < |t.installs|
      ensures t.installs[i].version != t.workers[v].version
      ensures t.installs[i].node == NodeId(hash, t.workers[v].key) ==> t.installs[i].version < t.workers[v].version
    {
      assert i < |s.installs| ==> t.installs[i] == s.installs[i];
    }
  }

  lemma NewestInstalled(installs: seq<Install>, x: Install)
    requires Monotone(installs)
    requires forall i :: 0 <= i < |installs| ==>
               installs[i].version != x.version && (installs[i].node == x.node ==> installs[i].version < x.version)
    ensures Monotone(installs + [x])
  {
  }

  /** Workers that hold versions to install hold different ones, and for different nodes. */
  lemma OtherWorkersDiffer(hash: string -> string, keys: set<string>, s: State, w: nat)
    requires VersionInv(hash, s) && QueueInv(s) && KeysIn(s, keys) && NodesDistinct(hash, keys)
    requires w < |s.workers| && s.workers[w].Drawn?
    ensures forall v :: 0 <= v < |s.workers| && v != w && s.workers[v].Drawn? ==>
              s.workers[v].version != s.workers[w].version
              && NodeId(hash, s.workers[v].key) != NodeId(hash, s.workers[w].key)
  {
    forall v | 0 <= v < |s.workers| && v != w && s.workers[v].Drawn?
      ensures s.workers[v].version != s.workers[w].version
      ensures NodeId(hash, s.workers[v].key) != NodeId(hash, s.workers[w].key)
    {
      assert s.workers[v].key in s.processing && s.workers[w].key in s.processing;
    }
  }

  lemma KeysStep(hash: string -> string, keys: set<string>, s: State, e: Event)
    requires KeysIn(s, keys) && QueueInv(s) && Enabled(s, e) && EventOver(e, keys)
    ensures KeysIn(Apply(hash, s, e), keys)
  {
    match e
    case AddRateLimited(w) => assert s.workers[w].key in s.processing;
    case _ =>
  }

  lemma CounterStep(hash: string -> string, s: State, e: Event)
    requires Enabled(s, e)
    ensures Apply(hash, s, e).counter <= s.counter + 1
  {
  }

  ghost predicate RunOver(hash: string -> string, n: nat, keys: set<string>, r: Run) {
    IsRun(hash, n, r) && forall i :: 0 <= i < |r.events| ==> EventOver(r.events[i], keys)
  }

  /** What holds after i steps of a run over keys with distinct nodes. */
  lemma {:induction false} RunInvariant(hash: string -> string, n: nat, keys: set<string>, r: Run, i: nat)
    requires RunOver(hash, n, keys, r) && NodesDistinct(hash, keys) && i <= |r.events| < TWO_TO_THE_64
    ensures Invariant(hash, keys, i, r.states[i])
  {
    if i == 0 {
      InitKeeps(hash, n, keys, r.states[0]);
    } else {
      RunInvariant(hash, n, keys, r, i - 1);
      InvariantStep(hash, keys, i - 1, r.states[i - 1], r.events[i - 1]);
    }
  }

  /** The state after i steps: versions and queue are in order, all keys are known, and the counter has not wrapped. */
  ghost predicate Invariant(hash: string -> string, keys: set<string>, i: nat, s: State) {
    VersionInv(hash, s) && QueueInv(s) && KeysIn(s, keys) && s.counter <= i
  }

  lemma InitKeeps(hash: string -> string, n: nat, keys: set<string>, s: State)
    requires Init(n, s)
    ensures Invariant(hash, keys, 0, s)
  {
  }

  lemma InvariantStep(hash: string -> string, keys: set<string>, i: nat, s: State, e: Event)
    requires Invariant(hash, keys, i, s) && NodesDistinct(hash, keys) && i + 1 < TWO_TO_THE_64
    requires Enabled(s, e) && EventOver(e, keys)
    ensures Invariant(hash, keys, i + 1, Apply(hash, s, e))
  {
    VersionStep(hash, keys, s, e);
    QueueStep(hash, s, e);
    KeysStep(hash, keys, s, e);
    CounterStep(hash, s, e);
  }

  /** In every interleaving that is too short to wrap the counter, per-node versions strictly increase. */
  lemma InstallsMonotone(hash: string -> string, n: nat, keys: set<string>, r: Run)
    requires RunOver(hash, n, keys, r) && NodesDistinct(hash, keys) && |r.events| < TWO_TO_THE_64
    ensures Monotone(r.states[|r.events|].installs)
  {
    RunInvariant(hash, n, keys, r, |r.events|);
  }

  // ----- monotonicity rests on distinct nodes -----

  function Last(r: Run): State
    requires r.states != []
  {
    r.states[|r.states| - 1]
  }

  lemma ExtendRun(hash: string -> string, n: nat, keys: set<string>, r: Run, e: Event) returns (r': Run)
    requires RunOver(hash, n, keys, r) && Enabled(Last(r), e) && EventOver(e, keys)
    ensures RunOver(hash, n, keys, r') && |r'.events| == |r.events| + 1 && Last(r') == Apply(hash, Last(r), e)
  {
    r' := Run(r.states + [Apply(hash, Last(r), e)], r.events + [e]);
  }

  /** Two Gateways are cached and both wait for a worker. */
  lemma BothQueued(hash: string -> string, n: nat, keys: set<string>, a: string, b: string) returns (r: Run)
    requires n >= 2 && a in keys && b in keys && a != b
    ensures RunOver(hash, n, keys, r) && |r.events| == 4
    ensures var s := Last(r);
      && a in s.cache && b in s.cache && s.queue == [a, b]
      && s.workers == seq(n, _ => Idle) && s.counter == 0 && s.installs == []
  {
    var s0 := State(map[], 0, [], {}, {}, [], {}, seq(n, _ => Idle), 0, [], map[]);
    r := Run([s0], []);
    r := ExtendRun(hash, n, keys, r, CacheUpdate(a, true));
    r := ExtendRun(hash, n, keys, r, CacheUpdate(b, true));
    r := ExtendRun(hash, n, keys, r, EnqueueForRoute(a));
    assert Last(r).queue == [a];
    r := ExtendRun(hash, n, keys, r, EnqueueForRoute(b));
  }

  /** Two workers have drawn their versions in turn. */
  lemma BothDrawn(hash: string -> string, n: nat, keys: set<string>, a: string, b: string) returns (r: Run)
    requires n >= 2 && a in keys && b in keys && a != b
    ensures RunOver(hash, n, keys, r) && |r.events| == 10
    ensures var s := Last(r);
      && |s.workers| == n && s.installs == []
      && s.workers[0].Drawn? && s.workers[0].key == a && s.workers[0].version == 1
      && s.workers[1].Drawn? && s.workers[1].key == b && s.workers[1].version == 2
  {
    r := BothQueued(hash, n, keys, a, b);
    r := ExtendRun(hash, n, keys, r, Get(0));
    assert Last(r).queue == [b] && Last(r).workers[0] == Got(a);
    r := ExtendRun(hash, n, keys, r, Get(1));
    assert Last(r).workers[1] == Got(b);
    r := ExtendRun(hash, n, keys, r, ReadGateway(0));
    r := ExtendRun(hash, n, keys, r, ReadGateway(1));
    r := ExtendRun(hash, n, keys, r, DrawVersion(0));
    r := ExtendRun(hash, n, keys, r, DrawVersion(1));
  }

  /** With two workers, two Gateways on one node can be installed against version order. */
  lemma SharedNodeGoesBack(hash: string -> string, n: nat, keys: set<string>, a: string, b: string) returns (r: Run)
    requires n >= 2 && a in keys && b in keys && a != b && NodeId(hash, a) == NodeId(hash, b)
    ensures RunOver(hash, n, keys, r) && |r.events| < TWO_TO_THE_64
    ensures !Monotone(r.states[|r.events|].installs)
  {
    r := BothDrawn(hash, n, keys, a, b);
    r := ExtendRun(hash, n, keys, r, InstallSnapshot(1));
    var first := Last(r).installs;
    assert |first| == 1 && first[0].node == NodeId(hash, b) && first[0].version == 2;
    r := ExtendRun(hash, n, keys, r, InstallSnapshot(0));
    var installs := r.states[|r.events|].installs;
    assert |installs| == 2 && installs[0] == first[0];
    assert installs[0].node == installs[1].node && installs[0].version > installs[1].version;
  }

  /** Every run with at least two workers installs versions in increasing order on every node exactly when no two
      Gateways share a node. */
  lemma MonotoneExactly(hash: string -> string, n: nat, keys: set<string>)
    requires n >= 2
    ensures (forall r :: RunOver(hash, n, keys, r) && |r.events| < TWO_TO_THE_64 ==>
               Monotone(r.states[|r.events|].installs))
            <==> NodesDistinct(hash, keys)
  {
    if NodesDistinct(hash, keys) {
      forall r | RunOver(hash, n, keys, r) && |r.events| < TWO_TO_THE_64
        ensures Monotone(r.states[|r.events|].installs)
      {
        InstallsMonotone(hash, n, keys, r);
      }
    } else {
      var a, b :| a in keys && b in keys && hash(a) == hash(b) && a != b;
      var r := SharedNodeGoesBack(hash, n, keys, a, b);
    }
  }

  // ----- no Gateway update is lost -----

  /** A worker that will not, as it stands, bring the key up to version v: it has read another state of the Gateway. */
  predicate Stale(x: Worker, key: string, v: Option<nat>) {
    (x.Read? || x.Drawn? || x.Pushed?) && x.key == key && x.seen != v
  }

  /** A worker that still works on version v of the key, or will hand the key back for a retry. */
  predicate WorksOn(x: Worker, key: string, v: Option<nat>) {
    || ((x.Got? || x.Failing?) && x.key == key)
    || ((x.Read? || x.Drawn? || x.Pushed?) && x.key == key && x.seen == v)
  }

  /** Something is left to do that will sync version v of the key. */
  ghost predicate Pending(s: State, key: string, v: Option<nat>) {
    || Notification(key, true) in s.undelivered
    || key in s.dirty || key in s.backoff
    || exists w :: 0 <= w < |s.workers| && WorksOn(s.workers[w], key, v)
  }

  /** Version v was synced last, or the key was cleaned up last, and no worker is about to record anything else. */
  ghost predicate Settled(s: State, key: string, v: Option<nat>) {
    && (if key in s.synced then v == Some(s.synced[key]) else v == None)
    && forall w :: 0 <= w < |s.workers| ==> !Stale(s.workers[w], key, v)
  }

  /** What there is to sync for a key: the cached version, or the clean-up of a Gateway that is gone. */
  function Target(s: State, key: string): Option<nat> { if key in s.cache then Some(s.cache[key].version) else None }

  ghost predicate OnTrack(s: State, key: string) { Pending(s, key, Target(s, key)) || Settled(s, key, Target(s, key)) }

  ghost predicate UpdateInv(s: State) { forall key :: key in s.cache && s.cache[key].ours ==> OnTrack(s, key) }

  lemma UpdateStep(hash: string -> string, s: State, e: Event)
    requires UpdateInv(s) && QueueInv(s) && Enabled(s, e)
    ensures UpdateInv(Apply(hash, s, e))
  {
    var t := Apply(hash, s, e);
    forall key | key in t.cache && t.cache[key].ours ensures OnTrack(t, key) {
      if e == CacheUpdate(key, true) { assert Notification(key, true) in t.undelivered; } else { KeyStep(hash, s, e, key); }
    }
  }

  /** Every step that does not change what there is to sync for a key keeps it either still to be done or recorded. */
  lemma KeyStep(hash: string -> string, s: State, e: Event, key: string)
    requires QueueInv(s) && Enabled(s, e) && OnTrack(s, key) && Target(Apply(hash, s, e), key) == Target(s, key)
    ensures OnTrack(Apply(hash, s, e), key)
  {
    var t, v := Apply(hash, s, e), Target(s, key);
    match e
    case Deliver => DeliverStep(hash, s, key, v);
    case Get(w) => GetStep(hash, s, w, key, v);
    case ReadGateway(w) => MoveStep(hash, s, e, w, key);
    case DrawVersion(w) => MoveStep(hash, s, e, w, key);
    case InstallSnapshot(w) => MoveStep(hash, s, e, w, key);
    case Fail(w) => MoveStep(hash, s, e, w, key);
    case Forget(w) => ForgetStep(hash, s, w, key);
    case AddRateLimited(w) => RetryStep(hash, s, w, key, v);
    case Done(w) => WorkersKept(s, t, w, key, v);
    case _ => SameWorkers(s, t, key, v);
  }

  lemma GetStep(hash: string -> string, s: State, w: nat, key: string, v: Option<nat>)
    requires Enabled(s, Get(w)) && (Pending(s, key, v) || Settled(s, key, v))
    ensures var t := Apply(hash, s, Get(w)); Pending(t, key, v) || Settled(t, key, v)
  {
    var t := Apply(hash, s, Get(w));
    if s.queue[0] == key { assert WorksOn(t.workers[w], key, v); } else { WorkersKept(s, t, w, key, v); }
  }

  lemma MoveStep(hash: string -> string, s: State, e: Event, w: nat, key: string)
    requires Enabled(s, e) && OnTrack(s, key)
    requires e == ReadGateway(w) || e == DrawVersion(w) || e == InstallSnapshot(w) || e == Fail(w)
    ensures OnTrack(Apply(hash, s, e), key)
  {
    WorkerMoves(s, Apply(hash, s, e), w, key, Target(s, key));
  }

  lemma RetryStep(hash: string -> string, s: State, w: nat, key: string, v: Option<nat>)
    requires Enabled(s, AddRateLimited(w)) && (Pending(s, key, v) || Settled(s, key, v))
    ensures var t := Apply(hash, s, AddRateLimited(w)); Pending(t, key, v) || Settled(t, key, v)
  {
    if s.workers[w].key != key { WorkersKept(s, Apply(hash, s, AddRateLimited(w)), w, key, v); }
  }

  /** Steps of informer and queue leave the workers alone and only turn one reason to sync into another. */
  lemma SameWorkers(s: State, t: State, key: string, v: Option<nat>)
    requires t.workers == s.workers && t.synced == s.synced
    requires Notification(key, true) in s.undelivered ==> Notification(key, true) in t.undelivered || key in t.dirty
    requires key in s.dirty ==> key in t.dirty
    requires key in s.backoff ==> key in t.backoff || key in t.dirty
    requires Pending(s, key, v) || Settled(s, key, v)
    ensures Pending(t, key, v) || Settled(t, key, v)
  {
  }

  lemma DeliverStep(hash: string -> string, s: State, key: string, v: Option<nat>)
    requires Enabled(s, Deliver) && (Pending(s, key, v) || Settled(s, key, v))
    ensures var t := Apply(hash, s, Deliver); Pending(t, key, v) || Settled(t, key, v)
  {
    assert s.undelivered == [s.undelivered[0]] + s.undelivered[1..];
    SameWorkers(s, Apply(hash, s, Deliver), key, v);
  }

  /** When one worker changes and it did not count for the key before, what was left to do still is. */
  lemma WorkersKept(s: State, t: State, w: nat, key: string, v: Option<nat>)
    requires w < |s.workers| == |t.workers| && forall x :: 0 <= x < |s.workers| && x != w ==> t.workers[x] == s.workers[x]
    requires !WorksOn(s.workers[w], key, v) && !Stale(t.workers[w], key, v)
    requires Notification(key, true) in s.undelivered ==> Notification(key, true) in t.undelivered
    requires (key in s.dirty ==> key in t.dirty) && (key in s.backoff ==> key in t.backoff)
    requires (key in s.synced <==> key in t.synced) && (key in s.synced ==> t.synced[key] == s.synced[key])
    requires Pending(s, key, v) || Settled(s, key, v)
    ensures Pending(t, key, v) || Settled(t, key, v)
  {
    if x :| 0 <= x < |s.workers| && WorksOn(s.workers[x], key, v) { assert WorksOn(t.workers[x], key, v); }
  }

  /** A worker that moves on without giving up its key keeps counting for it, or keeps being stale. */
  lemma WorkerMoves(s: State, t: State, w: nat, key: string, v: Option<nat>)
    requires w < |s.workers| == |t.workers| && forall x :: 0 <= x < |s.workers| && x != w ==> t.workers[x] == s.workers[x]
    requires WorksOn(s.workers[w], key, v) ==> WorksOn(t.workers[w], key, v)
    requires Stale(t.workers[w], key, v) ==> Stale(s.workers[w], key, v)
    requires t.undelivered == s.undelivered && t.dirty == s.dirty && t.backoff == s.backoff && t.synced == s.synced
    requires Pending(s, key, v) || Settled(s, key, v)
    ensures Pending(t, key, v) || Settled(t, key, v)
  {
    if x :| 0 <= x < |s.workers| && WorksOn(s.workers[x], key, v) { assert WorksOn(t.workers[x], key, v); }
  }

  /** Recording a sync settles the version it read; if that is an old one, more is still left to do. */
  lemma ForgetStep(hash: string -> string, s: State, w: nat, key: string)
    requires QueueInv(s) && Enabled(s, Forget(w)) && OnTrack(s, key)
    ensures OnTrack(Apply(hash, s, Forget(w)), key)
  {
    var t, v, x := Apply(hash, s, Forget(w)), Target(s, key), s.workers[w];
    forall u | 0 <= u < |s.workers| && u != w
      ensures t.workers[u] == s.workers[u] && (x.key == key ==> !Holds(s.workers[u], key))
    {
    }
    if x.key != key {
      WorkersKept(s, t, w, key, v);
    } else if x.seen == v {
      assert Settled(t, key, v);
    } else {
      assert Stale(x, key, v) && Pending(s, key, v);
    }
  }

  lemma {:induction false} UpdateInvariant(hash: string -> string, n: nat, r: Run, i: nat)
    requires IsRun(hash, n, r) && i <= |r.events|
    ensures QueueInv(r.states[i]) && UpdateInv(r.states[i])
  {
    if i > 0 {
      UpdateInvariant(hash, n, r, i - 1);
      QueueStep(hash, r.states[i - 1], r.events[i - 1]);
      UpdateStep(hash, r.states[i - 1], r.events[i - 1]);
    }
  }

  /** In every reachable state, a cached Gateway of our class whose version is not the one synced last has an
      undelivered notification, waits in the queue, is in backoff, or is held by a worker. */
  lemma NoUpdateLost(hash: string -> string, n: nat, r: Run, i: nat, key: string)
    requires IsRun(hash, n, r) && i <= |r.events|
    requires key in r.states[i].cache && r.states[i].cache[key].ours
    requires key in r.states[i].synced ==> r.states[i].synced[key] != r.states[i].cache[key].version
    ensures var s := r.states[i];
      || Notification(key, true) in s.undelivered
      || key in s.queue || key in s.backoff
      || exists w :: 0 <= w < |s.workers| && Holds(s.workers[w], key)
  {
    UpdateInvariant(hash, n, r, i);
    var s := r.states[i];
    assert Pending(s, key, Target(s, key));
    if w :| 0 <= w < |s.workers| && WorksOn(s.workers[w], key, Target(s, key)) {
      assert Holds(s.workers[w], key);
    }
  }

  // ----- no deletion is lost -----

  /** After step i no event brings the key back before step j. */
  ghost predicate StaysGone(r: Run, i: nat, j: nat, key: string) {
    forall x :: i < x < j && x < |r.events| ==> !(r.events[x].CacheUpdate? && r.events[x].key == key)
  }

  lemma {:induction false} GoneOnTrack(hash: string -> string, n: nat, r: Run, i: nat, j: nat, key: string)
    requires IsRun(hash, n, r) && i < j <= |r.events| && StaysGone(r, i, j, key)
    requires r.events[i] == CacheDelete(key, true) && key in r.states[i].cache && r.states[i].cache[key].ours
    ensures key !in r.states[j].cache && OnTrack(r.states[j], key)
  {
    var s, e := r.states[j - 1], r.events[j - 1];
    if j == i + 1 {
      assert Notification(key, true) in Apply(hash, s, e).undelivered;
    } else {
      GoneOnTrack(hash, n, r, i, j - 1, key);
      UpdateInvariant(hash, n, r, j - 1);
      KeyStep(hash, s, e, key);
    }
  }

  /** Once a Gateway of our class is deleted under the eyes of the watch, and as long as it does not come back, it is on its
      way to be cleaned up in the same sense, unless nothing is recorded of it any more. */
  lemma NoDeletionLost(hash: string -> string, n: nat, r: Run, i: nat, j: nat, key: string)
    requires IsRun(hash, n, r) && i < j <= |r.events| && StaysGone(r, i, j, key)
    requires r.events[i] == CacheDelete(key, true) && key in r.states[i].cache && r.states[i].cache[key].ours
    requires key in r.states[j].synced
    ensures var s := r.states[j];
      || Notification(key, true) in s.undelivered
      || key in s.queue || key in s.backoff
      || exists w :: 0 <= w < |s.workers| && Holds(s.workers[w], key)
  {
    GoneOnTrack(hash, n, r, i, j, key);
    UpdateInvariant(hash, n, r, j);
    var s := r.states[j];
    assert Pending(s, key, None);
    if w :| 0 <= w < |s.workers| && WorksOn(s.workers[w], key, None) { assert Holds(s.workers[w], key); }
  }

  /** The key is a cached Gateway of our class, or gone and on its way to be cleaned up. */
  ghost predicate OursOrGone(s: State, key: string) { if key in s.cache then s.cache[key].ours else OnTrack(s, key) }

  lemma OursOrGoneStep(hash: string -> string, s: State, e: Event, key: string)
    requires QueueInv(s) && Enabled(s, e) && OursOrGone(s, key)
    requires e != CacheUpdate(key, false) && e != CacheDelete(key, false)
    ensures OursOrGone(Apply(hash, s, e), key)
  {
    var t := Apply(hash, s, e);
    if e == CacheDelete(key, true) {
      assert Notification(key, true) in t.undelivered;
    } else if key !in s.cache && key !in t.cache {
      KeyStep(hash, s, e, key);
    }
  }

  /** As long as the key is not of another class, and no deletion of it is missed. */
  lemma {:induction false} OursOrGoneInvariant(hash: string -> string, n: nat, r: Run, i: nat, key: string)
    requires IsRun(hash, n, r) && i <= |r.events|
    requires forall x :: 0 <= x < i ==> r.events[x] != CacheUpdate(key, false) && r.events[x] != CacheDelete(key, false)
    ensures QueueInv(r.states[i]) && OursOrGone(r.states[i], key)
  {
    if i > 0 {
      OursOrGoneInvariant(hash, n, r, i - 1, key);
      QueueStep(hash, r.states[i - 1], r.events[i - 1]);
      OursOrGoneStep(hash, r.states[i - 1], r.events[i - 1], key);
    }
  }

  // ----- Gateways of other classes -----

  /** Nothing is known of the key but what the informer has cached, and that is of another class. */
  ghost predicate LeftAlone(s: State, key: string) {
    && Notification(key, true) !in s.undelivered
    && key !in s.dirty && key !in s.queue && key !in s.processing && key !in s.backoff && key !in s.synced
    && (key in s.cache ==> !s.cache[key].ours)
    && forall w :: 0 <= w < |s.workers| ==> !Holds(s.workers[w], key)
  }

  /** The event makes the key one of our class, or puts it into the queue for a route. */
  predicate Concerns(e: Event, key: string) { e == CacheUpdate(key, true) || e == EnqueueForRoute(key) }

  lemma LeftAloneStep(hash: string -> string, s: State, e: Event, key: string)
    requires LeftAlone(s, key) && Enabled(s, e) && !Concerns(e, key)
    ensures LeftAlone(Apply(hash, s, e), key)
  {
    match e
    case CacheUpdate(_, _) => OtherEvent(hash, s, e, key);
    case CacheDelete(_, _) => OtherEvent(hash, s, e, key);
    case EnqueueForRoute(_) => OtherEvent(hash, s, e, key);
    case BackoffOver(_) => OtherEvent(hash, s, e, key);
    case Deliver => OtherDelivered(hash, s, key);
    case Get(w) => OtherTaken(hash, s, w, key);
    case _ =>
      assert !Holds(s.workers[e.w], key);
      OtherKeyMoves(hash, s, e, key);
  }

  lemma OtherEvent(hash: string -> string, s: State, e: Event, key: string)
    requires LeftAlone(s, key) && Enabled(s, e) && !Concerns(e, key)
    requires e.CacheUpdate? || e.CacheDelete? || e.EnqueueForRoute? || e.BackoffOver?
    ensures LeftAlone(Apply(hash, s, e), key)
  {
  }

  lemma OtherDelivered(hash: string -> string, s: State, key: string)
    requires LeftAlone(s, key) && Enabled(s, Deliver)
    ensures LeftAlone(Apply(hash, s, Deliver), key)
  {
    assert s.undelivered[0] in s.undelivered;
  }

  lemma OtherTaken(hash: string -> string, s: State, w: nat, key: string)
    requires LeftAlone(s, key) && Enabled(s, Get(w))
    ensures LeftAlone(Apply(hash, s, Get(w)), key)
  {
    assert s.queue[0] in s.queue;
  }

  /** A worker that has another key, if any, does nothing to this one. */
  lemma OtherKeyMoves(hash: string -> string, s: State, e: Event, key: string)
    requires LeftAlone(s, key) && Enabled(s, e) && !Concerns(e, key)
    requires !e.CacheUpdate? && !e.CacheDelete? && !e.Deliver? && !e.EnqueueForRoute? && !e.BackoffOver? && !e.Get?
    requires !Holds(s.workers[e.w], key)
    ensures LeftAlone(Apply(hash, s, e), key)
  {
  }

  /** A Gateway that is never of our class, and that no route asks for, is left alone in every run. */
  lemma {:induction false} OtherClassLeftAlone(hash: string -> string, n: nat, r: Run, i: nat, key: string)
    requires IsRun(hash, n, r) && i <= |r.events|
    requires forall x :: 0 <= x < i ==> !Concerns(r.events[x], key)
    ensures LeftAlone(r.states[i], key)
  {
    if i > 0 {
      OtherClassLeftAlone(hash, n, r, i - 1, key);
      LeftAloneStep(hash, r.states[i - 1], r.events[i - 1], key);
    }
  }
}
