/** What the proxies end up with: the snapshot installed last on a node against the Gateways in the cache. */
module Convergence {
  import opened Text
  import opened Reconcile

  /** The snapshot installed last on a node. */
  function LastInstall(installs: seq<Install>, node: string): Option<Install> {
    if installs == [] then None
    else if installs[|installs| - 1].node == node then Some(installs[|installs| - 1])
    else LastInstall(installs[..|installs| - 1], node)
  }

  lemma LastInstallOneMore(installs: seq<Install>, x: Install, node: string)
    ensures LastInstall(installs + [x], node) == if x.node == node then Some(x) else LastInstall(installs, node)
  {
    assert (installs + [x])[..|installs|] == installs;
  }

  /** The proxies of the Gateway have what was built from its version v. */
  predicate Carries(hash: string -> string, s: State, key: string, v: nat) {
    var last := LastInstall(s.installs, NodeId(hash, key));
    last.Some? && last.value.seen == Some(v)
  }

  predicate HasPushed(x: Worker, key: string) { x.Pushed? && x.key == key }

  /** A synced version is installed last on its node, unless a worker has pushed a newer one and is about to record it. */
  ghost predicate InstallInv(hash: string -> string, keys: set<string>, s: State) {
    && s.synced.Keys <= keys
    && (forall w :: 0 <= w < |s.workers| && (s.workers[w].Drawn? || s.workers[w].Pushed?) ==> s.workers[w].seen.Some?)
    && (forall w :: 0 <= w < |s.workers| && s.workers[w].Pushed? ==>
          Carries(hash, s, s.workers[w].key, s.workers[w].seen.value))
    && (forall k :: k in s.synced ==>
          Carries(hash, s, k, s.synced[k]) || exists w :: 0 <= w < |s.workers| && HasPushed(s.workers[w], k))
  }

  /** No snapshot is installed and no sync recorded, and nobody starts or stops having pushed. */
  predicate KeepsInstalls(s: State, t: State) {
    && t.installs == s.installs && t.synced == s.synced && |t.workers| == |s.workers|
    && forall w :: 0 <= w < |s.workers| ==>
         || t.workers[w] == s.workers[w]
         || (!s.workers[w].Pushed? && !t.workers[w].Pushed? && (t.workers[w].Drawn? ==> t.workers[w].seen.Some?))
  }

  lemma OthersKeepInstalls(hash: string -> string, s: State, e: Event)
    requires Enabled(s, e) && !e.InstallSnapshot? && !e.Forget?
    ensures KeepsInstalls(s, Apply(hash, s, e))
  {
  }

  lemma OtherInstallStep(hash: string -> string, keys: set<string>, s: State, t: State)
    requires InstallInv(hash, keys, s) && KeepsInstalls(s, t)
    ensures InstallInv(hash, keys, t)
  {
    forall k | k in t.synced
      ensures Carries(hash, t, k, t.synced[k]) || exists w :: 0 <= w < |t.workers| && HasPushed(t.workers[w], k)
    {
      if w :| 0 <= w < |s.workers| && HasPushed(s.workers[w], k) { assert HasPushed(t.workers[w], k); }
    }
  }

  /** A snapshot goes to the node of its own key only, and only one worker has the key. */
  lemma PushStep(hash: string -> string, keys: set<string>, s: State, w: nat)
    requires InstallInv(hash, keys, s) && QueueInv(s) && KeysIn(s, keys) && NodesDistinct(hash, keys)
    requires Enabled(s, InstallSnapshot(w))
    ensures InstallInv(hash, keys, Apply(hash, s, InstallSnapshot(w)))
  {
    var t, key := Apply(hash, s, InstallSnapshot(w)), s.workers[w].key;
    var x := Install(NodeId(hash, key), s.workers[w].version, s.workers[w].seen);
    assert key in s.processing && t.installs == s.installs + [x];
    forall k | k in keys ensures LastInstall(t.installs, NodeId(hash, k)) ==
      if k == key then Some(x) else LastInstall(s.installs, NodeId(hash, k))
    {
      LastInstallOneMore(s.installs, x, NodeId(hash, k));
    }
    forall v | 0 <= v < |t.workers| && t.workers[v].Pushed?
      ensures Carries(hash, t, t.workers[v].key, t.workers[v].seen.value)
    {
      assert t.workers[v].key in s.processing;
    }
    forall k | k in t.synced
      ensures Carries(hash, t, k, t.synced[k]) || exists v :: 0 <= v < |t.workers| && HasPushed(t.workers[v], k)
    {
      assert HasPushed(t.workers[w], key);
      if v :| 0 <= v < |s.workers| && HasPushed(s.workers[v], k) && k != key { assert HasPushed(t.workers[v], k); }
    }
  }

  /** Recording a sync records what was installed last. */
  lemma RecordStep(hash: string -> string, keys: set<string>, s: State, w: nat)
    requires InstallInv(hash, keys, s) && QueueInv(s) && KeysIn(s, keys) && Enabled(s, Forget(w))
    ensures InstallInv(hash, keys, Apply(hash, s, Forget(w)))
  {
    var t, key := Apply(hash, s, Forget(w)), s.workers[w].key;
    assert key in s.processing && t.installs == s.installs;
    forall k | k in t.synced
      ensures Carries(hash, t, k, t.synced[k]) || exists v :: 0 <= v < |t.workers| && HasPushed(t.workers[v], k)
    {
      if k != key && !Carries(hash, s, k, s.synced[k]) {
        var v :| 0 <= v < |s.workers| && HasPushed(s.workers[v], k);
        assert HasPushed(t.workers[v], k);
      }
    }
  }

  lemma InstalledStep(hash: string -> string, keys: set<string>, s: State, e: Event)
    requires InstallInv(hash, keys, s) && QueueInv(s) && KeysIn(s, keys) && NodesDistinct(hash, keys)
    requires Enabled(s, e)
    ensures InstallInv(hash, keys, Apply(hash, s, e))
  {
    match e
    case InstallSnapshot(w) => PushStep(hash, keys, s, w);
    case Forget(w) => RecordStep(hash, keys, s, w);
    case _ =>
      OthersKeepInstalls(hash, s, e);
      OtherInstallStep(hash, keys, s, Apply(hash, s, e));
  }

  lemma {:induction false} InstalledInvariant(hash: string -> string, n: nat, keys: set<string>, r: Run, i: nat)
    requires RunOver(hash, n, keys, r) && NodesDistinct(hash, keys) && i <= |r.events|
    ensures QueueInv(r.states[i]) && KeysIn(r.states[i], keys) && InstallInv(hash, keys, r.states[i])
  {
    if i > 0 {
      InstalledInvariant(hash, n, keys, r, i - 1);
      QueueStep(hash, r.states[i - 1], r.events[i - 1]);
      KeysStep(hash, keys, r.states[i - 1], r.events[i - 1]);
      InstalledStep(hash, keys, r.states[i - 1], r.events[i - 1]);
    }
  }

  // ----- convergence -----

  /** Nothing is left to do for the key: no event of our class is on its way, and nobody waits with it or works on it. */
  ghost predicate NothingLeft(s: State, key: string) {
    && Notification(key, true) !in s.undelivered && key !in s.queue && key !in s.backoff
    && forall w :: 0 <= w < |s.workers| ==> !Holds(s.workers[w], key)
  }

  /** In every reachable state, the proxies of a cached Gateway of our class for which nothing is left to do have what was
      built from the cached version. */
  lemma SettledGatewayIsServed(hash: string -> string, n: nat, keys: set<string>, r: Run, i: nat, key: string)
    requires RunOver(hash, n, keys, r) && NodesDistinct(hash, keys) && i <= |r.events|
    requires key in r.states[i].cache && r.states[i].cache[key].ours && NothingLeft(r.states[i], key)
    ensures Carries(hash, r.states[i], key, r.states[i].cache[key].version)
  {
    var s := r.states[i];
    InstalledInvariant(hash, n, keys, r, i);
    UpdateInvariant(hash, n, r, i);
    assert key !in s.processing;
    assert Settled(s, key, Target(s, key));
    forall w | 0 <= w < |s.workers| ensures !HasPushed(s.workers[w], key) { assert !Holds(s.workers[w], key); }
  }

  /** No event is on its way, no key waits, and all workers are idle. */
  ghost predicate Quiescent(s: State) {
    && s.undelivered == [] && s.dirty == {} && s.backoff == {} && s.queue == [] && s.processing == {}
    && forall w :: 0 <= w < |s.workers| ==> s.workers[w] == Idle
  }

  ghost predicate AllServed(hash: string -> string, s: State) {
    forall key :: key in s.cache && s.cache[key].ours ==> Carries(hash, s, key, s.cache[key].version)
  }

  /** Worker 0 has the key, everybody else is idle, and nothing else is left to do. */
  ghost predicate OnlyHas(s: State, key: string, x: Worker) {
    && s.undelivered == [] && s.dirty == {} && s.backoff == {} && s.queue == [] && s.processing == {key}
    && |s.workers| >= 1 && s.workers[0] == x && forall w :: 1 <= w < |s.workers| ==> s.workers[w] == Idle
  }

  /** One Gateway is updated, and a worker takes its key. */
  lemma TakeOne(hash: string -> string, n: nat, keys: set<string>, r: Run, key: string) returns (r': Run)
    requires n >= 1 && key in keys && RunOver(hash, n, keys, r) && Quiescent(Last(r)) && |Last(r).workers| == n
    ensures RunOver(hash, n, keys, r') && OnlyHas(Last(r'), key, Got(key)) && |Last(r').workers| == n
    ensures var s, t := Last(r), Last(r');
      && t.clock == s.clock + 1 && t.cache == s.cache[key := GatewayObject(t.clock, true)]
      && t.installs == s.installs
  {
    r' := ExtendRun(hash, n, keys, r, CacheUpdate(key, true));
    r' := ExtendRun(hash, n, keys, r', Deliver);
    assert Last(r').queue == [key] && Last(r').dirty == {key} && Last(r').undelivered == [];
    r' := ExtendRun(hash, n, keys, r', Get(0));
    assert Last(r').queue == [] && Last(r').dirty == {} && Last(r').processing == {key};
  }

  /** The worker builds and installs a snapshot. */
  lemma InstallOne(hash: string -> string, n: nat, keys: set<string>, r: Run, key: string, v: nat) returns (r': Run)
    requires RunOver(hash, n, keys, r) && OnlyHas(Last(r), key, Got(key))
    requires key in Last(r).cache && Last(r).cache[key].version == v
    ensures RunOver(hash, n, keys, r') && OnlyHas(Last(r'), key, Pushed(key, Some(v)))
    ensures var s, t := Last(r), Last(r');
      && t.clock == s.clock && t.cache == s.cache && |t.workers| == |s.workers|
      && t.installs == s.installs + [Install(NodeId(hash, key), t.counter, Some(v))]
  {
    r' := ExtendRun(hash, n, keys, r, ReadGateway(0));
    r' := ExtendRun(hash, n, keys, r', DrawVersion(0));
    r' := ExtendRun(hash, n, keys, r', InstallSnapshot(0));
  }

  /** One Gateway is updated, and one worker brings its proxies up to date. */
  lemma SyncOne(hash: string -> string, n: nat, keys: set<string>, r: Run, key: string) returns (r': Run)
    requires n >= 1 && key in keys && RunOver(hash, n, keys, r) && Quiescent(Last(r)) && |Last(r).workers| == n
    ensures RunOver(hash, n, keys, r') && Quiescent(Last(r')) && |Last(r').workers| == n
    ensures var s, t := Last(r), Last(r');
      && t.clock == s.clock + 1 && t.cache == s.cache[key := GatewayObject(t.clock, true)]
      && t.installs == s.installs + [Install(NodeId(hash, key), t.counter, Some(t.clock))] && key in t.synced
  {
    r' := TakeOne(hash, n, keys, r, key);
    r' := FinishOne(hash, n, keys, r', key);
  }

  /** The worker builds, installs, records and gives back. */
  lemma FinishOne(hash: string -> string, n: nat, keys: set<string>, r: Run, key: string) returns (r': Run)
    requires RunOver(hash, n, keys, r) && OnlyHas(Last(r), key, Got(key)) && |Last(r).workers| == n
    requires key in Last(r).cache && Last(r).cache[key].version == Last(r).clock
    ensures RunOver(hash, n, keys, r') && Quiescent(Last(r')) && |Last(r').workers| == n
    ensures var s, t := Last(r), Last(r');
      && t.clock == s.clock && t.cache == s.cache
      && t.installs == s.installs + [Install(NodeId(hash, key), t.counter, Some(t.clock))] && key in t.synced
  {
    r' := InstallOne(hash, n, keys, r, key, Last(r).clock);
    r' := ExtendRun(hash, n, keys, r', Forget(0));
    r' := ExtendRun(hash, n, keys, r', Done(0));
    assert Last(r').processing == {};
  }

  /** When nothing is left to do for a key, it is recorded as synced only if it is a cached Gateway of our class: provided
      that none of its deletions was missed, and that it never was of another class, or never of ours and in no route. */
  lemma NothingLeftBehind(hash: string -> string, n: nat, r: Run, i: nat, key: string)
    requires IsRun(hash, n, r) && i <= |r.events| && NothingLeft(r.states[i], key)
    requires forall x :: 0 <= x < i ==> r.events[x] != CacheDelete(key, false)
    requires (forall x :: 0 <= x < i ==> r.events[x] != CacheUpdate(key, false))
             || (forall x :: 0 <= x < i ==> !Concerns(r.events[x], key))
    ensures key in r.states[i].synced ==> key in r.states[i].cache && r.states[i].cache[key].ours
  {
    var s := r.states[i];
    if forall x :: 0 <= x < i ==> !Concerns(r.events[x], key) {
      OtherClassLeftAlone(hash, n, r, i, key);
    } else {
      OursOrGoneInvariant(hash, n, r, i, key);
      if key !in s.cache { assert Settled(s, key, None); }
    }
  }

  /** A Gateway of our class has been synced, and leaves: it is deleted while the watch is down, or changes its class. */
  lemma LeavingIsMissed(hash: string -> string, n: nat, keys: set<string>, key: string, leave: Event) returns (r: Run)
    requires n >= 1 && key in keys && (leave == CacheDelete(key, false) || leave == CacheUpdate(key, false))
    ensures RunOver(hash, n, keys, r) && Quiescent(Last(r))
    ensures var s := Last(r);
      && (key !in s.cache || !s.cache[key].ours)
      && key in s.synced && LastInstall(s.installs, NodeId(hash, key)).Some?
  {
    r := Run([State(map[], 0, [], {}, {}, [], {}, seq(n, _ => Idle), 0, [], map[])], []);
    r := SyncOne(hash, n, keys, r, key);
    LastInstallOneMore([], Last(r).installs[0], NodeId(hash, key));
    r := ExtendRun(hash, n, keys, r, leave);
    r := ExtendRun(hash, n, keys, r, Deliver);
  }

  /** A Gateway of another class is served when an HTTPRoute refers to it: nobody asks for the class then. */
  lemma OtherClassServed(hash: string -> string, n: nat, keys: set<string>, key: string) returns (r: Run)
    requires n >= 1 && key in keys
    ensures RunOver(hash, n, keys, r) && Quiescent(Last(r))
    ensures var s := Last(r); key in s.cache && !s.cache[key].ours && Carries(hash, s, key, s.cache[key].version)
  {
    r := Run([State(map[], 0, [], {}, {}, [], {}, seq(n, _ => Idle), 0, [], map[])], []);
    r := ExtendRun(hash, n, keys, r, CacheUpdate(key, false));
    r := ExtendRun(hash, n, keys, r, Deliver);
    r := ExtendRun(hash, n, keys, r, EnqueueForRoute(key));
    assert Last(r).queue == [key] && Last(r).dirty == {key} && Last(r).undelivered == [];
    r := ExtendRun(hash, n, keys, r, Get(0));
    assert Last(r).queue == [] && Last(r).dirty == {} && Last(r).processing == {key};
    r := FinishOne(hash, n, keys, r, key);
    LastInstallOneMore([], Last(r).installs[0], NodeId(hash, key));
  }

  /** When two Gateways share a node, the one synced first is left with the snapshot of the other. */
  lemma SharedNodeIsOverwritten(hash: string -> string, n: nat, keys: set<string>, a: string, b: string)
    returns (r: Run)
    requires n >= 1 && a in keys && b in keys && a != b && NodeId(hash, a) == NodeId(hash, b)
    ensures RunOver(hash, n, keys, r) && Quiescent(Last(r)) && !AllServed(hash, Last(r))
  {
    r := Run([State(map[], 0, [], {}, {}, [], {}, seq(n, _ => Idle), 0, [], map[])], []);
    r := SyncOne(hash, n, keys, r, a);
    var between := Last(r);
    r := SyncOne(hash, n, keys, r, b);
    var s := Last(r);
    LastInstallOneMore(between.installs, s.installs[|s.installs| - 1], NodeId(hash, a));
    assert s.cache[a] == GatewayObject(1, true) && !Carries(hash, s, a, 1);
  }

  /** Whenever all runs come to rest all proxies are up to date, exactly when no two Gateways share a node. */
  lemma ConvergesExactly(hash: string -> string, n: nat, keys: set<string>)
    requires n >= 1
    ensures (forall r :: RunOver(hash, n, keys, r) && Quiescent(Last(r)) ==> AllServed(hash, Last(r)))
            <==> NodesDistinct(hash, keys)
  {
    if NodesDistinct(hash, keys) {
      forall r | RunOver(hash, n, keys, r) && Quiescent(Last(r)) ensures AllServed(hash, Last(r)) {
        forall key | key in Last(r).cache && Last(r).cache[key].ours
          ensures Carries(hash, Last(r), key, Last(r).cache[key].version)
        {
          SettledGatewayIsServed(hash, n, keys, r, |r.events|, key);
        }
      }
    } else {
      var a, b :| a in keys && b in keys && hash(a) == hash(b) && a != b;
      var r := SharedNodeIsOverwritten(hash, n, keys, a, b);
    }
  }
}
