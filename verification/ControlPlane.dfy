/** The xDS server's snapshot cache and its version counter. */
module ControlPlane {
  import opened Text
  import opened XdsBuild
  import opened XdsProperties
  import Reconcile
  import Convergence

  datatype Snapshot = Snapshot(version: string, resources: XdsResources)

  datatype PushError = EmptyNodeId | Inconsistent

  class SnapshotServer {
    var versionCounter: nat
    var cache: map<string, Snapshot>

    constructor ()
      ensures versionCounter == 0 && cache == map[]
    {
      versionCounter := 0;
      cache := map[];
    }

    /** Draws a version, and installs a consistent snapshot for the node; a refused one still uses up its version. */
    method PushXDS(nodeID: string, resources: XdsResources) returns (error: Option<PushError>)
      modifies this
      ensures nodeID == "" ==> error == Some(EmptyNodeId) && unchanged(this)
      ensures nodeID != "" ==>
                && versionCounter == Reconcile.NextVersion(old(versionCounter))
                && error == (if ConsistentSnapshot(resources) then None else Some(Inconsistent))
                && cache == if ConsistentSnapshot(resources)
                            then old(cache)[nodeID := Snapshot(Decimal(versionCounter), resources)]
                            else old(cache)
    {
      if nodeID == "" {
        return Some(EmptyNodeId);
      }
      versionCounter := Reconcile.NextVersion(versionCounter);
      var snapshot := Snapshot(Decimal(versionCounter), resources);
      if !ConsistentSnapshot(resources) {
        return Some(Inconsistent);
      }
      cache := cache[nodeID := snapshot];
      error := None;
    }
  }

  // ----- a push is two steps of the reconcile loop -----

  /** The server holds what the run has installed: its counter, and on every node the version installed last. */
  ghost predicate Mirrors(s: Reconcile.State, versionCounter: nat, cache: map<string, Snapshot>) {
    && versionCounter == s.counter
    && (forall node {:trigger Convergence.LastInstall(s.installs, node)} ::
          var last := Convergence.LastInstall(s.installs, node);
          (node in cache <==> last.Some?) && (node in cache ==> cache[node].version == Decimal(last.value.version)))
  }

  /** Drawing a version and installing it do to the run what an accepted push does to the server. */
  lemma PushIsDrawAndInstall(hash: string -> string, s: Reconcile.State, w: nat, cache: map<string, Snapshot>,
                             resources: XdsResources)
    requires Mirrors(s, s.counter, cache) && Reconcile.Enabled(s, Reconcile.DrawVersion(w))
    ensures var drawn := Reconcile.Apply(hash, s, Reconcile.DrawVersion(w));
      && Mirrors(drawn, Reconcile.NextVersion(s.counter), cache)
      && Reconcile.Enabled(drawn, Reconcile.InstallSnapshot(w))
      && Mirrors(Reconcile.Apply(hash, drawn, Reconcile.InstallSnapshot(w)), Reconcile.NextVersion(s.counter),
                 cache[Reconcile.NodeId(hash, s.workers[w].key) :=
                         Snapshot(Decimal(Reconcile.NextVersion(s.counter)), resources)])
  {
    var drawn := Reconcile.Apply(hash, s, Reconcile.DrawVersion(w));
    InstallMirrored(hash, drawn, w, cache, resources);
  }

  /** Installing a drawn version, whatever was drawn or installed since, mirrors writing the snapshot of this version. */
  lemma InstallMirrored(hash: string -> string, s: Reconcile.State, w: nat, cache: map<string, Snapshot>,
                        resources: XdsResources)
    requires Mirrors(s, s.counter, cache) && Reconcile.Enabled(s, Reconcile.InstallSnapshot(w))
    ensures Mirrors(Reconcile.Apply(hash, s, Reconcile.InstallSnapshot(w)), s.counter,
                    cache[Reconcile.NodeId(hash, s.workers[w].key) := Snapshot(Decimal(s.workers[w].version), resources)])
  {
    var t := Reconcile.Apply(hash, s, Reconcile.InstallSnapshot(w));
    assert t.installs[..|t.installs| - 1] == s.installs;
  }

  /** A refused push is a draw after which the worker fails: the version is used up and nothing is installed. */
  lemma RefusedPushIsDrawAndFail(hash: string -> string, s: Reconcile.State, w: nat, cache: map<string, Snapshot>)
    requires Mirrors(s, s.counter, cache) && Reconcile.Enabled(s, Reconcile.DrawVersion(w))
    ensures var drawn := Reconcile.Apply(hash, s, Reconcile.DrawVersion(w));
      && Reconcile.Enabled(drawn, Reconcile.Fail(w))
      && Mirrors(Reconcile.Apply(hash, drawn, Reconcile.Fail(w)), Reconcile.NextVersion(s.counter), cache)
  {
  }

  /** Until the counter wraps, each version is the successor of the last and is spelled differently from every
      earlier one. */
  lemma VersionsTellApart(counter: nat, earlier: nat)
    requires earlier <= counter && counter + 1 < Reconcile.TWO_TO_THE_64
    ensures Reconcile.NextVersion(counter) == counter + 1
    ensures Decimal(Reconcile.NextVersion(counter)) != Decimal(earlier)
  {
    if Decimal(counter + 1) == Decimal(earlier) { DecimalInjective(counter + 1, earlier); }
  }
}
