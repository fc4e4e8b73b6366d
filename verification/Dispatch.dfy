/** The part of a remote execution that picks the worker: cluster resolution, the online,
    label and capacity filters, and the routing strategy. */
module Dispatch {
  import opened Ids
  import opened RoundRobin
  import opened Routing
  import opened Wrappers

  datatype RoutingConfig = RoutingConfig(labels: Labels, cluster: string, preferLocal: bool)

  datatype DbWorker = DbWorker(id: WorkerId, online: bool)

  /** What the store says about a cluster and its workers. */
  datatype ClusterAnswer = Unresolved | ListingFails | Listed(workers: seq<DbWorker>)

  datatype ExecError =
    | TargetClusterNotFound | DefaultClusterUnresolved | ListWorkersFailed
    | NoEligibleWorkers | SelectionFailed(error: RouteError)

  datatype Strategy = UseRoundRobin | UseLabelAffinity | UseLeastLoaded

  function NewRouter(strategy: string): Strategy {
    if strategy == "round-robin" then UseRoundRobin
    else if strategy == "label-affinity" then UseLabelAffinity
    else UseLeastLoaded
  }

  /** A task without a routing section asks for nothing. */
  function Config(routing: Option<RoutingConfig>): RoutingConfig {
    if routing.None? then RoutingConfig(map[], "", false) else routing.value
  }

  /** The cluster whose listing restricts the choice; `None` when any connected worker will do. */
  function Source(config: RoutingConfig, target: ClusterAnswer, default: ClusterAnswer): Option<ClusterAnswer> {
    if config.cluster != "" then Some(target)
    else if config.preferLocal then None
    else Some(default)
  }

  ghost predicate ListedOnline(listed: seq<DbWorker>, id: WorkerId) {
    exists i :: 0 <= i < |listed| && listed[i].id == id && listed[i].online
  }

  type Connected = map<WorkerId, Worker>

  /** A worker the task may go to, load aside. */
  ghost predicate Offered(registry: Connected, labels: Labels, source: Option<ClusterAnswer>, w: Worker) {
    && w.id in registry && registry[w.id] == w
    && Matches(w, labels)
    && (source.Some? ==> source.value.Listed? && ListedOnline(source.value.workers, w.id))
  }

  ghost predicate Qualifies(registry: Connected, labels: Labels, source: Option<ClusterAnswer>, w: Worker) {
    Offered(registry, labels, source, w) && w.activeTasks < w.maxConcurrentTasks
  }

  predicate IsFree(w: Worker) {
    w.activeTasks < w.maxConcurrentTasks
  }

  /** The connected, online and matching workers of a cluster listing, in its order. */
  ghost function Candidates(registry: Connected, labels: Labels, listed: seq<DbWorker>): seq<Worker> {
    if listed == [] then []
    else
      var rest, d := Candidates(registry, labels, listed[..|listed| - 1]), listed[|listed| - 1];
      if d.online && d.id in registry && Matches(registry[d.id], labels) then rest + [registry[d.id]] else rest
  }

  lemma {:induction false} CandidatesKeepOrder(registry: Connected, labels: Labels, listed: seq<DbWorker>, i: nat)
    requires i < |listed|
    requires listed[i].online && listed[i].id in registry && Matches(registry[listed[i].id], labels)
    ensures var p, all := |Candidates(registry, labels, listed[..i])|, Candidates(registry, labels, listed);
      p < |all| && all[p] == registry[listed[i].id]
    decreases |listed|
  {
    var n := |listed| - 1;
    if i < n {
      CandidatesKeepOrder(registry, labels, listed[..n], i);
      assert listed[..n][..i] == listed[..i];
    }
  }

  class Dispatcher {
    var registry: Connected
    const strategy: Strategy
    const roundRobin: RoundRobinRouter

    predicate Valid()
      reads this
    {
      forall id :: id in registry ==> registry[id].id == id
    }

    constructor (strategy: string)
      ensures Valid() && registry == map[] && fresh(roundRobin) && roundRobin.counter == 0
      ensures strategy == "round-robin" ==> this.strategy == UseRoundRobin
      ensures strategy == "label-affinity" ==> this.strategy == UseLabelAffinity
      ensures strategy != "round-robin" && strategy != "label-affinity" ==> this.strategy == UseLeastLoaded
    {
      registry := map[];
      this.strategy := NewRouter(strategy);
      roundRobin := new RoundRobinRouter();
    }

    /** The connected, online and matching workers of a cluster listing. */
    method FromListing(listed: seq<DbWorker>, labels: Labels) returns (available: seq<Worker>)
      requires Valid()
      ensures available == Candidates(registry, labels, listed)
      ensures forall w :: w in available <==>
                && w.id in registry && registry[w.id] == w && Matches(w, labels)
                && exists i :: 0 <= i < |listed| && listed[i].id == w.id && listed[i].online
    {
      hide Matches;
      available := [];
      for i := 0 to |listed|
        invariant available == Candidates(registry, labels, listed[..i])
      {
        assert listed[..i + 1][..i] == listed[..i];
        var dbw := listed[i];
        if dbw.id in registry && dbw.online {
          var cw := registry[dbw.id];
          var ok := MatchLabels(cw, labels);
          if ok {
            available := available + [cw];
          }
        }
      }
      assert listed[..|listed|] == listed;
      forall w
        ensures w in available <==> w.id in registry && registry[w.id] == w && Matches(w, labels) && ListedOnline(listed, w.id)
      {
        CandidateMembers(registry, labels, listed, w);
      }
    }

    /** All connected workers, in the arbitrary order of the registry's map. */
    method ListOnline() returns (workers: seq<Worker>)
      requires Valid()
      ensures forall w :: w in workers <==> w.id in registry && registry[w.id] == w
    {
      workers := [];
      var rest := registry.Keys;
      while rest != {}
        invariant rest <= registry.Keys
        invariant forall w :: w in workers <==> w.id in registry && w.id !in rest && registry[w.id] == w
        decreases |rest|
      {
        var id :| id in rest;
        workers := workers + [registry[id]];
        rest := rest - {id};
      }
    }

    method FindAvailable(config: RoutingConfig, target: ClusterAnswer, default: ClusterAnswer)
      returns (r: Result<seq<Worker>, ExecError>)
      requires Valid()
      ensures config.cluster != "" ==>
        r == match target
             case Unresolved => Err(TargetClusterNotFound)
             case ListingFails => Err(ListWorkersFailed)
             case Listed(workers) => Ok(Candidates(registry, config.labels, workers))
      ensures config.cluster == "" && !config.preferLocal ==>
        r == match default
             case Unresolved => Err(DefaultClusterUnresolved)
             case ListingFails => Err(ListWorkersFailed)
             case Listed(workers) => Ok(Candidates(registry, config.labels, workers))
      ensures config.cluster == "" && config.preferLocal ==>
        r.Ok? && forall w :: w in r.value <==> w.id in registry && registry[w.id] == w && Matches(w, config.labels)
      ensures r.Ok? ==> forall w :: w in r.value <==> Offered(registry, config.labels, Source(config, target, default), w)
    {
      if config.cluster != "" {
        match target
        case Unresolved => return Err(TargetClusterNotFound);
        case ListingFails => return Err(ListWorkersFailed);
        case Listed(workers) =>
          var available := FromListing(workers, config.labels);
          return Ok(available);
      } else if !config.preferLocal {
        match default
        case Unresolved => return Err(DefaultClusterUnresolved);
        case ListingFails => return Err(ListWorkersFailed);
        case Listed(workers) =>
          var available := FromListing(workers, config.labels);
          return Ok(available);
      } else {
        var available := ListOnline();
        if |config.labels| > 0 {
          ghost var all := available;
          available := KeepMatching(available, config.labels);
          forall w
            ensures w in available <==> w in all && Matches(w, config.labels)
          {
            FilterMembers(all, (w: Worker) => Matches(w, config.labels), w);
          }
        }
        return Ok(available);
      }
    }

    method KeepFree(available: seq<Worker>) returns (eligible: seq<Worker>)
      ensures eligible == Filter(available, IsFree)
      ensures forall w :: w in eligible <==> w in available && w.activeTasks < w.maxConcurrentTasks
    {
      eligible := [];
      for i := 0 to |available|
        invariant eligible == Filter(available[..i], IsFree)
        invariant forall w :: w in eligible <==> w in available[..i] && w.activeTasks < w.maxConcurrentTasks
      {
        assert available[..i + 1] == available[..i] + [available[i]];
        FilterSnoc(available[..i], available[i], IsFree);
        if available[i].activeTasks < available[i].maxConcurrentTasks {
          eligible := eligible + [available[i]];
        }
      }
      assert available[..|available|] == available;
    }

    /** Both load-based strategies answer with the least loaded worker once the labels have
        been checked; none of the three can fail on a non-empty list of free workers. */
    method Select(labels: Option<Labels>, eligible: seq<Worker>) returns (r: Result<Option<Worker>, RouteError>)
      requires eligible != []
      requires forall w :: w in eligible ==> Matches(w, Required(labels)) && w.activeTasks < w.maxConcurrentTasks
      modifies roundRobin
      ensures r.Ok? && r.value.Some? && r.value.value in eligible
      ensures strategy.UseRoundRobin? ==>
        && r.value.value == eligible[old(roundRobin.counter) % |eligible|]
        && roundRobin.counter == (old(roundRobin.counter) + 1) % WRAP
      ensures !strategy.UseRoundRobin? ==> IsLeastLoaded(eligible, r.value) && unchanged(roundRobin)
      ensures !strategy.UseRoundRobin? ==> forall w :: w in eligible ==> r.value.value.activeTasks <= w.activeTasks
    {
      match strategy
      case UseRoundRobin =>
        var picked := roundRobin.SelectWorker(eligible);
        r := Ok(Some(picked.value));
      case UseLabelAffinity =>
        AffinityRefinesToLeastLoaded(labels, eligible);
        r := LabelAffinity(labels, eligible);
        LeastLoadedIsMember(eligible, r.value);
        LeastOfAll(eligible, r.value);
      case UseLeastLoaded =>
        r := LeastLoaded(eligible);
        LeastLoadedIsMember(eligible, r.value);
        LeastOfAll(eligible, r.value);
    }

    /** Picks the worker for a task, up to the point where the assignment row is created.
        `eligible` are the workers it chooses from, in the order it sees them. */
    method Execute(routing: Option<RoutingConfig>, target: ClusterAnswer, default: ClusterAnswer)
      returns (r: Result<Worker, ExecError>, ghost eligible: seq<Worker>)
      requires Valid()
      modifies roundRobin
      // a named cluster
      ensures routing.Some? && routing.value.cluster != "" ==>
        && (r.Ok? ==> target.Listed? && ListedOnline(target.workers, r.value.id))
        && (target.Listed? ==> eligible == Filter(Candidates(registry, routing.value.labels, target.workers), IsFree))
        && (r.Err? ==> r.error == match target
                                  case Unresolved => TargetClusterNotFound
                                  case ListingFails => ListWorkersFailed
                                  case Listed(_) => NoEligibleWorkers)
      // the default cluster
      ensures routing.None? || (routing.value.cluster == "" && !routing.value.preferLocal) ==>
        && (r.Ok? ==> default.Listed? && ListedOnline(default.workers, r.value.id))
        && (default.Listed? ==> eligible == Filter(Candidates(registry, Config(routing).labels, default.workers), IsFree))
        && (r.Err? ==> r.error == match default
                                  case Unresolved => DefaultClusterUnresolved
                                  case ListingFails => ListWorkersFailed
                                  case Listed(_) => NoEligibleWorkers)
      // any connected worker
      ensures routing.Some? && routing.value.cluster == "" && routing.value.preferLocal ==>
        && (forall w :: w in eligible <==>
              w.id in registry && registry[w.id] == w && Matches(w, routing.value.labels) && w.activeTasks < w.maxConcurrentTasks)
        && (r.Err? ==> r.error == NoEligibleWorkers)
      // success
      ensures r.Ok? ==> && r.value.id in registry && registry[r.value.id] == r.value
                        && r.value.activeTasks < r.value.maxConcurrentTasks
                        && (routing.Some? ==> Matches(r.value, routing.value.labels))
      ensures r.Ok? <==> exists w :: Qualifies(registry, Config(routing).labels, Source(Config(routing), target, default), w)
      // the choice
      ensures r.Ok? <==> eligible != []
      ensures r.Ok? && strategy.UseRoundRobin? ==>
        && r.value == eligible[old(roundRobin.counter) % |eligible|]
        && roundRobin.counter == (old(roundRobin.counter) + 1) % WRAP
      ensures r.Ok? && !strategy.UseRoundRobin? ==>
        && IsLeastLoaded(eligible, Some(r.value))
        && forall w :: w in eligible ==> r.value.activeTasks <= w.activeTasks
      ensures r.Err? || !strategy.UseRoundRobin? ==> unchanged(roundRobin)
    {
      hide Matches, Filter, Candidates, IsLeastLoaded, ListedOnline;
      eligible := [];
      var config := Config(routing);
      var found := FindAvailable(config, target, default);
      if found.Err? {
        return Err(found.error), [];
      }
      var free := KeepFree(found.value);
      eligible := free;
      ghost var source := Source(config, target, default);
      assert forall w :: w in free <==> Qualifies(registry, config.labels, source, w);
      if |free| == 0 {
        return Err(NoEligibleWorkers), [];
      }
      assert free[0] in free;
      var labels := if routing.None? then None else Some(routing.value.labels);
      assert Required(labels) == config.labels;
      var picked := Select(labels, free);
      if picked.Err? {
        assert false;   // the router's own errors cannot arise here
      }
      r := Ok(picked.value.value);
    }
  }

  lemma {:induction false} CandidateMembers(registry: Connected, labels: Labels, listed: seq<DbWorker>, w: Worker)
    requires forall id :: id in registry ==> registry[id].id == id
    ensures w in Candidates(registry, labels, listed) <==>
            w.id in registry && registry[w.id] == w && Matches(w, labels) && ListedOnline(listed, w.id)
    decreases |listed|
  {
    hide Matches;
    if listed == [] {
    } else {
      var n := |listed| - 1;
      CandidateMembers(registry, labels, listed[..n], w);
      ListedOnlineSnoc(listed, w.id);
      hide ListedOnline;
    }
  }

  lemma ListedOnlineSnoc(listed: seq<DbWorker>, id: WorkerId)
    requires listed != []
    ensures var n := |listed| - 1;
      ListedOnline(listed, id) <==> ListedOnline(listed[..n], id) || (listed[n].id == id && listed[n].online)
  {
    var front := listed[..|listed| - 1];
    if i :| 0 <= i < |front| && front[i].id == id && front[i].online {
      assert listed[i] == front[i];
    }
  }

  /** A scan over free workers yields one of them. */
  lemma LeastLoadedIsMember(ws: seq<Worker>, r: Option<Worker>)
    requires ws != [] && IsLeastLoaded(ws, r)
    requires forall w :: w in ws ==> w.activeTasks < w.maxConcurrentTasks
    ensures r.Some? && r.value in ws
  {
    assert ws[0] in ws;
    LeastLoadedIsSome(ws, r);
  }

  lemma LeastOfAll(ws: seq<Worker>, r: Option<Worker>)
    requires IsLeastLoaded(ws, r) && r.Some?
    ensures forall w :: w in ws ==> r.value.activeTasks <= w.activeTasks
  {
  }

  /** On a list that already passed the label filter, label affinity does not run out of
      workers and answers exactly what least-loaded answers. */
  lemma AffinityRefinesToLeastLoaded(labels: Option<Labels>, eligible: seq<Worker>)
    requires eligible != [] && forall w :: w in eligible ==> Matches(w, Required(labels))
    ensures Matching(eligible, Required(labels)) != []
    ensures forall r :: IsLeastLoaded(Matching(eligible, Required(labels)), r) <==> IsLeastLoaded(eligible, r)
  {
    FilterAll(eligible, (w: Worker) => Matches(w, Required(labels)));
  }
}
