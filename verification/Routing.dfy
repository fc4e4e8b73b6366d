/** Choosing a worker: label matching, the routing strategies, and the filtering and
    selection that a dispatch does before it hands out a task.

    A worker is read here as a snapshot of its registry entry. */
module Routing {
  import opened Ids
  import opened RoundRobin
  import opened Wrappers

  const MAX_INT32 := 0x7fff_ffff

  type Int32 = x: int | -0x8000_0000 <= x <= MAX_INT32

  type Labels = map<string, string>

  datatype Worker = Worker(id: WorkerId, labels: Labels, activeTasks: Int32, maxConcurrentTasks: Int32)

  /** A missing label reads as the empty string. */
  function Lookup(labels: Labels, key: string): string {
    if key in labels then labels[key] else ""
  }

  ghost predicate Matches(w: Worker, required: Labels) {
    forall k :: k in required ==> Lookup(w.labels, k) == required[k]
  }

  method MatchLabels(w: Worker, required: Labels) returns (ok: bool)
    ensures ok <==> Matches(w, required)
    ensures ok <==> forall k :: k in required ==> if k in w.labels then w.labels[k] == required[k] else required[k] == ""
  {
    var rest := required.Keys;
    while rest != {}
      invariant rest <= required.Keys
      invariant forall k :: k in required && k !in rest ==> Lookup(w.labels, k) == required[k]
      decreases |rest|
    {
      var k :| k in rest;
      if Lookup(w.labels, k) != required[k] {
        return false;
      }
      rest := rest - {k};
    }
    ok := true;
  }

  // ----- least loaded

  /** Position `i` holds the first worker of least load. */
  predicate IsFirstLeast(ws: seq<Worker>, i: int) {
    && 0 <= i < |ws|
    && (forall j :: 0 <= j < |ws| ==> ws[i].activeTasks <= ws[j].activeTasks)
    && (forall j :: 0 <= j < i ==> ws[i].activeTasks < ws[j].activeTasks)
  }

  lemma FirstLeastIsUnique(ws: seq<Worker>, i: int, j: int)
    requires IsFirstLeast(ws, i) && IsFirstLeast(ws, j)
    ensures i == j
  {
    var x, y := ws[i], ws[j];
  }

  /** `r` is what the scan yields: the first worker of least load, but no worker at all
      when every load is at the top of the range. */
  ghost predicate IsLeastLoaded(ws: seq<Worker>, r: Option<Worker>) {
    match r
    case None => forall j :: 0 <= j < |ws| ==> ws[j].activeTasks == MAX_INT32
    case Some(w) => w.activeTasks < MAX_INT32 && exists i :: IsFirstLeast(ws, i) && ws[i] == w
  }

  lemma LeastLoadedIsUnique(ws: seq<Worker>, r: Option<Worker>, r': Option<Worker>)
    requires IsLeastLoaded(ws, r) && IsLeastLoaded(ws, r')
    ensures r == r'
  {
    if r.Some? && r'.Some? {
      var i :| IsFirstLeast(ws, i) && ws[i] == r.value;
      var j :| IsFirstLeast(ws, j) && ws[j] == r'.value;
      FirstLeastIsUnique(ws, i, j);
    }
  }

  /** Selecting from workers that are all below the top of the range never comes back empty. */
  lemma LeastLoadedIsSome(ws: seq<Worker>, r: Option<Worker>)
    requires ws != [] && IsLeastLoaded(ws, r)
    ensures r.None? <==> forall j :: 0 <= j < |ws| ==> ws[j].activeTasks == MAX_INT32
  {
    if r.Some? {
      var i :| IsFirstLeast(ws, i) && ws[i] == r.value;
      assert ws[i].activeTasks < MAX_INT32;
    }
  }

  method LeastLoaded(available: seq<Worker>) returns (r: Result<Option<Worker>, RouteError>)
    ensures r.Err? <==> available == []
    ensures r.Err? ==> r.error == NoAvailableWorkers
    ensures r.Ok? ==> IsLeastLoaded(available, r.value)
    ensures r.Ok? && r.value.Some? ==>
      exists i :: 0 <= i < |available| && available[i] == r.value.value &&
                  (forall j :: 0 <= j < i ==> available[i].activeTasks < available[j].activeTasks) &&
                  (forall j :: i < j < |available| ==> available[i].activeTasks <= available[j].activeTasks)
  {
    if |available| == 0 {
      return Err(NoAvailableWorkers);
    }
    var best: Option<Worker> := None;
    var bestLoad: Int32 := MAX_INT32;
    for i := 0 to |available|
      invariant forall j :: 0 <= j < i ==> bestLoad <= available[j].activeTasks
      invariant best.None? ==> bestLoad == MAX_INT32
      invariant best.Some? ==> bestLoad < MAX_INT32 && bestLoad == best.value.activeTasks &&
                               exists k :: 0 <= k < i && available[k] == best.value &&
                                           forall j :: 0 <= j < k ==> bestLoad < available[j].activeTasks
    {
      if available[i].activeTasks < bestLoad {
        bestLoad := available[i].activeTasks;
        best := Some(available[i]);
      }
    }
    if best.Some? {
      var k :| 0 <= k < |available| && available[k] == best.value &&
               forall j :: 0 <= j < k ==> bestLoad < available[j].activeTasks;
      assert IsFirstLeast(available, k);
    }
    r := Ok(best);
  }

  // ----- label affinity

  function Filter(ws: seq<Worker>, keep: Worker -> bool): seq<Worker> {
    if ws == [] then []
    else
      var rest := Filter(ws[..|ws| - 1], keep);
      if keep(ws[|ws| - 1]) then rest + [ws[|ws| - 1]] else rest
  }

  lemma FilterSnoc(ws: seq<Worker>, w: Worker, keep: Worker -> bool)
    ensures Filter(ws + [w], keep) == Filter(ws, keep) + if keep(w) then [w] else []
  {
    assert (ws + [w])[..|ws|] == ws;
  }

  lemma {:induction false} FilterMembers(ws: seq<Worker>, keep: Worker -> bool, w: Worker)
    ensures w in Filter(ws, keep) <==> w in ws && keep(w)
    decreases |ws|
  {
    if ws == [] {
    } else {
      FilterMembers(ws[..|ws| - 1], keep, w);
      assert ws == ws[..|ws| - 1] + [ws[|ws| - 1]];
    }
  }

  lemma {:induction false} FilterKeepsOrder(ws: seq<Worker>, keep: Worker -> bool, i: nat)
    requires i < |ws| && keep(ws[i])
    ensures var p := |Filter(ws[..i], keep)|;
      p < |Filter(ws, keep)| && Filter(ws, keep)[p] == ws[i] && Filter(ws[..i], keep) <= Filter(ws, keep)
    decreases |ws|
  {
    var n := |ws| - 1;
    if i < n {
      FilterKeepsOrder(ws[..n], keep, i);
      assert ws[..n][..i] == ws[..i];
    }
  }

  lemma {:induction false} FilterAll(ws: seq<Worker>, keep: Worker -> bool)
    requires forall w :: w in ws ==> keep(w)
    ensures Filter(ws, keep) == ws
    decreases |ws|
  {
    if ws == [] {
    } else {
      FilterAll(ws[..|ws| - 1], keep);
      assert ws == ws[..|ws| - 1] + [ws[|ws| - 1]];
    }
  }

  ghost function Matching(ws: seq<Worker>, required: Labels): seq<Worker> {
    Filter(ws, (w: Worker) => Matches(w, required))
  }

  method KeepMatching(available: seq<Worker>, required: Labels) returns (matching: seq<Worker>)
    ensures matching == Matching(available, required)
  {
    matching := [];
    for i := 0 to |available|
      invariant matching == Matching(available[..i], required)
    {
      var ok := MatchLabels(available[i], required);
      if ok {
        matching := matching + [available[i]];
      }
      FilterSnoc(available[..i], available[i], (w: Worker) => Matches(w, required));
      assert available[..i + 1] == available[..i] + [available[i]];
    }
    assert available[..|available|] == available;
  }

  /** The labels a task asks for; `None` when it has no routing section. */
  method LabelAffinity(required: Option<Labels>, available: seq<Worker>) returns (r: Result<Option<Worker>, RouteError>)
    ensures required.None? && available != [] ==> r.Ok? && IsLeastLoaded(available, r.value)
    ensures available == [] ==> r == Err(NoAvailableWorkers)
    ensures available != [] && Matching(available, Required(required)) == [] ==> r == Err(NoMatchingWorkers)
    ensures available != [] && Matching(available, Required(required)) != [] ==>
              r.Ok? && IsLeastLoaded(Matching(available, Required(required)), r.value)
  {
    if |available| == 0 {
      return Err(NoAvailableWorkers);
    }
    if required.None? || |required.value| == 0 {
      assert forall w :: w in available ==> Matches(w, Required(required));
      FilterAll(available, (w: Worker) => Matches(w, Required(required)));
      r := LeastLoaded(available);
      return;
    }
    var matching := KeepMatching(available, required.value);
    if |matching| == 0 {
      return Err(NoMatchingWorkers);
    }
    r := LeastLoaded(matching);
  }

  function Required(labels: Option<Labels>): Labels {
    if labels.None? then map[] else labels.value
  }
}
