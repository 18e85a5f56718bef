/** Descendant-first order of a Windows process list, whose parent links may be stale and even cyclic. */
module ProcessTree {

  datatype Process = Process(pid: int, ppid: int)

  datatype Result<+T> = Ok(value: T) | RootMissing

  type ByPid = map<int, Process>

  /** A later process with the same pid replaces an earlier one. */
  function Index(list: seq<Process>): (m: ByPid)
    ensures forall pid :: pid in m ==> m[pid].pid == pid && m[pid] in list
    ensures forall i :: 0 <= i < |list| ==> list[i].pid in m
  {
    if list == [] then map[]
    else
      var last := list[|list| - 1];
      Index(list[..|list| - 1])[last.pid := last]
  }

  ghost predicate IsIndex(m: ByPid) {
    forall pid :: pid in m ==> m[pid].pid == pid
  }

  /** Links followed from a process until the list or the chain ends, or a process comes up again. */
  function Depth(p: Process, m: ByPid, visited: set<int>): nat
    requires IsIndex(m)
    decreases m.Keys + {p.pid} - visited
  {
    if p.ppid == 0 || p.pid in visited || p.ppid !in m then 0
    else
      assert p.pid in m.Keys + {p.pid} - visited;
      1 + Depth(m[p.ppid], m, visited + {p.pid})
  }

  /** The measure is the set of pids not visited yet, so cyclic links end too. */
  method GetProcessDepth(p: Process, byPid: ByPid) returns (depth: nat)
    requires IsIndex(byPid)
    ensures depth == Depth(p, byPid, {})
  {
    depth := 0;
    var current, visited := p, {};
    while current.ppid != 0 && current.pid !in visited
      invariant current.pid in byPid.Keys + {p.pid}
      invariant depth + Depth(current, byPid, visited) == Depth(p, byPid, {})
      decreases byPid.Keys + {p.pid} - visited
    {
      if current.ppid !in byPid {
        break;
      }
      visited := visited + {current.pid};
      depth := depth + 1;
      current := byPid[current.ppid];
    }
  }

  ghost predicate DeepestFirst(order: seq<Process>, m: ByPid)
    requires IsIndex(m)
  {
    forall i, j :: 0 <= i < j < |order| ==> Depth(order[i], m, {}) >= Depth(order[j], m, {})
  }

  function Pids(list: seq<Process>): (r: seq<int>)
    ensures |r| == |list| && forall i :: 0 <= i < |r| ==> r[i] == list[i].pid
  {
    if list == [] then [] else [list[0].pid] + Pids(list[1..])
  }

  /** In front of the first process that is no deeper. */
  function Insert(p: Process, order: seq<Process>, m: ByPid): (r: seq<Process>)
    requires IsIndex(m)
    ensures forall q :: q in r <==> q == p || q in order
  {
    if order == [] || Depth(p, m, {}) >= Depth(order[0], m, {}) then [p] + order
    else [order[0]] + Insert(p, order[1..], m)
  }

  lemma {:induction false} InsertPids(p: Process, order: seq<Process>, m: ByPid)
    requires IsIndex(m)
    ensures multiset(Pids(Insert(p, order, m))) == multiset(Pids(order)) + multiset{p.pid}
  {
    hide Depth, Pids;
    PidsCons(p, order);
    if order != [] {
      InsertPids(p, order[1..], m);
      assert order == [order[0]] + order[1..];
      PidsCons(order[0], order[1..]);
      PidsCons(order[0], Insert(p, order[1..], m));
    }
  }

  lemma PidsCons(p: Process, rest: seq<Process>)
    ensures Pids([p] + rest) == [p.pid] + Pids(rest)
  {
  }

  lemma {:induction false} InsertKeepsDeepestFirst(p: Process, order: seq<Process>, m: ByPid)
    requires IsIndex(m) && DeepestFirst(order, m)
    ensures DeepestFirst(Insert(p, order, m), m)
  {
    hide Depth, Pids;
    if order != [] && Depth(p, m, {}) < Depth(order[0], m, {}) {
      InsertKeepsDeepestFirst(p, order[1..], m);
      var rest := Insert(p, order[1..], m);
      assert forall i :: 0 <= i < |rest| ==> rest[i] in rest;
    }
  }

  /** A stable sort, deepest first. */
  function SortByDepth(list: seq<Process>, m: ByPid): (r: seq<Process>)
    requires IsIndex(m)
  {
    if list == [] then [] else Insert(list[0], SortByDepth(list[1..], m), m)
  }

  lemma {:induction false} SortIsDeepestFirst(list: seq<Process>, m: ByPid)
    requires IsIndex(m)
    ensures DeepestFirst(SortByDepth(list, m), m)
    ensures forall q :: q in SortByDepth(list, m) <==> q in list
  {
    hide Depth, Insert;
    if list != [] {
      SortIsDeepestFirst(list[1..], m);
      InsertKeepsDeepestFirst(list[0], SortByDepth(list[1..], m), m);
    }
  }

  lemma {:induction false} SortPids(list: seq<Process>, m: ByPid)
    requires IsIndex(m)
    ensures multiset(Pids(SortByDepth(list, m))) == multiset(Pids(list))
  {
    hide Depth, Insert;
    if list != [] {
      SortPids(list[1..], m);
      InsertPids(list[0], SortByDepth(list[1..], m), m);
    }
  }

  function OrderWindowsProcessTree(list: seq<Process>, rootPid: int): Result<seq<int>> {
    if exists i :: 0 <= i < |list| && list[i].pid == rootPid then Ok(Pids(SortByDepth(list, Index(list))))
    else RootMissing
  }

  lemma OrderOfListed(list: seq<Process>, rootPid: int)
    ensures OrderWindowsProcessTree(list, rootPid)
         == if rootPid in Pids(list) then Ok(Pids(SortByDepth(list, Index(list)))) else RootMissing
  {
    hide SortByDepth, Index, IsIndex;
    if i :| 0 <= i < |list| && list[i].pid == rootPid {
      assert Pids(list)[i] == rootPid;
    }
  }

  /** Every pid of the list is in the order once for each time it is listed, whatever the links. */
  lemma OrderIsPermutation(list: seq<Process>, rootPid: int)
    ensures var r := OrderWindowsProcessTree(list, rootPid);
      if rootPid in Pids(list) then r.Ok? && multiset(r.value) == multiset(Pids(list)) else r == RootMissing
  {
    OrderOfListed(list, rootPid);
    SortPids(list, Index(list));
  }

  // Descendants come first

  /** `q` is `k` parent links above `p` in the list. */
  ghost predicate Above(list: seq<Process>, p: Process, q: Process, k: nat)
    decreases k
  {
    if k == 0 then p == q
    else exists i :: 0 <= i < |list| && list[i].pid == p.ppid && Above(list, list[i], q, k - 1)
  }

  ghost predicate IsForest(list: seq<Process>) {
    && (forall i, j :: 0 <= i < j < |list| ==> list[i].pid != list[j].pid)
    && (forall i :: 0 <= i < |list| ==> list[i].pid != 0)
    && (forall i, k: nat :: 0 <= i < |list| && k > 0 ==> !Above(list, list[i], list[i], k))
  }

  lemma ParentIsIndexed(list: seq<Process>, i: nat)
    requires IsForest(list) && i < |list|
    ensures list[i].pid in Index(list) && Index(list)[list[i].pid] == list[i]
  {
    var m := Index(list);
    var j :| 0 <= j < |list| && list[j] == m[list[i].pid];
    assert i == j;
  }

  /** None of the visited pids lies on the way up. */
  ghost predicate WayUpIsNew(list: seq<Process>, p: Process, visited: set<int>) {
    forall q, k: nat :: Above(list, p, q, k) ==> q.pid !in visited
  }

  /** Two visited sets that miss the way up give the same depth. */
  lemma {:induction false} DepthIgnoresVisited(list: seq<Process>, i: nat, v: set<int>, w: set<int>)
    requires IsForest(list) && i < |list|
    requires WayUpIsNew(list, list[i], v) && WayUpIsNew(list, list[i], w)
    ensures Depth(list[i], Index(list), v) == Depth(list[i], Index(list), w)
    decreases Index(list).Keys + {list[i].pid} - v
  {
    var p, m := list[i], Index(list);
    assert Above(list, p, p, 0);
    if p.ppid != 0 && p.ppid in m {
      var j :| 0 <= j < |list| && list[j] == m[p.ppid];
      forall q, k: nat | Above(list, list[j], q, k)
        ensures q.pid !in v + {p.pid} && q.pid !in w + {p.pid}
      {
        WayUpFromParent(list, i, j, q, k);
      }
      assert p.pid in m.Keys + {p.pid} - v;
      DepthIgnoresVisited(list, j, v + {p.pid}, w + {p.pid});
    }
  }

  lemma WayUpFromParent(list: seq<Process>, i: nat, j: nat, q: Process, k: nat)
    requires IsForest(list) && i < |list| && j < |list|
    requires list[j].pid == list[i].ppid && Above(list, list[j], q, k)
    ensures Above(list, list[i], q, k + 1) && q.pid != list[i].pid
  {
    assert Above(list, list[i], q, k + 1);
    if q.pid == list[i].pid {
      AboveIsListed(list, j, q, k);
      assert false;
    }
  }

  lemma {:induction false} AboveIsListed(list: seq<Process>, j: nat, q: Process, k: nat)
    requires j < |list| && Above(list, list[j], q, k)
    ensures q in list
    decreases k
  {
    if k > 0 {
      var i :| 0 <= i < |list| && list[i].pid == list[j].ppid && Above(list, list[i], q, k - 1);
      AboveIsListed(list, i, q, k - 1);
    }
  }

  /** A process without a parent, or whose parent is not listed, has depth 0. */
  lemma DepthOfRoot(p: Process, m: ByPid)
    requires IsIndex(m) && (p.ppid == 0 || p.ppid !in m)
    ensures Depth(p, m, {}) == 0
  {
  }

  /** A process is one deeper than its parent. */
  lemma DepthOfParent(list: seq<Process>, i: nat, j: nat)
    requires IsForest(list) && i < |list| && j < |list| && list[j].pid == list[i].ppid
    ensures Depth(list[i], Index(list), {}) == 1 + Depth(list[j], Index(list), {})
  {
    ParentIsIndexed(list, j);
    forall q, k: nat | Above(list, list[j], q, k)
      ensures q.pid !in {} + {list[i].pid}
    {
      WayUpFromParent(list, i, j, q, k);
    }
    DepthIgnoresVisited(list, j, {} + {list[i].pid}, {});
  }

  lemma {:induction false} DepthOfAncestor(list: seq<Process>, i: nat, q: Process, k: nat)
    requires IsForest(list) && i < |list| && Above(list, list[i], q, k)
    ensures Depth(list[i], Index(list), {}) == k + Depth(q, Index(list), {})
    decreases k
  {
    hide Depth, IsForest, Index;
    if k > 0 {
      var j :| 0 <= j < |list| && list[j].pid == list[i].ppid && Above(list, list[j], q, k - 1);
      DepthOfParent(list, i, j);
      DepthOfAncestor(list, j, q, k - 1);
    }
  }

  /** With unique non-zero pids and no process above itself, each process precedes all its listed ancestors. */
  lemma DescendantsFirst(list: seq<Process>, rootPid: int, i: nat, j: nat, k: nat)
    requires IsForest(list) && i < |list| && j < |list| && k > 0
    requires Above(list, list[i], list[j], k) && rootPid in Pids(list)
    ensures var order := OrderWindowsProcessTree(list, rootPid).value;
      exists a, b :: 0 <= a < b < |order| && order[a] == list[i].pid && order[b] == list[j].pid
  {
    hide Depth, IsForest, Above, SortByDepth, OrderWindowsProcessTree;
    var m, order := Index(list), SortByDepth(list, Index(list));
    SortIsDeepestFirst(list, m);
    OrderOfListed(list, rootPid);
    DepthOfAncestor(list, i, list[j], k);
    var a, b := DeeperFirst(order, m, list[i], list[j]);
    assert Pids(order)[a] == list[i].pid && Pids(order)[b] == list[j].pid;
  }

  lemma DeeperFirst(order: seq<Process>, m: ByPid, p: Process, q: Process) returns (a: nat, b: nat)
    requires IsIndex(m) && DeepestFirst(order, m) && p in order && q in order
    requires Depth(p, m, {}) > Depth(q, m, {})
    ensures a < b < |order| && order[a] == p && order[b] == q
  {
    hide Depth;
    a, b :| 0 <= a < |order| && order[a] == p && 0 <= b < |order| && order[b] == q;
  }

  // Ties

  /** Of several processes with one pid the last is the one looked up. */
  lemma {:induction false} LastOfPidIsIndexed(list: seq<Process>, i: nat)
    requires i < |list| && forall j :: i < j < |list| ==> list[j].pid != list[i].pid
    ensures list[i].pid in Index(list) && Index(list)[list[i].pid] == list[i]
  {
    if i < |list| - 1 {
      LastOfPidIsIndexed(list[..|list| - 1], i);
    }
  }

  /** The processes of one depth, in the order of a list. */
  function AtDepth(list: seq<Process>, m: ByPid, depth: nat): seq<Process>
    requires IsIndex(m)
  {
    if list == [] then []
    else (if Depth(list[0], m, {}) == depth then [list[0]] else []) + AtDepth(list[1..], m, depth)
  }

  lemma AtDepthCons(p: Process, rest: seq<Process>, m: ByPid, depth: nat)
    requires IsIndex(m)
    ensures AtDepth([p] + rest, m, depth) == (if Depth(p, m, {}) == depth then [p] else []) + AtDepth(rest, m, depth)
  {
    assert ([p] + rest)[1..] == rest;
  }

  lemma {:induction false} InsertKeepsTies(p: Process, order: seq<Process>, m: ByPid, depth: nat)
    requires IsIndex(m)
    ensures AtDepth(Insert(p, order, m), m, depth) == (if Depth(p, m, {}) == depth then [p] else []) + AtDepth(order, m, depth)
  {
    hide Depth, AtDepth, IsIndex;
    AtDepthCons(p, order, m, depth);
    if order != [] && Depth(p, m, {}) < Depth(order[0], m, {}) {
      InsertKeepsTies(p, order[1..], m, depth);
      AtDepthCons(order[0], Insert(p, order[1..], m), m, depth);
      AtDepthCons(order[0], order[1..], m, depth);
      assert order == [order[0]] + order[1..];
    }
  }

  /** Processes of equal depth stay in the order of the list. */
  lemma {:induction false} TiesKeepOrder(list: seq<Process>, m: ByPid, depth: nat)
    requires IsIndex(m)
    ensures AtDepth(SortByDepth(list, m), m, depth) == AtDepth(list, m, depth)
  {
    hide Depth, Insert;
    if list != [] {
      TiesKeepOrder(list[1..], m, depth);
      InsertKeepsTies(list[0], SortByDepth(list[1..], m), m, depth);
    }
  }
}
