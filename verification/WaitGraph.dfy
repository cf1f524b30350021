// The wait-for graph and its depth-first search for a cycle.
module WaitGraph {
  import opened Snapshot

  /** One process: the resource it waits for (if it is blocked on one) and the pids that hold it. */
  datatype Node = Node(pid: nat, waited: Waited, waits: seq<nat>)

  datatype Waited = Nothing | On(name: string)

  type Graph = seq<Node>

  ghost predicate WellFormed(g: Graph) {
    && (forall i: nat, j: nat :: i < j < |g| ==> g[i].pid != g[j].pid)
    && (forall i: nat :: i < |g| ==> g[i].pid !in g[i].waits)
    && (forall i: nat :: i < |g| && g[i].waits != [] ==> g[i].waited.On?)
  }

  /** Process i waits for process j. */
  predicate Edge(g: Graph, i: nat, j: nat) {
    i < |g| && j < |g| && g[j].pid in g[i].waits
  }

  /** Each process of c is waited for by the next one, and the last one by the first. */
  ghost predicate IsCycle(g: Graph, c: seq<nat>) {
    && c != []
    && (forall i: nat :: i + 1 < |c| ==> Edge(g, c[i + 1], c[i]))
    && Edge(g, c[0], c[|c| - 1])
  }

  ghost predicate HasCycle(g: Graph) {
    exists c: seq<nat> :: IsCycle(g, c)
  }

  // ---- the search state ----

  const WHITE := 0  // not visited
  const GRAY := 1   // on the stack
  const BLACK := 2  // finished

  /** `path` is the stack of gray nodes, `done` the finished ones in the order they finished: every edge of
      a finished node leads to a node that finished before it. */
  ghost predicate Searching(g: Graph, estado: seq<int>, padre: seq<int>, path: seq<nat>, done: seq<nat>) {
    && |estado| == |padre| == |g|
    && Distinct(path) && Below(path, |g|) && Below(done, |g|)
    && (forall i: nat :: i < |g| ==> estado[i] == WHITE || estado[i] == GRAY || estado[i] == BLACK)
    && (forall i: nat :: i < |g| ==> (estado[i] == GRAY <==> i in path))
    && (forall i: nat :: i < |g| ==> (estado[i] == BLACK <==> i in done))
    && (forall k: nat :: k + 1 < |path| ==> padre[path[k + 1]] == path[k] && Edge(g, path[k], path[k + 1]))
    && Finished(g, done)
  }

  ghost predicate Finished(g: Graph, done: seq<nat>) {
    && Below(done, |g|)
    && forall k: nat, j: nat :: k < |done| && Edge(g, done[k], j) ==> j in done[..k]
  }

  function Position(done: seq<nat>, x: nat): (p: nat)
    requires x in done
    ensures p < |done| && done[p] == x
    ensures forall q: nat :: q < |done| && done[q] == x ==> p <= q
  {
    if done[0] == x then 0 else
      assert x in done[1..];
      assert forall q: nat :: 0 < q < |done| ==> done[q] == done[1..][q - 1];
      1 + Position(done[1..], x)
  }

  lemma EdgeDrops(g: Graph, done: seq<nat>, i: nat, j: nat)
    requires Finished(g, done) && i in done && Edge(g, i, j)
    ensures j in done && Position(done, j) < Position(done, i)
  {
    var p := Position(done, i);
    assert j in done[..p];
    var q: nat :| q < p && done[..p][q] == j;
  }

  /** Along a cycle of finished nodes the finishing position only grows. */
  lemma {:induction false} CycleGrows(g: Graph, done: seq<nat>, c: seq<nat>, k: nat)
    requires Finished(g, done) && IsCycle(g, c) && k < |c| && forall i: nat :: i < |c| ==> c[i] in done
    ensures Position(done, c[0]) <= Position(done, c[k])
  {
    if k > 0 {
      CycleGrows(g, done, c, k - 1);
      assert Edge(g, c[k - 1 + 1], c[k - 1]);
      EdgeDrops(g, done, c[k], c[k - 1]);
    }
  }

  lemma LastDrops(g: Graph, done: seq<nat>, c: seq<nat>)
    requires Finished(g, done) && IsCycle(g, c) && forall i: nat :: i < |c| ==> c[i] in done
    ensures Position(done, c[|c| - 1]) < Position(done, c[0])
  {
    EdgeDrops(g, done, c[0], c[|c| - 1]);
  }

  /** There is no cycle of finished nodes. */
  lemma FinishedAcyclic(g: Graph, done: seq<nat>, c: seq<nat>)
    requires Finished(g, done) && IsCycle(g, c)
    ensures exists i: nat :: i < |c| && c[i] !in done
  {
    if forall i: nat :: i < |c| ==> c[i] in done {
      LastDrops(g, done, c);
      CycleGrows(g, done, c, |c| - 1);
    }
  }

  /** Every node of a cycle has an outgoing edge. */
  lemma CycleEdges(g: Graph, c: seq<nat>, i: nat)
    requires IsCycle(g, c) && i < |c|
    ensures c[i] < |g| && g[c[i]].waits != []
  {
    if i > 0 {
      assert Edge(g, c[i - 1 + 1], c[i - 1]);
    }
  }

  // ---- grafo_espera.c: dfs_ciclo ----

  method IndexOfPid(g: Graph, pid: nat) returns (idx: int)
    ensures idx == -1 <==> forall j: nat :: j < |g| ==> g[j].pid != pid
    ensures idx != -1 ==> 0 <= idx < |g| && g[idx].pid == pid
  {
    for j := 0 to |g|
      invariant forall k: nat :: k < j ==> g[k].pid != pid
    {
      if g[j].pid == pid {
        return j;
      }
    }
    return -1;
  }

  lemma Visit(g: Graph, estado: seq<int>, padre: seq<int>, path: seq<nat>, done: seq<nat>, x: nat)
    requires Searching(g, estado, padre, path, done) && x < |g| && estado[x] == WHITE
    requires path != [] ==> padre[x] == path[|path| - 1] && Edge(g, path[|path| - 1], x)
    ensures Searching(g, estado[x := GRAY], padre, path + [x], done)
  {
    var path' := path + [x];
    assert forall i: nat :: i in path' <==> i in path || i == x;
  }

  lemma Finish(g: Graph, estado: seq<int>, padre: seq<int>, path: seq<nat>, done: seq<nat>, x: nat)
    requires x < |g| && Searching(g, estado, padre, path + [x], done)
    requires forall j: nat :: Edge(g, x, j) ==> j in done
    ensures Searching(g, estado[x := BLACK], padre, path, done + [x])
  {
    var path', done' := path + [x], done + [x];
    assert forall i: nat :: i < |path| ==> path'[i] == path[i];
    assert path'[|path|] == x;
    assert forall i: nat :: i in done' <==> i in done || i == x;
    assert forall i: nat :: i in path' <==> i in path || i == x;
    assert x !in path;
    forall k: nat, j: nat | k < |done'| && Edge(g, done'[k], j)
      ensures j in done'[..k]
    {
      if k < |done| {
        assert done'[..k] == done[..k];
      } else {
        assert done'[..k] == done;
      }
    }
  }

  lemma SetParent(g: Graph, estado: seq<int>, padre: seq<int>, path: seq<nat>, done: seq<nat>, x: nat, p: int)
    requires Searching(g, estado, padre, path, done) && x < |g| && estado[x] == WHITE
    ensures Searching(g, estado, padre[x := p], path, done)
  {
    assert forall k: nat :: k < |path| ==> path[k] in path;
  }

  /** The list from the repeated node back through the parents: a cycle of distinct nodes. */
  lemma ClosedPath(g: Graph, path: seq<nat>, padre: seq<int>, estado: seq<int>, done: seq<nat>, m: nat, c: seq<nat>)
    requires Searching(g, estado, padre, path, done) && m + 1 < |path| && Edge(g, path[|path| - 1], path[m])
    requires |c| == |path| - m && c[0] == path[m]
    requires forall s: nat :: 1 <= s < |c| ==> c[s] == path[|path| - s]
    ensures IsCycle(g, c) && Distinct(c)
  {
    forall i: nat | i + 1 < |c|
      ensures Edge(g, c[i + 1], c[i])
    {
      if i > 0 {
        var k := |path| - (i + 1);
        assert padre[path[k + 1]] == path[k];
      }
    }
    assert padre[path[m + 1]] == path[m];
  }

  /** The top of the path is the only node above which there is none; parents lead down the path. */
  lemma Parent(g: Graph, estado: seq<int>, padre: seq<int>, path: seq<nat>, done: seq<nat>, j: nat)
    requires Searching(g, estado, padre, path, done) && j + 1 < |path|
    ensures path[j + 1] < |padre| && padre[path[j + 1]] == path[j]
  {
  }

  lemma PathShort(g: Graph, estado: seq<int>, padre: seq<int>, path: seq<nat>, done: seq<nat>)
    requires Searching(g, estado, padre, path, done)
    ensures |path| <= |g| == |padre| && Distinct(path) && Below(path, |g|)
  {
    DistinctBelow(path, |g|);
  }

  /** The recorded list is a genuine cycle without repetitions. */
  ghost predicate IsListedCycle(g: Graph, c: seq<nat>) {
    2 <= |c| <= |g| && IsCycle(g, c) && Distinct(c)
  }

  /** Rebuilds the cycle closed by the edge from the top of the path to `dest`. */
  method Rebuild(g: Graph, padre: array<int>, pila: array<nat>, actual: nat, dest: nat,
                 ghost path: seq<nat>, ghost estado: seq<int>, ghost done: seq<nat>) returns (tam: nat)
    requires WellFormed(g) && pila.Length == |g|
    requires Searching(g, estado, padre[..], path + [actual], done)
    requires Edge(g, actual, dest) && dest in path + [actual]
    modifies pila
    ensures tam <= pila.Length && IsListedCycle(g, pila[..tam])
  {
    hide Searching;
    ghost var p := path + [actual];
    PathShort(g, estado, padre[..], p, done);
    assert dest != actual;
    ghost var m: nat :| m < |p| && p[m] == dest;
    assert p[|path|] == actual;
    pila[0] := dest;
    tam := 1;
    var k: int := actual;
    while k != dest && k >= 0 && tam < |g|
      invariant 1 <= tam <= |p| - m && k == p[|p| - tam]
      invariant pila[0] == dest && forall s: nat :: 1 <= s < tam ==> pila[s] == p[|p| - s]
      decreases |g| - tam
    {
      pila[tam] := k;
      Parent(g, estado, padre[..], p, done, |p| - tam - 1);
      k := padre[k];
      tam := tam + 1;
    }
    assert tam == |p| - m;
    ClosedPath(g, p, padre[..], estado, done, m, pila[..tam]);
  }

  lemma Colours(g: Graph, estado: seq<int>, padre: seq<int>, path: seq<nat>, done: seq<nat>)
    requires Searching(g, estado, padre, path, done)
    ensures |estado| == |padre| == |g|
    ensures forall i: nat :: i < |g| ==> estado[i] == WHITE || i in path || i in done
    ensures forall i: nat :: i < |g| && estado[i] == GRAY ==> i in path
    ensures forall i: nat :: i < |g| && estado[i] == BLACK ==> i in done
    ensures forall i: nat :: i < |g| ==> estado[i] == WHITE || estado[i] == GRAY || estado[i] == BLACK
  {
  }

  method Dfs(g: Graph, actual: nat, estado: array<int>, padre: array<int>, pila: array<nat>,
             ghost path: seq<nat>, ghost done: seq<nat>)
    returns (found: bool, tam: nat, ghost done': seq<nat>)
    requires WellFormed(g) && estado != padre && pila.Length == |g|
    requires Searching(g, estado[..], padre[..], path, done)
    requires actual < |g| && estado[actual] == WHITE
    requires path != [] ==> padre[actual] == path[|path| - 1] && Edge(g, path[|path| - 1], actual)
    modifies estado, padre, pila
    ensures !found ==> Searching(g, estado[..], padre[..], path, done') && actual in done'
    ensures !found ==> forall i :: i in done ==> i in done'
    ensures forall i: nat :: i < |g| && estado[i] == WHITE ==> old(estado[i]) == WHITE
    ensures found ==> tam <= pila.Length && IsListedCycle(g, pila[..tam])
    decreases set i: nat | i < estado.Length && estado[i] == WHITE
  {
    hide Searching;
    Colours(g, estado[..], padre[..], path, done);
    Visit(g, estado[..], padre[..], path, done, actual);
    ghost var whites := set i: nat | i < estado.Length && estado[i] == WHITE;
    estado[actual] := GRAY;
    done', tam := done, 0;
    var waits := g[actual].waits;
    for i := 0 to |waits|
      invariant Searching(g, estado[..], padre[..], path + [actual], done')
      invariant forall k :: k in done ==> k in done'
      invariant forall k: nat :: k < |g| && estado[k] == WHITE ==> old(estado[k]) == WHITE && k != actual
      invariant forall k: nat, j: nat :: k < i && j < |g| && g[j].pid == waits[k] ==> j in done'
    {
      var dest := IndexOfPid(g, waits[i]);
      if dest != -1 {
        assert Edge(g, actual, dest);
        Colours(g, estado[..], padre[..], path + [actual], done');
        if estado[dest] == GRAY {
          tam := Rebuild(g, padre, pila, actual, dest, path, estado[..], done');
          return true, tam, done';
        }
        if estado[dest] == WHITE {
          SetParent(g, estado[..], padre[..], path + [actual], done', dest, actual);
          ghost var pd := padre[..];
          padre[dest] := actual;
          assert padre[..] == pd[dest := actual];
          assert actual in whites && actual !in (set k: nat | k < estado.Length && estado[k] == WHITE);
          found, tam, done' := Dfs(g, dest, estado, padre, pila, path + [actual], done');
          if found {
            return;
          }
        }
      }
    }
    Finish(g, estado[..], padre[..], path, done', actual);
    estado[actual] := BLACK;
    return false, 0, done' + [actual];
  }

  lemma SearchStart(g: Graph, estado: seq<int>, padre: seq<int>)
    requires |estado| == |padre| == |g| && forall i: nat :: i < |g| ==> estado[i] == WHITE
    ensures Searching(g, estado, padre, [], [])
  {
  }

  lemma SearchIdle(g: Graph, estado: seq<int>, padre: seq<int>, done: seq<nat>, i: nat)
    requires Searching(g, estado, padre, [], done) && i < |g|
    ensures Finished(g, done) && |estado| == |padre| == |g|
    ensures estado[i] == WHITE || i in done
  {
  }

  /** Once every node with edges is finished there is no cycle. */
  lemma SearchOver(g: Graph, done: seq<nat>)
    requires Finished(g, done) && forall k: nat :: k < |g| && g[k].waits != [] ==> k in done
    ensures !HasCycle(g)
  {
    forall c: seq<nat> | IsCycle(g, c)
      ensures false
    {
      FinishedAcyclic(g, done, c);
      var i: nat :| i < |c| && c[i] !in done;
      CycleEdges(g, c, i);
    }
  }

  /** The search over all nodes, started at each unvisited node with edges. */
  method FindCycle(g: Graph) returns (found: bool, ciclo: seq<nat>)
    requires WellFormed(g)
    ensures found <==> HasCycle(g)
    ensures found ==> IsListedCycle(g, ciclo)
  {
    hide Searching, Finished, WellFormed;
    var n := |g|;
    var estado := new int[n](_ => WHITE);
    var padre := new int[n](_ => -1);
    var pila := new nat[n](_ => 0);
    ghost var done: seq<nat> := [];
    SearchStart(g, estado[..], padre[..]);
    assert n == 0 ==> Finished(g, done) by { EmptyFinished(g); }
    for i := 0 to n
      invariant Searching(g, estado[..], padre[..], [], done)
      invariant i == n ==> Finished(g, done)
      invariant forall k: nat :: k < i && g[k].waits != [] ==> k in done
    {
      SearchIdle(g, estado[..], padre[..], done, i);
      if estado[i] == WHITE && |g[i].waits| > 0 {
        var tam;
        found, tam, done := Dfs(g, i, estado, padre, pila, [], done);
        if found {
          assert IsCycle(g, pila[..tam]);
          return true, pila[..tam];
        }
      }
      SearchIdle(g, estado[..], padre[..], done, i);
    }
    SearchOver(g, done);
    return false, [];
  }

  lemma EmptyFinished(g: Graph)
    ensures Finished(g, [])
  {
  }

  // ---- grafo_espera.c: building the graph ----

  /** The first resource, in the order of `names`, in whose queue the pid is. */
  function QueueOf(sys: System, names: seq<string>, pid: nat): Waited {
    if names == [] then Nothing
    else if names[0] in sys.resources && pid in sys.resources[names[0]].waiting then On(names[0])
    else QueueOf(sys, names[1..], pid)
  }

  /** Pids of the first k processes that hold the resource. */
  function Holders(sys: System, name: string, k: nat): seq<nat>
    requires k <= |sys.procs|
  {
    if k == 0 then []
    else if name in sys.procs[k - 1].held then Holders(sys, name, k - 1) + [sys.procs[k - 1].pid]
    else Holders(sys, name, k - 1)
  }

  function Except(s: seq<nat>, x: nat): (r: seq<nat>)
    ensures forall y :: y in r <==> y in s && y != x
  {
    if s == [] then [] else
      assert forall y :: y in s <==> y == s[0] || y in s[1..];
      (if s[0] == x then [] else [s[0]]) + Except(s[1..], x)
  }

  function NodeOf(sys: System, names: seq<string>, i: nat): Node
    requires i < |sys.procs|
  {
    var p := sys.procs[i];
    var w := if p.estado == BLOCK then QueueOf(sys, names, p.pid) else Nothing;
    Node(p.pid, w, if w.On? then Except(Holders(sys, w.name, |sys.procs|), p.pid) else [])
  }

  function GraphOf(sys: System, names: seq<string>): (g: Graph)
    ensures |g| == |sys.procs|
    ensures forall i: nat :: i < |g| ==> g[i] == NodeOf(sys, names, i)
  {
    seq(|sys.procs|, i requires 0 <= i < |sys.procs| => NodeOf(sys, names, i))
  }

  /** i waits for j exactly when i is blocked on a resource that j, another process, holds. */
  lemma EdgeMeans(sys: System, names: seq<string>, i: nat, j: nat)
    requires UniquePids(sys)
    ensures Edge(GraphOf(sys, names), i, j) <==>
              && i < |sys.procs| && j < |sys.procs| && i != j && sys.procs[i].estado == BLOCK
              && QueueOf(sys, names, sys.procs[i].pid).On?
              && QueueOf(sys, names, sys.procs[i].pid).name in sys.procs[j].held
  {
    hide Holders, QueueOf;
    if i < |sys.procs| && j < |sys.procs| {
      var w := QueueOf(sys, names, sys.procs[i].pid);
      if w.On? {
        HolderPid(sys, w.name, j);
      }
    }
  }

  lemma HolderPid(sys: System, name: string, j: nat)
    requires UniquePids(sys) && j < |sys.procs|
    ensures sys.procs[j].pid in Holders(sys, name, |sys.procs|) <==> name in sys.procs[j].held
  {
    HoldersExact(sys, name, |sys.procs|, sys.procs[j].pid);
    hide Holders;
    assert forall k: nat :: k < |sys.procs| && sys.procs[k].pid == sys.procs[j].pid ==> k == j;
  }

  lemma {:induction false} HoldersExact(sys: System, name: string, k: nat, pid: nat)
    requires k <= |sys.procs|
    ensures pid in Holders(sys, name, k) <==>
            exists j: nat :: j < k && sys.procs[j].pid == pid && name in sys.procs[j].held
  {
    if k > 0 {
      HoldersExact(sys, name, k - 1, pid);
    }
  }

  lemma {:induction false} QueueOfExact(sys: System, names: seq<string>, pid: nat)
    ensures QueueOf(sys, names, pid).On? ==>
              var n := QueueOf(sys, names, pid).name;
              n in names && n in sys.resources && pid in sys.resources[n].waiting
    ensures QueueOf(sys, names, pid).Nothing? ==>
              forall n :: n in names && n in sys.resources ==> pid !in sys.resources[n].waiting
  {
    if names != [] {
      QueueOfExact(sys, names[1..], pid);
      assert forall n :: n in names <==> n == names[0] || n in names[1..];
    }
  }

  lemma GraphWellFormed(sys: System, names: seq<string>)
    requires UniquePids(sys)
    ensures WellFormed(GraphOf(sys, names))
  {
  }

  /** buscar_recurso_esperado */
  method FindQueue(sys: System, names: seq<string>, pid: nat) returns (w: Waited)
    requires Enumerates(names, sys.resources)
    ensures w == QueueOf(sys, names, pid)
  {
    assert names[0..] == names;
    for i := 0 to |names|
      invariant QueueOf(sys, names, pid) == QueueOf(sys, names[i..], pid)
    {
      assert names[i..][1..] == names[i + 1..];
      assert names[i] in names;
      if pid in sys.resources[names[i]].waiting {
        return On(names[i]);
      }
    }
    return Nothing;
  }

  /** buscar_poseedores, then the copy that leaves the process itself out. */
  method FindHolders(sys: System, name: string, pid: nat) returns (waits: seq<nat>)
    ensures waits == Except(Holders(sys, name, |sys.procs|), pid)
  {
    var poseedores := [];
    for i := 0 to |sys.procs|
      invariant poseedores == Holders(sys, name, i)
    {
      if name in sys.procs[i].held {
        poseedores := poseedores + [sys.procs[i].pid];
      }
    }
    waits := [];
    assert poseedores[0..] == poseedores;
    for j := 0 to |poseedores|
      invariant waits + Except(poseedores[j..], pid) == Except(poseedores, pid)
    {
      assert poseedores[j..][1..] == poseedores[j + 1..];
      if poseedores[j] != pid {
        waits := waits + [poseedores[j]];
      }
    }
  }

  /** Two processes blocked on resources are needed for a cycle, so the early exit hides none. */
  lemma CycleNeedsTwo(g: Graph, blocked: nat)
    requires WellFormed(g) && HasCycle(g) && blocked == BlockedCount(g, |g|)
    ensures 2 <= blocked
  {
    var c: seq<nat> :| IsCycle(g, c);
    CycleEdges(g, c, 0);
    CycleEdges(g, c, |c| - 1);
    var x, y := c[0], c[|c| - 1];
    assert x != y;
    CountTwo(g, |g|, if x < y then x else y, if x < y then y else x);
  }

  function BlockedCount(g: Graph, k: nat): nat
    requires k <= |g|
  {
    if k == 0 then 0 else BlockedCount(g, k - 1) + if g[k - 1].waited.On? then 1 else 0
  }

  lemma {:induction false} CountTwo(g: Graph, k: nat, x: nat, y: nat)
    requires k <= |g| && x < y < |g| && g[x].waited.On? && g[y].waited.On?
    ensures y < k ==> 2 <= BlockedCount(g, k)
    ensures x < k ==> 1 <= BlockedCount(g, k)
  {
    if k > 0 {
      CountTwo(g, k - 1, x, y);
    }
  }

  /** One node of the graph, and whether it counts as blocked. */
  method BuildNode(sys: System, names: seq<string>, i: nat) returns (nodo: Node, bloqueado: bool)
    requires Enumerates(names, sys.resources) && i < |sys.procs|
    ensures nodo == NodeOf(sys, names, i) && (bloqueado <==> nodo.waited.On?)
  {
    var p := sys.procs[i];
    nodo, bloqueado := Node(p.pid, Nothing, []), false;
    if p.estado == BLOCK {
      var w := FindQueue(sys, names, p.pid);
      if w.On? {
        var waits := FindHolders(sys, w.name, p.pid);
        nodo, bloqueado := Node(p.pid, w, waits), true;
      }
    }
  }

  method BuildGraph(sys: System, names: seq<string>) returns (nodos: Graph, bloqueados: nat)
    requires Enumerates(names, sys.resources)
    ensures nodos == GraphOf(sys, names) && bloqueados == BlockedCount(nodos, |nodos|)
  {
    hide NodeOf;
    nodos, bloqueados := [], 0;
    for i := 0 to |sys.procs|
      invariant |nodos| == i && forall k: nat :: k < i ==> nodos[k] == NodeOf(sys, names, k)
      invariant bloqueados == BlockedCount(nodos, i)
    {
      var nodo, bloqueado := BuildNode(sys, names, i);
      CountPrefix(nodos, nodos + [nodo], i);
      nodos := nodos + [nodo];
      if bloqueado {
        bloqueados := bloqueados + 1;
      }
    }
  }

  /** grafo_espera_detectar_deadlock: true exactly when the wait-for graph has a cycle; then the processes
      reported are the distinct members of one, each waited for by the next. */
  method DetectDeadlock(sys: System, names: seq<string>) returns (deadlock: bool, ciclo: seq<nat>)
    requires Enumerates(names, sys.resources) && UniquePids(sys)
    ensures deadlock <==> HasCycle(GraphOf(sys, names))
    ensures deadlock ==> IsListedCycle(GraphOf(sys, names), ciclo)
  {
    GraphWellFormed(sys, names);
    hide HasCycle, IsCycle, Edge, WellFormed;
    var nodos, bloqueados := BuildGraph(sys, names);
    if bloqueados < 2 {
      if HasCycle(nodos) {
        CycleNeedsTwo(nodos, bloqueados);
      }
      return false, [];
    }
    deadlock, ciclo := FindCycle(nodos);
  }

  lemma {:induction false} CountPrefix(g: Graph, g': Graph, k: nat)
    requires k <= |g| <= |g'| && g'[..|g|] == g
    ensures BlockedCount(g, k) == BlockedCount(g', k)
  {
    if k > 0 {
      CountPrefix(g, g', k - 1);
      assert g'[..|g|][k - 1] == g'[k - 1];
    }
  }
}
