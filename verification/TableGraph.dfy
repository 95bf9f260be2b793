/**
 The dependency graph of one interface's tables, and the pure meaning of production rounds over it.

 A table is named by its position in the interface's table map. `deps[t]` are the tables t waits for,
 `dependents[t]` the tables told when t is done, `toCreate[t]` the number of files t has to produce.
 Nothing here assumes that the graph is acyclic or that file numbers agree along its edges.
 */
module TableGraph {
  import opened Arithmetic


  datatype Graph = Graph(deps: seq<seq<nat>>, dependents: seq<seq<nat>>, toCreate: seq<nat>) {

    function Size(): nat {
      |deps|
    }

    /** Both directions of every edge are recorded, and every edge stays inside the interface. */
    ghost predicate Valid() {
      && |dependents| == |toCreate| == Size()
      && (forall t, k | 0 <= t < Size() && 0 <= k < |deps[t]| :: deps[t][k] < Size())
      && (forall t, k | 0 <= t < Size() && 0 <= k < |dependents[t]| :: dependents[t][k] < Size())
      && (forall x, y | 0 <= x < Size() && 0 <= y < Size() :: x in deps[y] <==> y in dependents[x])
    }
  }

  /** `log` lists distinct tables, each after all the tables it depends on. */
  ghost predicate Topological(g: Graph, log: seq<nat>)
    requires g.Valid()
  {
    && (forall i | 0 <= i < |log| :: log[i] < g.Size())
    && (forall i, j | 0 <= i < j < |log| :: log[i] != log[j])
    && (forall i, d | 0 <= i < |log| && d in g.deps[log[i]] :: d in log[..i])
  }

  /** The tables not in `log` all of whose dependencies are: those a notification would build. */
  ghost function ReadyUnbuilt(g: Graph, log: seq<nat>): set<nat>
    requires g.Valid()
  {
    set t: nat | t < g.Size() && t !in log && forall d | d in g.deps[t] :: d in log
  }

  ghost function Elements(s: seq<nat>): set<nat> {
    set x | x in s
  }

  lemma {:induction false} DistinctElements(s: seq<nat>)
    requires forall i, j | 0 <= i < j < |s| :: s[i] != s[j]
    ensures |Elements(s)| == |s|
  {
    if s != [] {
      var init, last := s[..|s| - 1], s[|s| - 1];
      DistinctElements(init);
      assert s == init + [last];
      assert Elements(s) == Elements(init) + {last};
    }
  }

  lemma {:induction false} SubsetSize(a: set<nat>, b: set<nat>)
    requires a <= b
    ensures |a| <= |b|
  {
    if a != {} {
      var x :| x in a;
      SubsetSize(a - {x}, b - {x});
    }
  }

  lemma {:induction false} DistinctBound(s: seq<nat>, n: nat)
    requires forall i | 0 <= i < |s| :: s[i] < n
    requires forall i, j | 0 <= i < j < |s| :: s[i] != s[j]
    ensures |s| <= n
  {
    DistinctElements(s);
    SubsetSize(Elements(s), Below(n));
  }

  /** What a notification of t does to the log: it only appends, it leaves t built or unready, at most
      `pending` is newly ready, and it builds no root but t. */
  ghost predicate Advances(g: Graph, from: seq<nat>, to: seq<nat>, t: nat, pending: set<nat>)
    requires g.Valid()
  {
    && from <= to
    && Topological(g, to)
    && ReadyUnbuilt(g, to) <= (ReadyUnbuilt(g, from) - {t}) + pending
    && forall i | |from| <= i < |to| :: to[i] == t || g.deps[to[i]] != []
  }

  /** Building a ready table keeps the log topological, and can only make its own dependents ready. */
  lemma {:induction false} BuildStep(g: Graph, log: seq<nat>, t: nat)
    requires g.Valid() && Topological(g, log) && t in ReadyUnbuilt(g, log)
    ensures Advances(g, log, log + [t], t, Elements(g.dependents[t]))
  {
    var log' := log + [t];
    forall i, d | 0 <= i < |log'| && d in g.deps[log'[i]]
      ensures d in log'[..i]
    {
      assert log'[..i] == log[..i];
      assert log[..|log|] == log;
    }
  }

  /** Notifying the next pending dependent removes it from what is pending. */
  lemma {:induction false} AdvanceStep(g: Graph, from: seq<nat>, mid: seq<nat>, to: seq<nat>, t: nat, pending: seq<nat>)
    requires g.Valid() && t < g.Size() && pending != []
    requires forall y | y in pending :: y in g.dependents[t]
    requires Advances(g, from, mid, t, Elements(pending)) && Advances(g, mid, to, pending[0], {})
    ensures Advances(g, from, to, t, Elements(pending[1..]))
  {
    assert pending == [pending[0]] + pending[1..];
    assert Elements(pending) == {pending[0]} + Elements(pending[1..]);
    assert t in g.deps[pending[0]];
    forall i | |from| <= i < |to|
      ensures to[i] == t || g.deps[to[i]] != []
    {
      if i < |mid| {
        assert to[i] == mid[i];
      }
    }
  }

  /** The log position t holds, or would take if it were built now. */
  ghost predicate PlaceOf(log: seq<nat>, t: nat, place: nat) {
    if t in log then place < |log| && log[place] == t else place == |log|
  }

  /** A dependent's place lies above the table it depends on. */
  lemma {:induction false} PlaceAbove(g: Graph, log: seq<nat>, t: nat, place: nat, y: nat) returns (next: nat)
    requires g.Valid() && Topological(g, log)
    requires place < |log| && log[place] == t && y in g.dependents[t]
    ensures PlaceOf(log, y, next) && place < next <= |log| <= g.Size()
  {
    assert t in g.deps[y];
    DistinctBound(log, g.Size());
    next := |log|;
    if y in log {
      next :| 0 <= next < |log| && log[next] == y;
      assert t in log[..next];
    }
  }

  // ----------------------------------------------------------------- one round

  /** t is built in a round entered with `created` files per table: a root when it still owes files,
      any other table when all its dependencies are; `fuel` bounds the dependency chains followed. */
  ghost predicate BuiltIn(g: Graph, created: seq<nat>, fuel: nat, t: nat)
    requires g.Valid() && |created| == g.Size() && t < g.Size()
    decreases fuel
  {
    fuel != 0 &&
    if g.deps[t] == [] then created[t] < g.toCreate[t]
    else forall k | 0 <= k < |g.deps[t]| :: BuiltIn(g, created, fuel - 1, g.deps[t][k])
  }

  ghost function Round(g: Graph, created: seq<nat>): (after: seq<nat>)
    requires g.Valid() && |created| == g.Size()
    ensures |after| == g.Size()
  {
    seq(g.Size(), t requires 0 <= t < g.Size() =>
      if BuiltIn(g, created, g.Size(), t) then created[t] + 1 else created[t])
  }

  /** The walk's state before it reaches table i: roots before i are built iff they owed files, roots
      from i on are not built yet, and no other table is ready. */
  ghost predicate Walked(g: Graph, created: seq<nat>, log: seq<nat>, i: nat)
    requires g.Valid() && |created| == g.Size()
  {
    && Topological(g, log)
    && (forall t | 0 <= t < g.Size() && g.deps[t] == [] :: t in log <==> t < i && created[t] < g.toCreate[t])
    && (forall t | t in ReadyUnbuilt(g, log) :: g.deps[t] == [])
  }

  /** What a finished walk over the map leaves behind: a topological log whose roots are exactly the
      roots that owed files and which no further table could join. */
  ghost predicate RoundLog(g: Graph, created: seq<nat>, log: seq<nat>)
    requires g.Valid() && |created| == g.Size()
  {
    Walked(g, created, log, g.Size())
  }

  lemma {:induction false} WalkStart(g: Graph, created: seq<nat>)
    requires g.Valid() && |created| == g.Size()
    ensures Walked(g, created, [], 0)
  {
    forall t | 0 <= t < g.Size() && g.deps[t] != []
      ensures t !in ReadyUnbuilt(g, [])
    {
      assert g.deps[t][0] in g.deps[t];
    }
  }

  /** The walk's own notification of table i settles whether root i is built, and no other root. */
  lemma {:induction false} WalkStep(g: Graph, created: seq<nat>, from: seq<nat>, to: seq<nat>, i: nat)
    requires g.Valid() && |created| == g.Size() && i < g.Size()
    requires Walked(g, created, from, i) && Advances(g, from, to, i, {})
    requires g.deps[i] == [] ==> created[i] < g.toCreate[i]
    ensures Walked(g, created, to, i + 1)
  {
    forall t | 0 <= t < g.Size() && g.deps[t] == []
      ensures t in to <==> t in from || t == i
    {
      if t in to {
        var k :| 0 <= k < |to| && to[k] == t;
        assert k < |from| ==> from[k] == t;
      } else {
        assert t in ReadyUnbuilt(g, to);
      }
      if t in from {
        var k :| 0 <= k < |from| && from[k] == t;
        assert to[k] == t;
      }
    }
  }

  /** Skipping a table that owes nothing. */
  lemma {:induction false} WalkSkip(g: Graph, created: seq<nat>, log: seq<nat>, i: nat)
    requires g.Valid() && |created| == g.Size() && i < g.Size()
    requires Walked(g, created, log, i)
    requires created[i] >= g.toCreate[i] || i in log
    ensures Walked(g, created, log, i + 1)
  {
  }

  /** No table without dependencies has been built that did not owe files. */
  ghost predicate RootsOwed(g: Graph, created: seq<nat>, log: seq<nat>)
    requires g.Valid() && |created| == g.Size() && Topological(g, log)
  {
    forall i | 0 <= i < |log| && g.deps[log[i]] == [] :: created[log[i]] < g.toCreate[log[i]]
  }

  /** At every point of a round, what has been built is built in it. */
  lemma {:induction false} LoggedIsBuilt(g: Graph, created: seq<nat>, log: seq<nat>, i: nat, fuel: nat)
    requires g.Valid() && |created| == g.Size() && Topological(g, log) && RootsOwed(g, created, log)
    requires i < |log| && i < fuel
    ensures BuiltIn(g, created, fuel, log[i])
    decreases i
  {
    var t := log[i];
    forall k | 0 <= k < |g.deps[t]|
      ensures BuiltIn(g, created, fuel - 1, g.deps[t][k])
    {
      assert g.deps[t][k] in log[..i];
      var j :| 0 <= j < i && log[j] == g.deps[t][k];
      LoggedIsBuilt(g, created, log, j, fuel - 1);
    }
  }

  lemma {:induction false} BuiltIsLogged(g: Graph, created: seq<nat>, log: seq<nat>, fuel: nat, t: nat)
    requires g.Valid() && |created| == g.Size() && RoundLog(g, created, log)
    requires t < g.Size() && BuiltIn(g, created, fuel, t)
    ensures t in log
    decreases fuel
  {
    var ready := ReadyUnbuilt(g, log);
    if g.deps[t] != [] {
      forall d | d in g.deps[t]
        ensures d in log
      {
        var k :| 0 <= k < |g.deps[t]| && g.deps[t][k] == d;
        BuiltIsLogged(g, created, log, fuel - 1, d);
      }
    }
  }

  /** A table that is ready to be built is built in the round. */
  lemma {:induction false} ReadyIsBuilt(g: Graph, created: seq<nat>, log: seq<nat>, t: nat)
    requires g.Valid() && |created| == g.Size() && Topological(g, log) && RootsOwed(g, created, log)
    requires t in ReadyUnbuilt(g, log) && (g.deps[t] == [] ==> created[t] < g.toCreate[t])
    ensures BuiltIn(g, created, g.Size(), t)
    ensures Topological(g, log + [t]) && RootsOwed(g, created, log + [t])
  {
    BuildStep(g, log, t);
    DistinctBound(log + [t], g.Size());
    LoggedIsBuilt(g, created, log + [t], |log|, g.Size());
  }

  /** However the map is ordered, the tables built by a round are the ones `BuiltIn` names. */
  lemma {:induction false} RoundLogIsBuilt(g: Graph, created: seq<nat>, log: seq<nat>, t: nat)
    requires g.Valid() && |created| == g.Size() && RoundLog(g, created, log) && t < g.Size()
    ensures t in log <==> BuiltIn(g, created, g.Size(), t)
  {
    DistinctBound(log, g.Size());
    if t in log {
      var i :| 0 <= i < |log| && log[i] == t;
      LoggedIsBuilt(g, created, log, i, g.Size());
    } else if BuiltIn(g, created, g.Size(), t) {
      BuiltIsLogged(g, created, log, g.Size(), t);
    }
  }

  // ----------------------------------------------------------------- runs of rounds

  /** File counts after r rounds, from the initial counts of zero. */
  ghost function After(g: Graph, r: nat): (created: seq<nat>)
    requires g.Valid()
    ensures |created| == g.Size()
  {
    if r == 0 then seq(g.Size(), _ => 0) else Round(g, After(g, r - 1))
  }

  function Min(a: nat, b: nat): nat {
    if a < b then a else b
  }

  /** The smallest supply over a list of tables. */
  function MinSupply(g: Graph, fuel: nat, ts: seq<nat>): nat
    requires ts != [] && forall k | 0 <= k < |ts| :: ts[k] < g.Size()
    requires g.Valid()
    decreases fuel, 1, |ts|
  {
    if |ts| == 1 then Supply(g, fuel, ts[0])
    else Min(Supply(g, fuel, ts[0]), MinSupply(g, fuel, ts[1..]))
  }

  /** In how many rounds t can be built at all: a root in as many as it has files to create, any other
      table in as many as its scarcest dependency; a table behind a cycle in none. */
  function Supply(g: Graph, fuel: nat, t: nat): nat
    requires g.Valid() && t < g.Size()
    decreases fuel, 0
  {
    if fuel == 0 then 0
    else if g.deps[t] == [] then g.toCreate[t]
    else MinSupply(g, fuel - 1, g.deps[t])
  }

  lemma {:induction false} MinSupplyAtLeast(g: Graph, fuel: nat, ts: seq<nat>, r: nat)
    requires g.Valid() && ts != [] && forall k | 0 <= k < |ts| :: ts[k] < g.Size()
    ensures MinSupply(g, fuel, ts) >= r <==> forall k | 0 <= k < |ts| :: Supply(g, fuel, ts[k]) >= r
    decreases |ts|
  {
    if |ts| > 1 {
      MinSupplyAtLeast(g, fuel, ts[1..], r);
      assert forall k | 1 <= k < |ts| :: ts[k] == ts[1..][k - 1];
    }
  }

  /** With counts min(r - 1, supply) at entry, round r builds exactly the tables with supply at least r. */
  lemma {:induction false} BuiltBySupply(g: Graph, created: seq<nat>, r: nat, fuel: nat, t: nat)
    requires g.Valid() && |created| == g.Size() && t < g.Size() && r > 0
    requires forall x | 0 <= x < g.Size() && g.deps[x] == [] :: created[x] == Min(r - 1, g.toCreate[x])
    ensures BuiltIn(g, created, fuel, t) <==> Supply(g, fuel, t) >= r
    decreases fuel
  {
    if fuel != 0 && g.deps[t] != [] {
      forall k | 0 <= k < |g.deps[t]|
        ensures BuiltIn(g, created, fuel - 1, g.deps[t][k]) <==> Supply(g, fuel - 1, g.deps[t][k]) >= r
      {
        BuiltBySupply(g, created, r, fuel - 1, g.deps[t][k]);
      }
      MinSupplyAtLeast(g, fuel - 1, g.deps[t], r);
    }
  }

  /** Main result: the file count of every table after every number of rounds, on every graph. */
  lemma {:induction false} CountAfterRounds(g: Graph, r: nat, t: nat)
    requires g.Valid() && t < g.Size()
    ensures After(g, r)[t] == Min(r, Supply(g, g.Size(), t))
    decreases r
  {
    if r != 0 {
      forall x | 0 <= x < g.Size()
        ensures After(g, r - 1)[x] == Min(r - 1, Supply(g, g.Size(), x))
      {
        CountAfterRounds(g, r - 1, x);
      }
      assert forall x | 0 <= x < g.Size() && g.deps[x] == [] :: Supply(g, g.Size(), x) == g.toCreate[x];
      BuiltBySupply(g, After(g, r - 1), r, g.Size(), t);
    }
  }

  lemma {:induction false} CountsGrow(g: Graph, r: nat, r': nat, t: nat)
    requires g.Valid() && t < g.Size() && r <= r'
    ensures After(g, r)[t] <= After(g, r')[t]
  {
    CountAfterRounds(g, r, t);
    CountAfterRounds(g, r', t);
  }

  // ----------------------------------------------------------------- what the supply means

  ghost predicate Tables(g: Graph, p: seq<nat>) {
    forall i | 0 <= i < |p| :: p[i] < g.Size()
  }

  /** Table i - 1 of the list waits for table i. */
  ghost predicate Waits(g: Graph, p: seq<nat>, i: nat)
    requires Tables(g, p) && 1 <= i < |p|
  {
    p[i] in g.deps[p[i - 1]]
  }

  /** A chain of tables, each waiting for the next. */
  ghost predicate Chain(g: Graph, p: seq<nat>)
    requires g.Valid()
  {
    p != [] && Tables(g, p) && forall i | 1 <= i < |p| :: Waits(g, p, i)
  }

  /** A chain that ends where it starts. */
  ghost predicate Cycle(g: Graph, p: seq<nat>)
    requires g.Valid()
  {
    Chain(g, p) && |p| > 1 && p[|p| - 1] == p[0]
  }

  ghost predicate Acyclic(g: Graph)
    requires g.Valid()
  {
    forall p :: !Cycle(g, p)
  }

  /** t waits for x, at once or through other tables, or is x. */
  ghost predicate Reaches(g: Graph, t: nat, x: nat)
    requires g.Valid()
  {
    exists p :: Chain(g, p) && p[0] == t && p[|p| - 1] == x
  }

  /** t is on a cycle, or waits for a table that is. */
  ghost predicate BehindCycle(g: Graph, t: nat)
    requires g.Valid()
  {
    exists c :: Cycle(g, c) && Reaches(g, t, c[0])
  }

  /** Every table without dependencies that t waits for owes at least r files. */
  ghost predicate RootsOwe(g: Graph, t: nat, r: nat)
    requires g.Valid()
  {
    forall x | 0 <= x < g.Size() && g.deps[x] == [] && Reaches(g, t, x) :: g.toCreate[x] >= r
  }

  /** A chain in front of which one more table waits. */
  lemma {:induction false} ChainFront(g: Graph, t: nat, p: seq<nat>)
    requires g.Valid() && t < g.Size() && Chain(g, p) && p[0] in g.deps[t]
    ensures Chain(g, [t] + p) && ([t] + p)[|p|] == p[|p| - 1]
  {
    var q := [t] + p;
    forall i | 1 <= i < |q|
      ensures Waits(g, q, i)
    {
      assert i > 1 ==> Waits(g, p, i - 1);
      assert q[i] == p[i - 1];
    }
  }

  lemma {:induction false} PartOfChain(g: Graph, p: seq<nat>, i: nat, j: nat)
    requires g.Valid() && Chain(g, p) && i < j <= |p|
    ensures Chain(g, p[i..j]) && p[i..j][0] == p[i] && p[i..j][j - i - 1] == p[j - 1]
  {
    var c := p[i..j];
    forall k | 1 <= k < |c|
      ensures Waits(g, c, k)
    {
      assert Waits(g, p, i + k);
    }
  }

  /** A positive supply lasts along every chain, which is therefore no longer than the fuel. */
  lemma {:induction false} SupplyAlongChain(g: Graph, fuel: nat, p: seq<nat>, r: nat)
    requires g.Valid() && Chain(g, p) && r > 0 && Supply(g, fuel, p[0]) >= r
    ensures |p| <= fuel && Supply(g, fuel - (|p| - 1), p[|p| - 1]) >= r
    decreases |p|
  {
    if |p| > 1 {
      assert Waits(g, p, 1);
      MinSupplyAtLeast(g, fuel - 1, g.deps[p[0]], r);
      var k :| 0 <= k < |g.deps[p[0]]| && g.deps[p[0]][k] == p[1];
      assert Supply(g, fuel - 1, g.deps[p[0]][k]) >= r;
      PartOfChain(g, p, 1, |p|);
      SupplyAlongChain(g, fuel - 1, p[1..|p|], r);
    }
  }

  lemma {:induction false} NoSupplyOnCycle(g: Graph, fuel: nat, c: seq<nat>)
    requires g.Valid() && Cycle(g, c)
    ensures Supply(g, fuel, c[0]) == 0
    decreases fuel
  {
    if Supply(g, fuel, c[0]) > 0 {
      SupplyAlongChain(g, fuel, c, 1);
      NoSupplyOnCycle(g, fuel - (|c| - 1), c);
    }
  }

  /** A chain that meets a table twice passes through a cycle. */
  lemma {:induction false} RepeatIsCycle(g: Graph, p: seq<nat>, i: nat, j: nat)
    requires g.Valid() && Chain(g, p) && i < j < |p| && p[i] == p[j]
    ensures BehindCycle(g, p[0])
  {
    PartOfChain(g, p, i, j + 1);
    PartOfChain(g, p, 0, i + 1);
    var c, front := p[i..j + 1], p[0..i + 1];
    assert Cycle(g, c);
    assert front[0] == p[0] && front[|front| - 1] == c[0];
    assert Reaches(g, p[0], c[0]);
  }

  /** A chain longer than there are tables passes through a cycle. */
  lemma {:induction false} LongChainHasCycle(g: Graph, p: seq<nat>)
    requires g.Valid() && Chain(g, p) && |p| > g.Size()
    ensures BehindCycle(g, p[0])
  {
    if forall i, j | 0 <= i < j < |p| :: p[i] != p[j] {
      DistinctBound(p, g.Size());
    } else {
      var i, j :| 0 <= i < j < |p| && p[i] == p[j];
      RepeatIsCycle(g, p, i, j);
    }
  }

  ghost predicate ChainsWithin(g: Graph, t: nat, fuel: nat)
    requires g.Valid()
  {
    forall p | Chain(g, p) && p[0] == t :: |p| <= fuel
  }

  lemma {:induction false} DependencyInherits(g: Graph, fuel: nat, t: nat, d: nat, r: nat)
    requires g.Valid() && t < g.Size() && d in g.deps[t] && fuel > 0
    requires ChainsWithin(g, t, fuel) && RootsOwe(g, t, r)
    ensures ChainsWithin(g, d, fuel - 1) && RootsOwe(g, d, r)
  {
    forall p | Chain(g, p) && p[0] == d
      ensures |p| <= fuel - 1
    {
      ChainFront(g, t, p);
      assert ([t] + p)[0] == t;
    }
    forall x | 0 <= x < g.Size() && g.deps[x] == [] && Reaches(g, d, x)
      ensures g.toCreate[x] >= r
    {
      ReachesThrough(g, t, d, x);
    }
  }

  lemma {:induction false} ReachesThrough(g: Graph, t: nat, d: nat, x: nat)
    requires g.Valid() && t < g.Size() && d in g.deps[t] && Reaches(g, d, x)
    ensures Reaches(g, t, x)
  {
    var p :| Chain(g, p) && p[0] == d && p[|p| - 1] == x;
    ChainFront(g, t, p);
    var longer := [t] + p;
    assert longer[0] == t && longer[|longer| - 1] == x;
  }

  lemma {:induction false} SelfChain(g: Graph, t: nat)
    requires g.Valid() && t < g.Size()
    ensures Chain(g, [t]) && [t][0] == t && Reaches(g, t, t)
  {
    assert Chain(g, [t]) && [t][0] == t && [t][|[t]| - 1] == t;
  }

  lemma {:induction false} ChainsGiveSupply(g: Graph, fuel: nat, t: nat, r: nat)
    requires g.Valid() && t < g.Size() && ChainsWithin(g, t, fuel) && RootsOwe(g, t, r)
    ensures Supply(g, fuel, t) >= r
    decreases fuel
  {
    SelfChain(g, t);
    if g.deps[t] != [] {
      forall k | 0 <= k < |g.deps[t]|
        ensures Supply(g, fuel - 1, g.deps[t][k]) >= r
      {
        DependencyInherits(g, fuel, t, g.deps[t][k], r);
        ChainsGiveSupply(g, fuel - 1, g.deps[t][k], r);
      }
      MinSupplyAtLeast(g, fuel - 1, g.deps[t], r);
    }
  }

  /** A table's supply is the least file number among the tables without dependencies that it waits for,
      and 0 when it waits for a cycle: stated by what it reaches, for every positive r. */
  lemma {:induction false} SupplyIsReachableMinimum(g: Graph, t: nat, r: nat)
    requires g.Valid() && t < g.Size() && r > 0
    ensures Supply(g, g.Size(), t) >= r <==> !BehindCycle(g, t) && RootsOwe(g, t, r)
  {
    if Supply(g, g.Size(), t) >= r {
      SupplyReachesNoCycle(g, t, r);
    } else if !BehindCycle(g, t) && RootsOwe(g, t, r) {
      NoCycleNoLongChain(g, t);
      ChainsGiveSupply(g, g.Size(), t, r);
    }
  }

  lemma {:induction false} SupplyReachesNoCycle(g: Graph, t: nat, r: nat)
    requires g.Valid() && t < g.Size() && r > 0 && Supply(g, g.Size(), t) >= r
    ensures !BehindCycle(g, t) && RootsOwe(g, t, r)
  {
    if BehindCycle(g, t) {
      var c :| Cycle(g, c) && Reaches(g, t, c[0]);
      var fuel := SuppliedAlong(g, t, r, c[0]);
      NoSupplyOnCycle(g, fuel, c);
    }
    forall x | 0 <= x < g.Size() && g.deps[x] == [] && Reaches(g, t, x)
      ensures g.toCreate[x] >= r
    {
      var fuel := SuppliedAlong(g, t, r, x);
    }
  }

  /** What a table reaches has its supply. */
  lemma {:induction false} SuppliedAlong(g: Graph, t: nat, r: nat, x: nat) returns (fuel: nat)
    requires g.Valid() && t < g.Size() && r > 0 && Supply(g, g.Size(), t) >= r && Reaches(g, t, x)
    ensures fuel > 0 && x < g.Size() && Supply(g, fuel, x) >= r
  {
    var p :| Chain(g, p) && p[0] == t && p[|p| - 1] == x;
    SupplyAlongChain(g, g.Size(), p, r);
    fuel := g.Size() - (|p| - 1);
  }

  lemma {:induction false} NoCycleNoLongChain(g: Graph, t: nat)
    requires g.Valid() && !BehindCycle(g, t)
    ensures ChainsWithin(g, t, g.Size())
  {
    forall p | Chain(g, p) && p[0] == t
      ensures |p| <= g.Size()
    {
      if |p| > g.Size() {
        LongChainHasCycle(g, p);
      }
    }
  }

  // ----------------------------------------------------------------- termination of the outer loop

  function Max(a: nat, b: nat): nat {
    if a < b then b else a
  }

  /** A finished flag goes up the first time a file is completed with the count at or past the target. */
  ghost predicate Finished(g: Graph, created: seq<nat>, t: nat)
    requires |created| == |g.toCreate| && t < |created|
  {
    created[t] >= Max(1, g.toCreate[t])
  }

  ghost predicate AllFinished(g: Graph, created: seq<nat>)
    requires |created| == |g.toCreate|
  {
    forall t | 0 <= t < |created| :: Finished(g, created, t)
  }

  /** The check a caller can make before starting: every table can be built in as many rounds as it owes
      files, and at least once. */
  ghost predicate Producible(g: Graph)
    requires g.Valid()
  {
    forall t | 0 <= t < g.Size() :: Supply(g, g.Size(), t) >= Max(1, g.toCreate[t])
  }

  /** The number of rounds the production loop takes: the largest file number. */
  function Rounds(g: Graph): (r: nat)
    ensures forall t | 0 <= t < |g.toCreate| :: g.toCreate[t] <= r && (|g.toCreate| > 0 ==> r >= 1)
    ensures r > 0 ==> exists t | 0 <= t < |g.toCreate| :: Max(1, g.toCreate[t]) == r
    ensures |g.toCreate| == 0 ==> r == 0
  {
    LargestIsUpper(g.toCreate);
    Largest(g.toCreate)
  }

  function Largest(s: seq<nat>): nat {
    if s == [] then 0 else Max(Max(1, s[|s| - 1]), Largest(s[..|s| - 1]))
  }

  lemma {:induction false} LargestIsUpper(s: seq<nat>)
    ensures forall t | 0 <= t < |s| :: Max(1, s[t]) <= Largest(s)
    ensures s != [] ==> exists t | 0 <= t < |s| :: Max(1, s[t]) == Largest(s)
  {
    if s != [] {
      var init := s[..|s| - 1];
      LargestIsUpper(init);
      if Largest(init) <= Max(1, s[|s| - 1]) {
        assert Max(1, s[|s| - 1]) == Largest(s);
      } else {
        var t :| 0 <= t < |init| && Max(1, init[t]) == Largest(init);
        assert Max(1, s[t]) == Largest(s);
      }
    }
  }

  /** The outer loop's exit test holds after r rounds exactly when the graph is producible and r is at
      least the largest file number: so it exits iff the graph is producible, after Rounds(g) rounds. */
  lemma {:induction false} ExitTest(g: Graph, r: nat)
    requires g.Valid()
    ensures AllFinished(g, After(g, r)) <==> Producible(g) && r >= Rounds(g)
  {
    forall t | 0 <= t < g.Size()
      ensures Finished(g, After(g, r), t) <==>
              r >= Max(1, g.toCreate[t]) && Supply(g, g.Size(), t) >= Max(1, g.toCreate[t])
    {
      CountAfterRounds(g, r, t);
    }
    if AllFinished(g, After(g, r)) && Rounds(g) > 0 {
      var t :| 0 <= t < |g.toCreate| && Max(1, g.toCreate[t]) == Rounds(g);
      assert Finished(g, After(g, r), t);
    }
    if Producible(g) && r >= Rounds(g) {
      LargestIsUpper(g.toCreate);
    }
  }

  /** The graph condition behind the exit test: no table waits for a cycle, and every table without
      dependencies owes at least as many files as each table that waits for it, and at least one. */
  lemma {:induction false} ProducibleIffAcyclicAndSupplied(g: Graph)
    requires g.Valid()
    ensures Producible(g) <==>
            Acyclic(g) && forall t | 0 <= t < g.Size() :: RootsOwe(g, t, Max(1, g.toCreate[t]))
  {
    forall t | 0 <= t < g.Size()
      ensures Supply(g, g.Size(), t) >= Max(1, g.toCreate[t]) <==>
              !BehindCycle(g, t) && RootsOwe(g, t, Max(1, g.toCreate[t]))
    {
      SupplyIsReachableMinimum(g, t, Max(1, g.toCreate[t]));
    }
    forall c | Cycle(g, c)
      ensures BehindCycle(g, c[0])
    {
      assert Chain(g, [c[0]]) && [c[0]][|[c[0]]| - 1] == c[0];
      assert Reaches(g, c[0], c[0]);
    }
  }

  // ----------------------------------------------------------------- the intended configurations

  ghost predicate EqualAlongEdges(g: Graph)
    requires g.Valid()
  {
    forall t, k | 0 <= t < g.Size() && 0 <= k < |g.deps[t]| :: g.toCreate[g.deps[t][k]] == g.toCreate[t]
  }

  lemma {:induction false} EqualSupply(g: Graph, fuel: nat, t: nat)
    requires g.Valid() && EqualAlongEdges(g) && t < g.Size() && Supply(g, fuel, t) >= 1
    ensures Supply(g, fuel, t) == g.toCreate[t]
    decreases fuel
  {
    if g.deps[t] != [] {
      MinSupplyAtLeast(g, fuel - 1, g.deps[t], 1);
      forall k | 0 <= k < |g.deps[t]|
        ensures Supply(g, fuel - 1, g.deps[t][k]) == g.toCreate[t]
      {
        EqualSupply(g, fuel - 1, g.deps[t][k]);
      }
      MinSupplyAtLeast(g, fuel - 1, g.deps[t], g.toCreate[t]);
      MinSupplyAtLeast(g, fuel - 1, g.deps[t], g.toCreate[t] + 1);
    }
  }

  /** Acyclic graphs with equal file numbers along edges and at least one file each are producible, and
      the loop's last round leaves every table with exactly its file number. */
  lemma {:induction false} IntendedConfigurations(g: Graph)
    requires g.Valid() && Acyclic(g) && EqualAlongEdges(g)
    requires forall t | 0 <= t < g.Size() :: g.toCreate[t] >= 1
    ensures Producible(g)
    ensures After(g, Rounds(g)) == g.toCreate
  {
    forall t | 0 <= t < g.Size()
      ensures Supply(g, g.Size(), t) == g.toCreate[t] && After(g, Rounds(g))[t] == g.toCreate[t]
    {
      SupplyIsReachableMinimum(g, t, 1);
      EqualSupply(g, g.Size(), t);
      CountAfterRounds(g, Rounds(g), t);
    }
  }

  /** Exactly which producible graphs end with the exact file numbers: those in which every table that owes
      fewer files than the loop runs rounds waits for one without dependencies that owes no more files. */
  lemma {:induction false} ExactFileNumbers(g: Graph)
    requires g.Valid() && Producible(g)
    ensures After(g, Rounds(g)) == g.toCreate <==>
            forall t | 0 <= t < g.Size() :: g.toCreate[t] == Rounds(g) || !RootsOwe(g, t, g.toCreate[t] + 1)
  {
    LargestIsUpper(g.toCreate);
    forall t | 0 <= t < g.Size()
      ensures After(g, Rounds(g))[t] == g.toCreate[t] <==>
              g.toCreate[t] == Rounds(g) || !RootsOwe(g, t, g.toCreate[t] + 1)
    {
      ExactFileNumber(g, t);
    }
  }

  lemma {:induction false} ExactFileNumber(g: Graph, t: nat)
    requires g.Valid() && Producible(g) && t < g.Size() && g.toCreate[t] <= Rounds(g)
    ensures After(g, Rounds(g))[t] == g.toCreate[t] <==>
            g.toCreate[t] == Rounds(g) || !RootsOwe(g, t, g.toCreate[t] + 1)
  {
    CountAfterRounds(g, Rounds(g), t);
    SupplyIsReachableMinimum(g, t, Max(1, g.toCreate[t]));
    SupplyIsReachableMinimum(g, t, g.toCreate[t] + 1);
  }

  /** A producible graph that does end with a file too many: a table owing one file behind one owing two. */
  lemma {:induction false} OneFileTooMany()
    ensures var g := Graph([[], [0]], [[1], []], [2, 1]);
            g.Valid() && Producible(g) && After(g, Rounds(g)) == [2, 2] != g.toCreate
  {
    var g := Graph([[], [0]], [[1], []], [2, 1]);
    assert g.Valid();
    SupplyOfTwo(g);
    LargestOfTwo(2, 1);
    CountAfterRounds(g, 2, 0);
    CountAfterRounds(g, 2, 1);
  }

  lemma {:induction false} SupplyOfTwo(g: Graph)
    requires g.Valid() && g.deps == [[], [0]] && |g.toCreate| == 2
    ensures Supply(g, 2, 0) == Supply(g, 2, 1) == g.toCreate[0]
  {
    assert Supply(g, 2, 1) == MinSupply(g, 1, [0]) == Supply(g, 1, 0);
  }

  lemma {:induction false} LargestOfTwo(a: nat, b: nat)
    ensures Largest([a, b]) == Max(Max(1, b), Max(1, a))
  {
    assert [a, b][..1] == [a] && [a][..0] == [];
    assert Largest([a]) == Max(Max(1, a), Largest([]));
  }

  /** Unequal file numbers do break the loop: a table owing two files behind a table owing one. */
  lemma {:induction false} UnequalEdgeNeverFinishes(r: nat)
    ensures var g := Graph([[], [0]], [[1], []], [1, 2]);
            g.Valid() && !Producible(g) && !AllFinished(g, After(g, r))
  {
    var g := Graph([[], [0]], [[1], []], [1, 2]);
    assert g.Valid();
    assert Supply(g, 2, 1) == MinSupply(g, 1, [0]) == Supply(g, 1, 0) == 1;
    ExitTest(g, r);
  }
}
