/**
 Where the dependency graph comes from: attributes and function parameters that name another table's
 column each record an edge in both tables' lists. Only parameters compare the tables' file numbers.
 */
module Registration {
  import opened Options
  import opened TableGraph

  /** A reference from a table to a column of another; None when the named table or column is missing. */
  datatype Reference =
    | ByAttribute(table: nat, target: Option<nat>)
    | ByParameter(table: nat, target: Option<nat>)

  function Edgeless(toCreate: seq<nat>): (g: Graph)
    ensures g.Valid()
  {
    Graph(seq(|toCreate|, _ => []), seq(|toCreate|, _ => []), toCreate)
  }

  /** Table t waits for table d. */
  function WithEdge(g: Graph, t: nat, d: nat): Graph
    requires t < |g.deps| && d < |g.dependents|
  {
    Graph(g.deps[t := g.deps[t] + [d]], g.dependents[d := g.dependents[d] + [t]], g.toCreate)
  }

  predicate InRange(size: nat, r: Reference) {
    r.table < size && (r.target.Some? ==> r.target.value < size)
  }

  /** A parameter may not name a table with another file number; its own table is no dependency. */
  function Registered(g: Graph, r: Reference): Option<Graph>
    requires g.Valid() && InRange(g.Size(), r)
  {
    match r
    case ByAttribute(t, Some(d)) => Some(WithEdge(g, t, d))
    case ByParameter(t, Some(d)) =>
      if t == d then Some(g) else if g.toCreate[t] != g.toCreate[d] then None else Some(WithEdge(g, t, d))
    case _ => None
  }

  class TableLists {
    const toCreate: seq<nat>
    var depTables: seq<seq<nat>>
    var beDependedTables: seq<seq<nat>>

    ghost function Abs(): Graph
      reads this
    {
      Graph(depTables, beDependedTables, toCreate)
    }

    constructor (toCreate: seq<nat>)
      ensures Abs() == Edgeless(toCreate)
    {
      this.toCreate := toCreate;
      depTables, beDependedTables := seq(|toCreate|, _ => []), seq(|toCreate|, _ => []);
    }

    method AddDependency(t: nat, d: nat)
      requires Abs().Valid() && t < |toCreate| && d < |toCreate|
      modifies this
      ensures Abs() == WithEdge(old(Abs()), t, d)
    {
      depTables := depTables[t := depTables[t] + [d]];
      beDependedTables := beDependedTables[d := beDependedTables[d] + [t]];
    }

    method Process(r: Reference) returns (ok: bool)
      requires Abs().Valid() && InRange(|toCreate|, r)
      modifies this
      ensures ok <==> Registered(old(Abs()), r).Some?
      ensures Abs() == if ok then Registered(old(Abs()), r).value else old(Abs())
    {
      if r.target.None? {
        return false;
      }
      var d := r.target.value;
      if r.ByAttribute? {
        AddDependency(r.table, d);
      } else if d != r.table {
        if toCreate[r.table] != toCreate[d] {
          return false;
        }
        AddDependency(r.table, d);
      }
      ok := true;
    }
  }

  // ----------------------------------------------------------------- all references

  /** The graph after all references, or None once one is refused: then processing stops. */
  function RegisterAll(toCreate: seq<nat>, refs: seq<Reference>): (g: Option<Graph>)
    requires forall r | r in refs :: InRange(|toCreate|, r)
    ensures g.Some? ==> g.value.Valid() && g.value.toCreate == toCreate
    decreases |refs|
  {
    if refs == [] then Some(Edgeless(toCreate))
    else
      var before := refs[..|refs| - 1];
      match RegisterAll(toCreate, before)
      case None => None
      case Some(g) =>
        RegisteredValid(g, refs[|refs| - 1]);
        Registered(g, refs[|refs| - 1])
  }

  lemma {:induction false} WithEdgeValid(g: Graph, t: nat, d: nat)
    requires g.Valid() && t < g.Size() && d < g.Size()
    ensures WithEdge(g, t, d).Valid()
  {
    var g' := WithEdge(g, t, d);
    forall x, y | 0 <= x < g.Size() && 0 <= y < g.Size()
      ensures x in g'.deps[y] <==> y in g'.dependents[x]
    {
      assert x in g.deps[y] <==> y in g.dependents[x];
    }
  }

  lemma {:induction false} RegisteredValid(g: Graph, r: Reference)
    requires g.Valid() && InRange(g.Size(), r)
    ensures Registered(g, r).Some? ==>
              Registered(g, r).value.Valid() && Registered(g, r).value.toCreate == g.toCreate
  {
    if r.target.Some? {
      WithEdgeValid(g, r.table, r.target.value);
    }
  }

  /** A reference between tables whose file numbers agree. */
  predicate Agrees(toCreate: seq<nat>, r: Reference) {
    r.target.Some? && r.table < |toCreate| && r.target.value < |toCreate|
    ==> toCreate[r.table] == toCreate[r.target.value]
  }

  lemma {:induction false} EdgeAgrees(g: Graph, t: nat, d: nat)
    requires g.Valid() && t < g.Size() && d < g.Size() && WithEdge(g, t, d).Valid()
    ensures EqualAlongEdges(WithEdge(g, t, d)) <==> EqualAlongEdges(g) && g.toCreate[t] == g.toCreate[d]
  {
    var g' := WithEdge(g, t, d);
    assert g'.deps[t][|g.deps[t]|] == d;
    if EqualAlongEdges(g') {
      forall u, k | 0 <= u < g.Size() && 0 <= k < |g.deps[u]|
        ensures g.toCreate[g.deps[u][k]] == g.toCreate[u]
      {
        assert g'.deps[u][k] == g.deps[u][k];
      }
    }
  }

  /** Registering keeps file numbers equal along every edge exactly when the reference itself agrees. */
  lemma {:induction false} RegisteredAgrees(g: Graph, r: Reference)
    requires g.Valid() && InRange(g.Size(), r) && Registered(g, r).Some?
    ensures Registered(g, r).value.Valid()
    ensures EqualAlongEdges(Registered(g, r).value) <==> EqualAlongEdges(g) && Agrees(g.toCreate, r)
  {
    RegisteredValid(g, r);
    var t, d := r.table, r.target.value;
    if r.ByAttribute? || t != d {
      EdgeAgrees(g, t, d);
    }
  }

  /** Main result: a configuration that is accepted has equal file numbers along every edge, as the
      scheduler needs, if and only if every attribute reference agrees: parameters are checked already. */
  lemma {:induction false} AcceptedGraphsAgree(toCreate: seq<nat>, refs: seq<Reference>)
    requires forall r | r in refs :: InRange(|toCreate|, r)
    requires RegisterAll(toCreate, refs).Some?
    ensures EqualAlongEdges(RegisterAll(toCreate, refs).value) <==>
            forall r | r in refs && r.ByAttribute? :: Agrees(toCreate, r)
    decreases |refs|
  {
    if refs != [] {
      var before, last := refs[..|refs| - 1], refs[|refs| - 1];
      assert refs == before + [last];
      AcceptedGraphsAgree(toCreate, before);
      var g := RegisterAll(toCreate, before).value;
      RegisteredAgrees(g, last);
      assert last.ByParameter? ==> Agrees(toCreate, last);
    }
  }

  /** A configuration is accepted if and only if every reference names an existing table and column, and every
      parameter a column of its own table or of one with the same file number. */
  lemma {:induction false} AcceptedIff(toCreate: seq<nat>, refs: seq<Reference>)
    requires forall r | r in refs :: InRange(|toCreate|, r)
    ensures RegisterAll(toCreate, refs).Some? <==>
            forall r | r in refs ::
              r.target.Some?
              && (r.ByParameter? ==> r.table == r.target.value || toCreate[r.table] == toCreate[r.target.value])
    decreases |refs|
  {
    if refs != [] {
      var before, last := refs[..|refs| - 1], refs[|refs| - 1];
      assert refs == before + [last];
      AcceptedIff(toCreate, before);
    }
  }

  /** The edge from t to d is there after a reference if it was before, or is what the reference says. */
  lemma {:induction false} RegisteredEdge(g: Graph, r: Reference, t: nat, d: nat)
    requires g.Valid() && InRange(g.Size(), r) && Registered(g, r).Some? && t < g.Size()
    requires |Registered(g, r).value.deps| == g.Size()
    ensures d in Registered(g, r).value.deps[t] <==>
            d in g.deps[t] || r == ByAttribute(t, Some(d)) || (t != d && r == ByParameter(t, Some(d)))
  {
  }

  /** Every recorded edge comes from a reference, and every reference to another table is recorded. */
  lemma {:induction false} EdgesAreReferences(toCreate: seq<nat>, refs: seq<Reference>, t: nat, d: nat)
    requires forall r | r in refs :: InRange(|toCreate|, r)
    requires RegisterAll(toCreate, refs).Some? && t < |toCreate| && d < |toCreate|
    ensures d in RegisterAll(toCreate, refs).value.deps[t] <==>
            ByAttribute(t, Some(d)) in refs || (t != d && ByParameter(t, Some(d)) in refs)
    decreases |refs|
  {
    if refs != [] {
      var before, last := refs[..|refs| - 1], refs[|refs| - 1];
      assert refs == before + [last];
      EdgesAreReferences(toCreate, before, t, d);
      RegisteredEdge(RegisterAll(toCreate, before).value, last, t, d);
    }
  }
}
