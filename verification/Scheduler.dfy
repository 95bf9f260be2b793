/**
 The table scheduler: production rounds over an interface's tables, in file mode.

 Table pointers are positions in the interface's table map. Whether producing a given row of a given
 file succeeds is an arbitrary oracle, so the failure paths are part of the model.
 */
module Scheduler {
  import opened TableGraph

  const MAX_TABLE_NUM: nat := 255

  datatype TableStatus = NotReady | Ready | Done

  class Table {
    /** The position in the interface's table map. */
    const position: nat
    const tableId: nat
    const toCreate: nat
    const rowNum: nat
    const entrySize: nat
    const depTables: seq<nat>
    const beDependedTables: seq<nat>

    var status: TableStatus
    var created: nat
    var curFilledCount: nat
    var nextFilledPosition: nat

    constructor (position: nat, tableId: nat, toCreate: nat, rowNum: nat, entrySize: nat,
                 depTables: seq<nat>, beDependedTables: seq<nat>)
      ensures this.position == position && this.tableId == tableId && this.toCreate == toCreate
      ensures this.rowNum == rowNum && this.entrySize == entrySize
      ensures this.depTables == depTables && this.beDependedTables == beDependedTables
      ensures status == NotReady && created == 0 && curFilledCount == 0 && nextFilledPosition == 0
    {
      this.position, this.tableId, this.toCreate := position, tableId, toCreate;
      this.rowNum, this.entrySize := rowNum, entrySize;
      this.depTables, this.beDependedTables := depTables, beDependedTables;
      status, created, curFilledCount, nextFilledPosition := NotReady, 0, 0, 0;
    }

    /** The fill position is the start of the next row. */
    ghost predicate AtRowStart()
      reads this
    {
      nextFilledPosition == curFilledCount * entrySize
    }

    /** A table of a configured interface. */
    ghost predicate In(parent: Interface) {
      parent.Configured() && position < |parent.tables| && parent.tables[position] == this
    }

    method CreateData()
      requires AtRowStart()
      modifies this`curFilledCount, this`nextFilledPosition
      ensures AtRowStart()
      ensures curFilledCount == old(curFilledCount) + 1
    {
      curFilledCount := curFilledCount + 1;
      nextFilledPosition := nextFilledPosition + entrySize;
    }

    method CheckStatus(parent: Interface) returns (st: TableStatus)
      requires In(parent)
      modifies this`status
      ensures status == st ==
              if forall d | d in depTables :: old(parent.tables[d].status) == Done
              then (if old(status) == NotReady then Ready else old(status))
              else NotReady
    {
      for k := 0 to |depTables|
        invariant status == old(status)
        invariant forall j | 0 <= j < k :: old(parent.tables[depTables[j]].status) == Done
      {
        if parent.tables[depTables[k]].status != Done {
          assert depTables[k] in depTables;
          status := NotReady;
          return NotReady;
        }
      }
      if status == NotReady {
        status := Ready;
      }
      st := status;
    }

    /** Produces one file. Every other table it may draw rows from is already full. */
    method CreateTableData(parent: Interface) returns (ok: bool)
      requires In(parent)
      requires curFilledCount == 0 && AtRowStart()
      requires forall d | d in depTables && d != position ::
                 parent.tables[d].curFilledCount == parent.tables[d].rowNum
      modifies parent`fullTable, this`created, this`curFilledCount, this`nextFilledPosition
      ensures ok <==> parent.FileSucceeds(position, old(created))
      ensures ok ==> curFilledCount == rowNum && AtRowStart() && created == old(created) + 1
      ensures ok ==> parent.fullTable == old(parent.fullTable) + (if created >= toCreate then {tableId} else {})
    {
      for r := 0 to rowNum
        invariant curFilledCount == r && AtRowStart()
        invariant parent.fullTable == old(parent.fullTable) && created == old(created)
        invariant forall q | 0 <= q < r :: parent.rowSucceeds(position, created, q)
      {
        if !parent.rowSucceeds(position, created, r) {
          return false;
        }
        CreateData();
      }
      created := created + 1;
      if created >= toCreate {
        parent.fullTable := parent.fullTable + {tableId};
      }
      ok := true;
    }

    /** The round this table takes part in has not passed it by: without dependencies it owes files. */
    ghost predicate Due(parent: Interface, base: seq<nat>)
      requires In(parent) && |base| == |parent.tables|
      reads parent
    {
      parent.graph.deps[position] == [] ==> position in parent.log || base[position] < toCreate
    }

    /** Produces this table's file of the round and enters it in the build order. */
    method Build(parent: Interface, ghost base: seq<nat>) returns (ok: bool)
      requires In(parent) && parent.RoundStateBut(base, position) && Due(parent, base)
      requires position in ReadyUnbuilt(parent.graph, parent.log)
      requires created == base[position] && curFilledCount == 0 && AtRowStart()
      requires tableId in parent.fullTable <==> created >= Max(1, toCreate)
      modifies parent`fullTable, parent`log, this
      ensures !ok ==> parent.RowFails(base)
      ensures ok ==> parent.RoundState(base) && parent.log == old(parent.log) + [position]
    {
      ReadyIsBuilt(parent.graph, base, parent.log, position);
      assert forall d | d in depTables && d != position :: parent.InRound(base, d);
      ok := CreateTableData(parent);
      if ok {
        status := Done;
        parent.log := parent.log + [position];
        forall i | 0 <= i < |parent.tables| && i != position
          ensures parent.InRound(base, i)
        {
          assert old(parent.InRound(base, i));
          assert parent.tables[i] != this;
        }
      }
    }

    /** The first half of a notification: builds this table if all it waits for is done. */
    method BuildIfReady(parent: Interface, ghost base: seq<nat>) returns (ok: bool)
      requires In(parent) && parent.RoundState(base) && Due(parent, base)
      modifies parent`fullTable, parent`log, this
      ensures !ok ==> parent.RowFails(base)
      ensures ok ==> parent.RoundState(base)
      ensures ok ==>
                var ready := position in ReadyUnbuilt(parent.graph, old(parent.log));
                parent.log == old(parent.log) + if ready then [position] else []
    {
      assert parent.InRound(base, position);
      assert forall d | d in depTables :: parent.InRound(base, d);
      var st := CheckStatus(parent);
      forall i | 0 <= i < |parent.tables| && i != position
        ensures parent.InRound(base, i)
      {
        assert old(parent.InRound(base, i));
        assert parent.tables[i] != this;
      }
      ok := true;
      if st == Ready {
        ok := Build(parent, base);
      } else {
        assert parent.InRound(base, position);
      }
    }

    /**
     Builds this table if it is ready, then tells its dependents. The recursion climbs the build order
     (`place` is this table's position in the log, or the one it is about to take), which is why it
     terminates on cyclic graphs too. It leaves this table unready or built, and nothing newly ready.
     */
    method NotifyAllDependedTable(parent: Interface, ghost base: seq<nat>, ghost place: nat) returns (ok: bool)
      requires In(parent) && parent.RoundState(base) && Due(parent, base)
      requires PlaceOf(parent.log, position, place) && place <= |parent.tables|
      modifies parent`fullTable, parent`log, parent.Objects()
      ensures !ok ==> parent.RowFails(base)
      ensures ok ==> parent.RoundState(base)
      ensures ok ==> Advances(parent.graph, old(parent.log), parent.log, position, {})
      decreases |parent.tables| - place
    {
      ghost var log0 := parent.log;
      if position in ReadyUnbuilt(parent.graph, log0) {
        BuildStep(parent.graph, log0, position);
      }
      ok := BuildIfReady(parent, base);
      if !ok {
        return;
      }
      assert parent.InRound(base, position);
      if status == Done {
        for k := 0 to |beDependedTables|
          invariant parent.RoundState(base)
          invariant place < |parent.log| && parent.log[place] == position
          invariant Advances(parent.graph, log0, parent.log, position, Elements(beDependedTables[k..]))
        {
          ghost var log1 := parent.log;
          ghost var next := PlaceAbove(parent.graph, log1, position, place, beDependedTables[k]);
          assert position in parent.graph.deps[beDependedTables[k]];
          ok := parent.tables[beDependedTables[k]].NotifyAllDependedTable(parent, base, next);
          if !ok {
            return;
          }
          AdvanceStep(parent.graph, log0, log1, parent.log, position, beDependedTables[k..]);
          assert beDependedTables[k..][1..] == beDependedTables[k + 1..];
        }
      }
    }
  }

  class Interface {
    /** The table map, in key order. */
    const tables: seq<Table>
    /** The edges recorded in the tables' two dependency lists. */
    ghost const graph: Graph
    /** rowSucceeds(t, k, r): row r of table t's file number k can be produced. */
    const rowSucceeds: (nat, nat, nat) -> bool
    /** The table ids whose finished flag is up. */
    var fullTable: set<nat>
    /** The tables built since the round began, in order. */
    ghost var log: seq<nat>
    /** The production rounds completed. */
    ghost var rounds: nat

    ghost predicate Configured() {
      && graph.Valid() && graph.Size() == |tables|
      && (forall i | 0 <= i < |tables| ::
            tables[i].position == i && tables[i].toCreate == graph.toCreate[i]
            && tables[i].depTables == graph.deps[i] && tables[i].beDependedTables == graph.dependents[i])
      && (forall i | 0 <= i < |tables| :: tables[i].tableId < MAX_TABLE_NUM)
      && (forall i, j | 0 <= i < j < |tables| :: tables[i].tableId != tables[j].tableId)
    }

    ghost function Objects(): set<object> {
      set t | t in tables
    }

    /** Every row of table t's file number k can be produced. */
    ghost predicate FileSucceeds(t: nat, k: nat)
      requires t < |tables|
    {
      forall r | 0 <= r < tables[t].rowNum :: rowSucceeds(t, k, r)
    }

    /** A row that a round entered with `base` files per table asks for fails. */
    ghost predicate RowFails(base: seq<nat>)
      requires Configured() && |base| == |tables|
    {
      exists t | 0 <= t < |tables| :: BuiltIn(graph, base, graph.Size(), t) && !FileSucceeds(t, base[t])
    }

    ghost function Created(): (c: seq<nat>)
      reads Objects()
      ensures |c| == |tables|
      ensures forall i | 0 <= i < |tables| :: c[i] == tables[i].created
    {
      seq(|tables|, i requires 0 <= i < |tables| reads Objects() => tables[i].created)
    }

    /** Where table i stands in a round entered with `base` files per table. */
    ghost predicate InRound(base: seq<nat>, i: nat)
      requires i < |tables| == |base|
      reads this, Objects()
    {
      var t := tables[i];
      && t.created == base[i] + (if i in log then 1 else 0)
      && t.status == (if i in log then Done else NotReady)
      && t.curFilledCount == (if i in log then t.rowNum else 0)
      && t.AtRowStart()
      && (t.tableId in fullTable <==> t.created >= Max(1, t.toCreate))
      && (i in log ==> FileSucceeds(i, base[i]))
    }

    /** The invariant with table x's own state left open. */
    ghost predicate RoundStateBut(base: seq<nat>, x: nat)
      reads this, Objects()
    {
      && Configured() && |base| == |tables|
      && Topological(graph, log) && RootsOwed(graph, base, log)
      && forall i | 0 <= i < |tables| && i != x :: InRound(base, i)
    }

    /** The invariant of every state inside a round. */
    ghost predicate RoundState(base: seq<nat>)
      reads this, Objects()
    {
      && Configured() && |base| == |tables|
      && Topological(graph, log) && RootsOwed(graph, base, log)
      && forall i | 0 <= i < |tables| :: InRound(base, i)
    }

    /**
     Safety, in every state of every round: a done table has all its dependencies done and full, and a
     status check would leave it done.
     */
    lemma {:induction false} DoneIsFinal(base: seq<nat>, t: nat)
      requires RoundState(base) && t < |tables| && tables[t].status == Done
      ensures forall d | d in tables[t].depTables ::
                tables[d].status == Done && tables[d].curFilledCount == tables[d].rowNum
    {
      assert InRound(base, t);
      var i :| 0 <= i < |log| && log[i] == t;
      forall d | d in tables[t].depTables
        ensures tables[d].status == Done && tables[d].curFilledCount == tables[d].rowNum
      {
        assert d in log[..i];
        assert InRound(base, d);
      }
    }

    /** The state between two rounds. */
    ghost predicate Idle()
      reads this, Objects()
    {
      log == [] && RoundState(Created())
    }

    constructor (tables: seq<Table>, ghost graph: Graph, rowSucceeds: (nat, nat, nat) -> bool)
      requires graph.Valid() && graph.Size() == |tables|
      requires forall i | 0 <= i < |tables| ::
                 tables[i].position == i && tables[i].toCreate == graph.toCreate[i]
                 && tables[i].depTables == graph.deps[i] && tables[i].beDependedTables == graph.dependents[i]
      requires forall i | 0 <= i < |tables| :: tables[i].tableId < MAX_TABLE_NUM
      requires forall i, j | 0 <= i < j < |tables| :: tables[i].tableId != tables[j].tableId
      requires forall i | 0 <= i < |tables| :: tables[i].status == NotReady && tables[i].created == 0
                 && tables[i].curFilledCount == 0 && tables[i].nextFilledPosition == 0
      ensures this.tables == tables && this.graph == graph && this.rowSucceeds == rowSucceeds
      ensures Idle() && rounds == 0 && Created() == After(graph, 0)
    {
      this.tables, this.graph, this.rowSucceeds := tables, graph, rowSucceeds;
      fullTable, log, rounds := {}, [], 0;
    }

    method CheckAllTheTableFull() returns (full: bool)
      requires Idle()
      ensures Idle() && Created() == old(Created())
      ensures full <==> AllFinished(graph, Created())
    {
      for i := 0 to |tables|
        invariant forall j | 0 <= j < i :: Finished(graph, Created(), j)
      {
        assert InRound(Created(), i);
        if tables[i].tableId !in fullTable {
          assert !Finished(graph, Created(), i);
          return false;
        }
      }
      full := true;
    }

    /** The walk over the map: notifies every table that still owes files. */
    method WalkTables(ghost base: seq<nat>) returns (ok: bool)
      requires log == [] && RoundState(base)
      modifies this`fullTable, this`log, Objects()
      ensures !ok ==> RowFails(base)
      ensures ok ==> RoundState(base) && RoundLog(graph, base, log)
    {
      WalkStart(graph, base);
      for i := 0 to |tables|
        invariant RoundState(base) && Walked(graph, base, log, i)
      {
        assert InRound(base, i);
        if tables[i].created < tables[i].toCreate {
          DistinctBound(log, |tables|);
          ghost var before, place := log, |log|;
          if i in log {
            place :| 0 <= place < |log| && log[place] == i;
          }
          ok := tables[i].NotifyAllDependedTable(this, base, place);
          if !ok {
            return;
          }
          WalkStep(graph, base, before, log, i);
        } else {
          WalkSkip(graph, base, log, i);
        }
      }
      ok := true;
    }

    /** Clears every table's status and row position for the next round. */
    method ResetTables()
      requires Configured()
      modifies Objects()
      ensures Created() == old(Created())
      ensures forall t | 0 <= t < |tables| :: tables[t].status == NotReady
                && tables[t].curFilledCount == 0 && tables[t].nextFilledPosition == 0
    {
      for i := 0 to |tables|
        invariant forall t | 0 <= t < |tables| :: tables[t].created == old(tables[t].created)
        invariant forall t | 0 <= t < i :: tables[t].status == NotReady
                    && tables[t].curFilledCount == 0 && tables[t].nextFilledPosition == 0
      {
        tables[i].status := NotReady;
        tables[i].curFilledCount := 0;
        tables[i].nextFilledPosition := 0;
      }
    }

    /** A finished walk has built exactly the round's tables, and all their rows have succeeded. */
    lemma {:induction false} WalkedRound(base: seq<nat>)
      requires RoundState(base) && RoundLog(graph, base, log)
      ensures Created() == Round(graph, base) && !RowFails(base)
      ensures forall t | 0 <= t < |tables| ::
                tables[t].tableId in fullTable <==> tables[t].created >= Max(1, tables[t].toCreate)
    {
      forall t | 0 <= t < |tables|
        ensures tables[t].created == Round(graph, base)[t]
        ensures tables[t].tableId in fullTable <==> tables[t].created >= Max(1, tables[t].toCreate)
        ensures BuiltIn(graph, base, graph.Size(), t) ==> FileSucceeds(t, base[t])
      {
        RoundLogIsBuilt(graph, base, log, t);
        assert InRound(base, t);
      }
    }

    /** One pass of the outer loop: it succeeds exactly when every row it asks for does. */
    method ProduceRound() returns (ok: bool)
      requires Idle()
      modifies this`fullTable, this`log, this`rounds, Objects()
      ensures ok <==> !RowFails(old(Created()))
      ensures ok ==> Idle() && rounds == old(rounds) + 1
      ensures ok ==> Created() == Round(graph, old(Created()))
    {
      ghost var base := Created();
      ok := WalkTables(base);
      if !ok {
        return;
      }
      WalkedRound(base);
      ResetTables();
      log := [];
      rounds := rounds + 1;
    }

    /** All rows of the files of the first r rounds can be produced. */
    ghost predicate RoundsSucceed(r: nat)
      requires Configured()
    {
      forall t, k | 0 <= t < |tables| && 0 <= k < After(graph, r)[t] :: FileSucceeds(t, k)
    }

    lemma {:induction false} RoundsSucceedStep(r: nat)
      requires Configured()
      ensures RoundsSucceed(r + 1) <==> RoundsSucceed(r) && !RowFails(After(graph, r))
    {
      var before, after := After(graph, r), After(graph, r + 1);
      forall t | 0 <= t < |tables|
        ensures after[t] == before[t] + if BuiltIn(graph, before, graph.Size(), t) then 1 else 0
      {
      }
    }

    lemma {:induction false} LaterRoundsSucceed(r: nat, r': nat)
      requires Configured() && r <= r' && RoundsSucceed(r')
      ensures RoundsSucceed(r)
    {
      forall t | 0 <= t < |tables|
        ensures After(graph, r)[t] <= After(graph, r')[t]
      {
        CountsGrow(graph, r, r', t);
      }
    }

    /** One more round of a producible graph: whether it succeeds, its counts, and the exit test behind it. */
    lemma {:induction false} RoundOutcome(r: nat)
      requires Configured() && Producible(graph) && r < Rounds(graph)
      ensures After(graph, r + 1) == Round(graph, After(graph, r))
      ensures RowFails(After(graph, r)) ==> !RoundsSucceed(Rounds(graph))
      ensures RoundsSucceed(r) && !RowFails(After(graph, r)) ==> RoundsSucceed(r + 1)
      ensures AllFinished(graph, After(graph, r + 1)) <==> r + 1 >= Rounds(graph)
    {
      RoundsSucceedStep(r);
      if RoundsSucceed(Rounds(graph)) {
        LaterRoundsSucceed(r + 1, Rounds(graph));
      }
      ExitTest(graph, r + 1);
    }

    /** One pass of the outer loop of a producible graph, and the exit test behind it. */
    method NextRound() returns (ok: bool, full: bool)
      requires Idle() && Created() == After(graph, rounds) && RoundsSucceed(rounds)
      requires Producible(graph) && rounds < Rounds(graph)
      modifies this`fullTable, this`log, this`rounds, Objects()
      ensures !ok ==> !RoundsSucceed(Rounds(graph))
      ensures ok ==> Idle() && rounds == old(rounds) + 1 && Created() == After(graph, rounds)
      ensures ok ==> RoundsSucceed(rounds) && (full <==> rounds >= Rounds(graph))
    {
      RoundOutcome(rounds);
      full := false;
      ok := ProduceRound();
      if ok {
        full := CheckAllTheTableFull();
      }
    }

    /** The outer loop. */
    method ProduceRounds() returns (ok: bool)
      requires Idle() && Created() == After(graph, rounds) && RoundsSucceed(rounds)
      requires Producible(graph) && rounds <= Rounds(graph)
      modifies this`fullTable, this`log, this`rounds, Objects()
      ensures !ok ==> !RoundsSucceed(Rounds(graph))
      ensures ok ==> rounds == Rounds(graph) && Created() == After(graph, rounds) && RoundsSucceed(rounds)
    {
      ExitTest(graph, rounds);
      var full := CheckAllTheTableFull();
      while !full
        invariant Idle() && Created() == After(graph, rounds) && RoundsSucceed(rounds)
        invariant rounds <= Rounds(graph) && (full <==> rounds >= Rounds(graph))
        decreases Rounds(graph) - rounds
      {
        ok, full := NextRound();
        if !ok {
          return;
        }
      }
      ok := true;
    }

    /**
     Production of all files. On a producible graph it stops, after as many rounds as the largest file
     number and with the counts `CountAfterRounds` gives, and it succeeds exactly when every row of every
     one of these files does. `ExitTest` says that on any other graph the exit test never holds.
     */
    method StartProduceData() returns (ok: bool)
      requires Idle() && Created() == After(graph, 0) && rounds == 0
      requires Producible(graph)
      modifies this`fullTable, this`log, this`rounds, Objects()
      ensures ok <==> RoundsSucceed(Rounds(graph))
      ensures ok ==> rounds == Rounds(graph) && Created() == After(graph, rounds)
      ensures ok ==> AllFinished(graph, After(graph, rounds))
    {
      ok := ProduceRounds();
      if ok {
        ExitTest(graph, rounds);
        if tables != [] {
          // The table header is never filled, so its id is 0 for every table.
          fullTable := fullTable - {0};
        }
      }
    }
  }
}
