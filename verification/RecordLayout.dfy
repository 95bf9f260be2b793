/**
 The record layout compiler: the walk over a table's struct and union tree that gives every node its
 offset and length, with an explicit stack of at most 100 open groups.

 `Parse` is the walk as written, with its single struct-start and union-start registers; `Layout` is the
 layout it is meant to compute; `Faithful` is exactly when the two agree.
 */
module RecordLayout {
  import opened Options

  const MAX_STACK_DEPTH: nat := 100

  /** The column types that have a width; every other name of the type table is Widthless. */
  datatype AutoType =
    | UInt64 | Int64 | RealTime | RealTimeMs
    | UInt32 | Int32 | UInt16 | Int16 | UInt8 | Int8
    | ByteArray | Text
    | Widthless

  /** A column may lack the type attribute. */
  datatype Node =
    | Column(typ: Option<AutoType>)
    | Struct(children: seq<Node>)
    | Union(children: seq<Node>)
    | Unsupported

  /** The lengths of the type table. */
  function TypeLen(typ: AutoType): nat {
    match typ
    case UInt64 | Int64 | RealTime | RealTimeMs => 8
    case UInt32 | Int32 => 4
    case UInt16 | Int16 => 2
    case UInt8 | Int8 => 1
    case ByteArray | Text => 256
    case Widthless => 0
  }

  datatype Placement = Placement(offset: nat, len: nat)

  // ----------------------------------------------------------------- sizes

  function MaxOf(s: seq<nat>): nat {
    if s == [] then 0
    else
      var m := MaxOf(s[..|s| - 1]);
      if s[|s| - 1] > m then s[|s| - 1] else m
  }

  function SumOf(s: seq<nat>): nat {
    if s == [] then 0 else SumOf(s[..|s| - 1]) + s[|s| - 1]
  }

  /** What a node adds to the group around it, with `room` free stack slots: nothing for a column without
      a type, an unsupported element, or a group that finds the stack full. */
  function Contribution(n: Node, room: nat): Option<nat>
    decreases n, 1
  {
    match n
    case Column(Some(t)) => Some(TypeLen(t))
    case Struct(children) => if room == 0 then None else Some(SumOf(Contributions(children, room - 1)))
    case Union(children) => if room == 0 then None else Some(MaxOf(Contributions(children, room - 1)))
    case _ => None
  }

  function Contributions(ns: seq<Node>, room: nat): seq<nat>
    decreases ns, 0
  {
    if ns == [] then []
    else
      Contributions(ns[..|ns| - 1], room) +
      match Contribution(ns[|ns| - 1], room) { case Some(len) => [len] case None => [] }
  }

  function Size(n: Node, room: nat): nat {
    match Contribution(n, room) case Some(len) => len case None => 0
  }

  function SizeOfAll(ns: seq<Node>, room: nat): nat {
    SumOf(Contributions(ns, room))
  }

  // ----------------------------------------------------------------- the walk as written

  /** m_offset and the two start registers every group shares. */
  datatype Regs = Regs(offset: nat, structStart: nat, unionStart: nat)

  function Parse(n: Node, r: Regs, room: nat): (Regs, seq<Placement>)
    decreases n, 1
  {
    match n
    case Column(Some(t)) =>
      var len := TypeLen(t);
      (r.(offset := r.offset + len), [Placement(r.offset, len)])
    case Struct(children) =>
      if room == 0 then (r, [])
      else
        var (r1, ps) := ParseAll(children, r.(structStart := r.offset), room - 1);
        (r1.(offset := r1.structStart + Size(n, room)), [Placement(r1.structStart, Size(n, room))] + ps)
    case Union(children) =>
      if room == 0 then (r, [])
      else
        var (r1, ps) := ParseAll(children, r.(unionStart := r.offset), room - 1);
        (r1.(offset := r1.unionStart + Size(n, room)), [Placement(r1.unionStart, Size(n, room))] + ps)
    case _ => (r, [])
  }

  function ParseAll(ns: seq<Node>, r: Regs, room: nat): (Regs, seq<Placement>)
    decreases ns, 0
  {
    if ns == [] then (r, [])
    else
      var (r1, ps) := ParseAll(ns[..|ns| - 1], r, room);
      var (r2, qs) := Parse(ns[|ns| - 1], r1, room);
      (r2, ps + qs)
  }

  // ----------------------------------------------------------------- the intended layout

  /** Struct members one after the other, union members all at the union's start. */
  function Layout(n: Node, at: nat, room: nat): seq<Placement>
    decreases n, 1
  {
    match n
    case Column(Some(t)) => [Placement(at, TypeLen(t))]
    case Struct(children) =>
      if room == 0 then [] else [Placement(at, Size(n, room))] + LayoutMembers(children, at, room - 1, false)
    case Union(children) =>
      if room == 0 then [] else [Placement(at, Size(n, room))] + LayoutMembers(children, at, room - 1, true)
    case _ => []
  }

  function LayoutMembers(ns: seq<Node>, at: nat, room: nat, overlaid: bool): seq<Placement>
    decreases ns, 0
  {
    if ns == [] then []
    else
      LayoutMembers(ns[..|ns| - 1], at, room, overlaid) +
      Layout(ns[|ns| - 1], MemberStart(ns[..|ns| - 1], at, room, overlaid), room)
  }

  function MemberStart(before: seq<Node>, at: nat, room: nat, overlaid: bool): nat {
    if overlaid then at else at + SizeOfAll(before, room)
  }

  // ----------------------------------------------------------------- the stack machine

  /** One open group: its running length and, for a union, its member lengths. */
  datatype NestedElement = NestedElement(isUnion: bool, total: nat, members: seq<nat>)

  class OffsetStack {
    const data: array<NestedElement>
    var top: int

    ghost predicate Valid()
      reads this
    {
      data.Length == MAX_STACK_DEPTH && -1 <= top < MAX_STACK_DEPTH
    }

    ghost function Contents(): (s: seq<NestedElement>)
      reads this, data
      requires Valid()
      ensures |s| == top + 1
    {
      data[..top + 1]
    }

    constructor ()
      ensures Valid() && fresh(data) && Contents() == []
    {
      data := new NestedElement[MAX_STACK_DEPTH](_ => NestedElement(false, 0, []));
      top := -1;
    }

    method Push(e: NestedElement) returns (ok: bool)
      requires Valid()
      modifies this`top, data
      ensures Valid()
      ensures ok <==> old(|Contents()|) < 100
      ensures Contents() == if ok then old(Contents()) + [e] else old(Contents())
    {
      if top == MAX_STACK_DEPTH - 1 {
        return false;
      }
      top := top + 1;
      data[top] := e;
      ok := true;
    }

    method Pop() returns (e: NestedElement)
      requires Valid() && Contents() != []
      modifies this`top
      ensures Valid() && old(Contents()) == Contents() + [e]
    {
      e := data[top];
      top := top - 1;
    }

    method ReplaceTop(e: NestedElement)
      requires Valid() && Contents() != []
      modifies data
      ensures Valid() && Contents() == old(Contents())[..|old(Contents())| - 1] + [e]
    {
      data[top] := e;
    }
  }

  method DynamicArrayMax(members: seq<nat>) returns (max: nat)
    ensures members == [] ==> max == 0
    ensures members != [] ==> max in members
    ensures forall i | 0 <= i < |members| :: members[i] <= max
    ensures max == MaxOf(members)
  {
    if members == [] {
      return 0;
    }
    max := members[0];
    assert members[..1] == [members[0]];
    for i := 1 to |members|
      invariant max in members && forall j | 0 <= j < i :: members[j] <= max
      invariant max == MaxOf(members[..i])
    {
      assert members[..i + 1][..i] == members[..i];
      if members[i] > max {
        max := members[i];
      }
    }
    assert members[..|members|] == members;
  }

  /** A group after a member of the given length. */
  function Credited(e: NestedElement, len: nat): NestedElement {
    if e.isUnion then NestedElement(true, MaxOf(e.members + [len]), e.members + [len])
    else NestedElement(false, e.total + len, e.members)
  }

  /** The stack after a node: at most the innermost open group has changed, by the node's contribution. */
  function Credit(stack: seq<NestedElement>, c: Option<nat>): seq<NestedElement> {
    if stack == [] || c.None? then stack
    else stack[..|stack| - 1] + [Credited(stack[|stack| - 1], c.value)]
  }

  class LayoutCompiler {
    var offset: nat
    var structOffset: nat
    var unionOffset: nat
    const stack: OffsetStack

    ghost predicate Valid()
      reads this, stack
    {
      stack.Valid()
    }

    ghost function Registers(): Regs
      reads this
    {
      Regs(offset, structOffset, unionOffset)
    }

    ghost function Open(): seq<NestedElement>
      reads this, stack, stack.data
      requires Valid()
    {
      stack.Contents()
    }

    ghost function Room(): nat
      reads this, stack, stack.data
      requires Valid()
    {
      MAX_STACK_DEPTH - |Open()|
    }

    constructor ()
      ensures Valid() && fresh(stack) && fresh(stack.data) && Open() == [] && Registers() == Regs(0, 0, 0)
    {
      offset, structOffset, unionOffset := 0, 0, 0;
      stack := new OffsetStack();
    }

    /** Adds a finished member to the innermost open group, if there is one. */
    method UpdateParent(len: nat)
      requires Valid()
      modifies stack.data
      ensures Valid() && Open() == Credit(old(Open()), Some(len))
    {
      if stack.top != -1 {
        var parent := stack.data[stack.top];
        assert Open()[|Open()| - 1] == parent;
        if parent.isUnion {
          var members := parent.members + [len];
          var max := DynamicArrayMax(members);
          stack.ReplaceTop(NestedElement(true, max, members));
        } else {
          stack.ReplaceTop(parent.(total := parent.total + len));
        }
      }
    }

    /** Pops the innermost open group, whose recorded start is `start`, and credits it to its parent. */
    method CloseGroup(start: nat) returns (len: nat)
      requires Valid() && Open() != []
      modifies this`offset, stack, stack.data
      ensures Valid() && offset == start + len
      ensures var before := old(Open());
              len == before[|before| - 1].total && Open() == Credit(before[..|before| - 1], Some(len))
    {
      ghost var before := Open();
      var popped := stack.Pop();
      assert Open() == before[..|before| - 1];
      len := popped.total;
      offset := start + len;
      UpdateParent(len);
    }

    /** Walks the members of the group just pushed. */
    method ParseMembers(children: seq<Node>, isUnion: bool, ghost outer: seq<NestedElement>)
      returns (placed: seq<Placement>)
      requires Valid() && Open() == outer + [Opened(isUnion, [], Room())]
      modifies this, stack, stack.data
      ensures Valid() && Open() == outer + [Opened(isUnion, children, MAX_STACK_DEPTH - |outer| - 1)]
      ensures (Registers(), placed) ==
              ParseAll(children, old(Registers()), MAX_STACK_DEPTH - |outer| - 1)
      decreases children, 0
    {
      ghost var room := Room();
      placed := [];
      for k := 0 to |children|
        invariant Valid() && Open() == outer + [Opened(isUnion, children[..k], room)]
        invariant (Registers(), placed) == ParseAll(children[..k], old(Registers()), room)
      {
        var _, ps := ParseNode(children[k]);
        placed := placed + ps;
        assert children[..k + 1][..k] == children[..k];
        OpenedStep(outer, isUnion, children[..k + 1], room);
      }
      assert children[..|children|] == children;
    }

    /**
     The walk. Whatever the tree, it computes what `Parse` says and leaves the stack as it found it, but
     for the node's length credited to the innermost open group.
     */
    method ParseNode(n: Node) returns (ok: bool, placed: seq<Placement>)
      requires Valid()
      modifies this, stack, stack.data
      ensures Valid()
      ensures ok <==> n.Unsupported? || Contribution(n, old(Room())).Some?
      ensures (Registers(), placed) == Parse(n, old(Registers()), old(Room()))
      ensures Open() == Credit(old(Open()), Contribution(n, old(Room())))
      decreases n, 1
    {
      match n
      case Column(None) =>
        return false, [];
      case Column(Some(t)) =>
        var len := TypeLen(t);
        placed := [Placement(offset, len)];
        offset := offset + len;
        UpdateParent(len);
        ok := true;
      case Struct(children) =>
        ok, placed := ParseStruct(children);
      case Union(children) =>
        ok, placed := ParseUnion(children);
      case Unsupported =>
        return true, [];
    }

    method ParseStruct(children: seq<Node>) returns (ok: bool, placed: seq<Placement>)
      requires Valid()
      modifies this, stack, stack.data
      ensures Valid() && (ok <==> old(Room()) > 0)
      ensures !ok ==> placed == [] && Registers() == old(Registers()) && Open() == old(Open())
      ensures ok ==>
              var (r, ps) := ParseAll(children, old(Registers()).(structStart := old(offset)), old(Room()) - 1);
              var len := SumOf(Contributions(children, old(Room()) - 1));
              && Registers() == r.(offset := r.structStart + len)
              && placed == [Placement(r.structStart, len)] + ps
              && Open() == Credit(old(Open()), Some(len))
      decreases Struct(children), 0
    {
      ghost var outer, room := Open(), Room();
      ok := stack.Push(NestedElement(false, 0, []));
      if !ok {
        return false, [];
      }
      structOffset := offset;
      var ps := ParseMembers(children, false, outer);
      ghost var open := Open();
      assert open[|open| - 1] == Opened(false, children, room - 1) && open[..|open| - 1] == outer;
      var len := CloseGroup(structOffset);
      placed := [Placement(structOffset, len)] + ps;
    }

    method ParseUnion(children: seq<Node>) returns (ok: bool, placed: seq<Placement>)
      requires Valid()
      modifies this, stack, stack.data
      ensures Valid() && (ok <==> old(Room()) > 0)
      ensures !ok ==> placed == [] && Registers() == old(Registers()) && Open() == old(Open())
      ensures ok ==>
              var (r, ps) := ParseAll(children, old(Registers()).(unionStart := old(offset)), old(Room()) - 1);
              var len := MaxOf(Contributions(children, old(Room()) - 1));
              && Registers() == r.(offset := r.unionStart + len)
              && placed == [Placement(r.unionStart, len)] + ps
              && Open() == Credit(old(Open()), Some(len))
      decreases Union(children), 0
    {
      ghost var outer, room := Open(), Room();
      ok := stack.Push(NestedElement(true, 0, []));
      if !ok {
        return false, [];
      }
      unionOffset := offset;
      var ps := ParseMembers(children, true, outer);
      ghost var open := Open();
      assert open[|open| - 1] == Opened(true, children, room - 1) && open[..|open| - 1] == outer;
      var len := CloseGroup(unionOffset);
      placed := [Placement(unionOffset, len)] + ps;
    }

    /** A table's body: its members from offset 0 on; the final offset is the table's entry size. */
    method ParseBody(children: seq<Node>) returns (entrySize: nat, placed: seq<Placement>)
      requires Valid() && Open() == []
      modifies this, stack, stack.data
      ensures Valid() && Open() == []
      ensures (Registers(), placed) == ParseAll(children, old(Registers()).(offset := 0), MAX_STACK_DEPTH)
      ensures entrySize == offset
    {
      offset, placed := 0, [];
      for k := 0 to |children|
        invariant Valid() && Open() == []
        invariant (Registers(), placed) ==
                  ParseAll(children[..k], old(Registers()).(offset := 0), MAX_STACK_DEPTH)
      {
        var _, ps := ParseNode(children[k]);
        placed := placed + ps;
        assert children[..k + 1][..k] == children[..k];
      }
      assert children[..|children|] == children;
      entrySize := offset;
    }
  }

  /** An open group after the given members. */
  ghost function Opened(isUnion: bool, members: seq<Node>, room: nat): NestedElement {
    if isUnion then NestedElement(true, MaxOf(Contributions(members, room)), Contributions(members, room))
    else NestedElement(false, SumOf(Contributions(members, room)), [])
  }

  lemma {:induction false} OpenedStep(outer: seq<NestedElement>, isUnion: bool, members: seq<Node>, room: nat)
    requires members != []
    ensures var before, n := members[..|members| - 1], members[|members| - 1];
            Credit(outer + [Opened(isUnion, before, room)], Contribution(n, room)) ==
            outer + [Opened(isUnion, members, room)]
  {
    var before, n := members[..|members| - 1], members[|members| - 1];
    var cs := Contributions(before, room);
    var open := outer + [Opened(isUnion, before, room)];
    assert open[..|open| - 1] == outer;
    match Contribution(n, room)
    case None => assert cs + [] == cs;
    case Some(len) =>
      assert Contributions(members, room) == cs + [len];
      assert (cs + [len])[..|cs|] == cs;
  }
}
