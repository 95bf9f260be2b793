/** What the layout compiler's sizes and offsets mean. */
module LayoutTheorems {
  import opened Options
  import opened RecordLayout

  // ----------------------------------------------------------------- sizes

  /** The size of a tree without any bound on nesting: struct members add up, union members overlap. */
  function PlainSize(n: Node): nat
    decreases n, 1
  {
    match n
    case Column(Some(t)) => TypeLen(t)
    case Struct(children) => SumOf(PlainSizes(children))
    case Union(children) => MaxOf(PlainSizes(children))
    case _ => 0
  }

  function PlainSizes(ns: seq<Node>): seq<nat>
    decreases ns, 0
  {
    if ns == [] then [] else PlainSizes(ns[..|ns| - 1]) + [PlainSize(ns[|ns| - 1])]
  }

  /** How many groups are open at once while n is walked. */
  function Height(n: Node): nat
    decreases n, 1
  {
    match n
    case Struct(children) => 1 + HeightAll(children)
    case Union(children) => 1 + HeightAll(children)
    case _ => 0
  }

  function HeightAll(ns: seq<Node>): nat
    decreases ns, 0
  {
    if ns == [] then 0
    else
      var h, l := HeightAll(ns[..|ns| - 1]), Height(ns[|ns| - 1]);
      if h < l then l else h
  }

  /** For every tree that fits the stack, the stack machine's length is the recursive size. */
  lemma {:induction false} SizeIsPlainSize(n: Node, room: nat)
    requires Height(n) <= room
    ensures Size(n, room) == PlainSize(n)
    decreases n, 1
  {
    match n
    case Struct(children) => SizesArePlain(children, room - 1);
    case Union(children) => SizesArePlain(children, room - 1);
    case _ =>
  }

  lemma {:induction false} SizesArePlain(ns: seq<Node>, room: nat)
    requires HeightAll(ns) <= room
    ensures SumOf(Contributions(ns, room)) == SumOf(PlainSizes(ns))
    ensures MaxOf(Contributions(ns, room)) == MaxOf(PlainSizes(ns))
    decreases ns, 0
  {
    if ns != [] {
      var before, n := ns[..|ns| - 1], ns[|ns| - 1];
      SizesArePlain(before, room);
      SizeIsPlainSize(n, room);
      AppendContribution(ns, room);
      Snoc(PlainSizes(before), PlainSize(n));
    }
  }

  lemma {:induction false} Snoc(s: seq<nat>, x: nat)
    ensures SumOf(s + [x]) == SumOf(s) + x
    ensures MaxOf(s + [x]) == if x > MaxOf(s) then x else MaxOf(s)
  {
    assert (s + [x])[..|s|] == s;
  }

  /** The last member adds its size, or nothing. */
  lemma {:induction false} AppendContribution(ns: seq<Node>, room: nat)
    requires ns != []
    ensures var before, n := ns[..|ns| - 1], ns[|ns| - 1];
            && SizeOfAll(ns, room) == SizeOfAll(before, room) + Size(n, room)
            && MaxOf(Contributions(ns, room)) ==
               (if Size(n, room) > MaxOf(Contributions(before, room)) then Size(n, room)
                else MaxOf(Contributions(before, room)))
  {
    var before, n := ns[..|ns| - 1], ns[|ns| - 1];
    var cs := Contributions(before, room);
    match Contribution(n, room)
    case None => assert cs + [] == cs;
    case Some(len) => Snoc(cs, len);
  }

  // ----------------------------------------------------------------- the intended layout

  predicate Within(p: Placement, from: nat, to: nat) {
    from <= p.offset && p.offset + p.len <= to
  }

  /** Every node of a tree, down to the leaves, lies inside the tree's own range: so inside the range of
      each of its ancestors. */
  lemma {:induction false} LayoutInside(n: Node, at: nat, room: nat)
    ensures forall p | p in Layout(n, at, room) :: Within(p, at, at + Size(n, room))
    decreases n, 1
  {
    match n
    case Struct(children) =>
      if room > 0 {
        MembersInside(children, at, room - 1, false);
      }
    case Union(children) =>
      if room > 0 {
        MembersInside(children, at, room - 1, true);
      }
    case _ =>
  }

  lemma {:induction false} MembersInside(ns: seq<Node>, at: nat, room: nat, overlaid: bool)
    ensures forall p | p in LayoutMembers(ns, at, room, overlaid) :: Within(p, at, MembersEnd(ns, at, room, overlaid))
    decreases ns, 0
  {
    if ns != [] {
      var before, n := ns[..|ns| - 1], ns[|ns| - 1];
      var start := MemberStart(before, at, room, overlaid);
      MembersInside(before, at, room, overlaid);
      LayoutInside(n, start, room);
      MembersEndStep(ns, at, room, overlaid);
      var members, own := LayoutMembers(before, at, room, overlaid), Layout(n, start, room);
      assert LayoutMembers(ns, at, room, overlaid) == members + own;
      forall p | p in members + own
        ensures Within(p, at, MembersEnd(ns, at, room, overlaid))
      {
        assert p in members || p in own;
      }
    }
  }

  /** Where the members of a group end that starts at `at`. */
  function MembersEnd(ns: seq<Node>, at: nat, room: nat, overlaid: bool): nat {
    at + if overlaid then MaxOf(Contributions(ns, room)) else SizeOfAll(ns, room)
  }

  lemma {:induction false} MembersEndStep(ns: seq<Node>, at: nat, room: nat, overlaid: bool)
    requires ns != []
    ensures var before, n := ns[..|ns| - 1], ns[|ns| - 1];
            && MembersEnd(before, at, room, overlaid) <= MembersEnd(ns, at, room, overlaid)
            && at <= MemberStart(before, at, room, overlaid)
            && MemberStart(before, at, room, overlaid) + Size(n, room) <= MembersEnd(ns, at, room, overlaid)
  {
    AppendContribution(ns, room);
  }

  /** Struct members tile the struct: each starts where the one before it ends. */
  lemma {:induction false} MembersTile(ns: seq<Node>, at: nat, room: nat, k: nat)
    requires k < |ns|
    ensures MemberStart(ns[..k + 1], at, room, false) ==
            MemberStart(ns[..k], at, room, false) + Size(ns[k], room)
    ensures MemberStart(ns[..k + 1], at, room, false) <= at + SizeOfAll(ns, room)
    decreases |ns|
  {
    if k + 1 == |ns| {
      assert ns[..k + 1] == ns;
      AppendContribution(ns, room);
    } else {
      var before := ns[..|ns| - 1];
      assert before[..k + 1] == ns[..k + 1] && before[..k] == ns[..k];
      MembersTile(before, at, room, k);
      AppendContribution(ns, room);
    }
  }

  /** Nodes of different struct members never overlap. */
  lemma {:induction false} SiblingsDisjoint(ns: seq<Node>, at: nat, room: nat, i: nat, j: nat,
                                            p: Placement, q: Placement)
    requires i < j < |ns|
    requires p in Layout(ns[i], MemberStart(ns[..i], at, room, false), room)
    requires q in Layout(ns[j], MemberStart(ns[..j], at, room, false), room)
    ensures p.offset + p.len <= q.offset
  {
    LayoutInside(ns[i], MemberStart(ns[..i], at, room, false), room);
    LayoutInside(ns[j], MemberStart(ns[..j], at, room, false), room);
    MembersTile(ns, at, room, i);
    if i + 1 < j {
      MembersTile(ns[..j], at, room, i);
      assert ns[..j][..i + 1] == ns[..i + 1];
    }
  }

  // ----------------------------------------------------------------- when the walk as written is right

  /** The start, relative to n's, of the last struct (or union) opened inside n. */
  function LastStart(n: Node, room: nat, unions: bool): Option<nat>
    decreases n, 1
  {
    match n
    case Struct(children) =>
      if room == 0 then None
      else
        var inner := LastStartAll(children, room - 1, unions, false);
        if inner.None? && !unions then Some(0) else inner
    case Union(children) =>
      if room == 0 then None
      else
        var inner := LastStartAll(children, room - 1, unions, true);
        if inner.None? && unions then Some(0) else inner
    case _ => None
  }

  function LastStartAll(ns: seq<Node>, room: nat, unions: bool, overlaid: bool): Option<nat>
    decreases ns, 0
  {
    if ns == [] then None
    else
      var before := ns[..|ns| - 1];
      match LastStart(ns[|ns| - 1], room, unions)
      case Some(x) => Some(MemberStart(before, 0, room, overlaid) + x)
      case None => LastStartAll(before, room, unions, overlaid)
  }

  predicate NoneOrZero(o: Option<nat>) {
    o.None? || o.value == 0
  }

  /**
   The trees the shared registers and the running offset get right: in every struct the last nested
   struct to open starts where the struct does, in every union likewise the last nested union, and in
   every union nothing of positive size precedes a member.
   */
  predicate Faithful(n: Node, room: nat)
    decreases n, 1
  {
    match n
    case Struct(children) =>
      room > 0 ==>
        FaithfulAll(children, room - 1, false) && NoneOrZero(LastStartAll(children, room - 1, false, false))
    case Union(children) =>
      room > 0 ==>
        FaithfulAll(children, room - 1, true) && NoneOrZero(LastStartAll(children, room - 1, true, true))
    case _ => true
  }

  predicate FaithfulAll(ns: seq<Node>, room: nat, overlaid: bool)
    decreases ns, 0
  {
    ns == [] ||
    var before, n := ns[..|ns| - 1], ns[|ns| - 1];
    && FaithfulAll(before, room, overlaid)
    && Faithful(n, room)
    && (overlaid && Contribution(n, room).Some? ==> SizeOfAll(before, room) == 0)
  }

  /** A start register after a walk: the last matching group's start, if there was one. */
  ghost predicate RegisterAfter(before: nat, after: nat, at: nat, last: Option<nat>) {
    after == match last { case Some(x) => at + x case None => before }
  }

  ghost predicate RightWalk(n: Node, r: Regs, room: nat) {
    var (r', ps) := Parse(n, r, room);
    && ps == Layout(n, r.offset, room)
    && r'.offset == r.offset + Size(n, room)
    && RegisterAfter(r.structStart, r'.structStart, r.offset, LastStart(n, room, false))
    && RegisterAfter(r.unionStart, r'.unionStart, r.offset, LastStart(n, room, true))
  }

  ghost predicate RightWalkAll(ns: seq<Node>, r: Regs, room: nat, overlaid: bool) {
    var (r', ps) := ParseAll(ns, r, room);
    && ps == LayoutMembers(ns, r.offset, room, overlaid)
    && r'.offset == r.offset + SizeOfAll(ns, room)
    && RegisterAfter(r.structStart, r'.structStart, r.offset, LastStartAll(ns, room, false, overlaid))
    && RegisterAfter(r.unionStart, r'.unionStart, r.offset, LastStartAll(ns, room, true, overlaid))
  }

  lemma {:induction false} FaithfulIsRight(n: Node, r: Regs, room: nat)
    requires Faithful(n, room)
    ensures RightWalk(n, r, room)
    decreases n, 1
  {
    match n
    case Struct(children) =>
      if room > 0 {
        FaithfulAllAreRight(children, r.(structStart := r.offset), room - 1, false);
      }
    case Union(children) =>
      if room > 0 {
        FaithfulAllAreRight(children, r.(unionStart := r.offset), room - 1, true);
      }
    case _ =>
  }

  /** The last member is where it should be, once the members before it are. */
  lemma {:induction false} LastIsRight(ns: seq<Node>, r: Regs, room: nat, overlaid: bool)
    requires ns != []
    requires var before, n := ns[..|ns| - 1], ns[|ns| - 1];
             && RightWalkAll(before, r, room, overlaid) && RightWalk(n, ParseAll(before, r, room).0, room)
             && (overlaid && Contribution(n, room).Some? ==> SizeOfAll(before, room) == 0)
    ensures ParseAll(ns, r, room).1 == LayoutMembers(ns, r.offset, room, overlaid)
    ensures LastStart(ns[|ns| - 1], room, false).Some? || LastStart(ns[|ns| - 1], room, true).Some? ==>
              ParseAll(ns[..|ns| - 1], r, room).0.offset == MemberStart(ns[..|ns| - 1], r.offset, room, overlaid)
  {
    var before, n := ns[..|ns| - 1], ns[|ns| - 1];
    var r1, start := ParseAll(before, r, room).0, MemberStart(before, r.offset, room, overlaid);
    NothingPlaced(n, room);
    if Contribution(n, room).Some? {
      assert r1.offset == start;
    }
    assert Parse(n, r1, room).1 == Layout(n, start, room);
  }

  lemma {:induction false} RegistersStep(ns: seq<Node>, r: Regs, room: nat, overlaid: bool, unions: bool,
                                         first: nat, between: nat, after: nat)
    requires ns != []
    requires var before, n := ns[..|ns| - 1], ns[|ns| - 1];
             var r1 := ParseAll(before, r, room).0;
             && RegisterAfter(first, between, r.offset, LastStartAll(before, room, unions, overlaid))
             && RegisterAfter(between, after, r1.offset, LastStart(n, room, unions))
             && (LastStart(n, room, unions).Some? ==> r1.offset == MemberStart(before, r.offset, room, overlaid))
    ensures RegisterAfter(first, after, r.offset, LastStartAll(ns, room, unions, overlaid))
  {
    var before, n := ns[..|ns| - 1], ns[|ns| - 1];
    assert LastStartAll(ns, room, unions, overlaid) ==
           match LastStart(n, room, unions)
           case Some(x) => Some(MemberStart(before, 0, room, overlaid) + x)
           case None => LastStartAll(before, room, unions, overlaid);
    assert MemberStart(before, r.offset, room, overlaid) == r.offset + MemberStart(before, 0, room, overlaid);
  }

  lemma {:induction false} RightStep(ns: seq<Node>, r: Regs, room: nat, overlaid: bool)
    requires ns != []
    requires var before, n := ns[..|ns| - 1], ns[|ns| - 1];
             && RightWalkAll(before, r, room, overlaid) && RightWalk(n, ParseAll(before, r, room).0, room)
             && (overlaid && Contribution(n, room).Some? ==> SizeOfAll(before, room) == 0)
    ensures RightWalkAll(ns, r, room, overlaid)
  {
    var before, n := ns[..|ns| - 1], ns[|ns| - 1];
    var r1 := ParseAll(before, r, room).0;
    var r2 := Parse(n, r1, room).0;
    assert ParseAll(ns, r, room).0 == r2;
    LastIsRight(ns, r, room, overlaid);
    AppendContribution(ns, room);
    RegistersStep(ns, r, room, overlaid, false, r.structStart, r1.structStart, r2.structStart);
    RegistersStep(ns, r, room, overlaid, true, r.unionStart, r1.unionStart, r2.unionStart);
  }

  lemma {:induction false} FaithfulAllAreRight(ns: seq<Node>, r: Regs, room: nat, overlaid: bool)
    requires FaithfulAll(ns, room, overlaid)
    ensures RightWalkAll(ns, r, room, overlaid)
    decreases ns, 0
  {
    if ns != [] {
      var before, n := ns[..|ns| - 1], ns[|ns| - 1];
      FaithfulAllAreRight(before, r, room, overlaid);
      FaithfulIsRight(n, ParseAll(before, r, room).0, room);
      RightStep(ns, r, room, overlaid);
    }
  }

  /** A node that contributes nothing is not placed and opens no group. */
  lemma {:induction false} NothingPlaced(n: Node, room: nat)
    ensures Contribution(n, room).None? ==>
              (forall at: nat :: Layout(n, at, room) == []) && (forall u: bool :: LastStart(n, room, u) == None)
    ensures Contribution(n, room).Some? ==> forall at: nat :: Layout(n, at, room) != []
  {
  }

  /** The walk places the same nodes wherever it starts. */
  lemma {:induction false} SameNodes(n: Node, r: Regs, at: nat, room: nat)
    ensures |Parse(n, r, room).1| == |Layout(n, at, room)|
    decreases n, 1
  {
    match n
    case Struct(children) =>
      if room > 0 {
        SameNodesAll(children, r.(structStart := r.offset), at, room - 1, false);
      }
    case Union(children) =>
      if room > 0 {
        SameNodesAll(children, r.(unionStart := r.offset), at, room - 1, true);
      }
    case _ =>
  }

  lemma {:induction false} SameNodesAll(ns: seq<Node>, r: Regs, at: nat, room: nat, overlaid: bool)
    ensures |ParseAll(ns, r, room).1| == |LayoutMembers(ns, at, room, overlaid)|
    decreases ns, 0
  {
    if ns != [] {
      var before := ns[..|ns| - 1];
      SameNodesAll(before, r, at, room, overlaid);
      SameNodes(ns[|ns| - 1], ParseAll(before, r, room).0, MemberStart(before, at, room, overlaid), room);
    }
  }

  /** Neither the offset nor a start register that changes ever falls below the walk's starting offset. */
  ghost predicate Climbs(r: Regs, r': Regs) {
    && r'.offset >= r.offset
    && (r'.structStart == r.structStart || r'.structStart >= r.offset)
    && (r'.unionStart == r.unionStart || r'.unionStart >= r.offset)
  }

  lemma {:induction false} WalkClimbs(n: Node, r: Regs, room: nat)
    ensures Climbs(r, Parse(n, r, room).0)
    ensures Parse(n, r, room).1 != [] ==> Parse(n, r, room).1[0].offset >= r.offset
    decreases n, 1
  {
    match n
    case Struct(children) =>
      if room > 0 {
        WalkAllClimbs(children, r.(structStart := r.offset), room - 1);
      }
    case Union(children) =>
      if room > 0 {
        WalkAllClimbs(children, r.(unionStart := r.offset), room - 1);
      }
    case _ =>
  }

  lemma {:induction false} WalkAllClimbs(ns: seq<Node>, r: Regs, room: nat)
    ensures Climbs(r, ParseAll(ns, r, room).0)
    decreases ns, 0
  {
    if ns != [] {
      WalkAllClimbs(ns[..|ns| - 1], r, room);
      WalkClimbs(ns[|ns| - 1], ParseAll(ns[..|ns| - 1], r, room).0, room);
    }
  }

  lemma {:induction false} RightIsFaithful(n: Node, r: Regs, room: nat)
    requires Parse(n, r, room).1 == Layout(n, r.offset, room)
    ensures Faithful(n, room)
    decreases n, 1
  {
    match n
    case Struct(children) =>
      if room > 0 {
        var r0 := r.(structStart := r.offset);
        assert Parse(n, r, room).1[1..] == ParseAll(children, r0, room - 1).1;
        assert Layout(n, r.offset, room)[1..] == LayoutMembers(children, r.offset, room - 1, false);
        RightAllAreFaithful(children, r0, room - 1, false);
        FaithfulAllAreRight(children, r0, room - 1, false);
        assert Parse(n, r, room).1[0].offset == r.offset;
      }
    case Union(children) =>
      if room > 0 {
        var r0 := r.(unionStart := r.offset);
        assert Parse(n, r, room).1[1..] == ParseAll(children, r0, room - 1).1;
        assert Layout(n, r.offset, room)[1..] == LayoutMembers(children, r.offset, room - 1, true);
        RightAllAreFaithful(children, r0, room - 1, true);
        FaithfulAllAreRight(children, r0, room - 1, true);
        assert Parse(n, r, room).1[0].offset == r.offset;
      }
    case _ =>
  }

  lemma {:induction false} RightAllAreFaithful(ns: seq<Node>, r: Regs, room: nat, overlaid: bool)
    requires ParseAll(ns, r, room).1 == LayoutMembers(ns, r.offset, room, overlaid)
    ensures FaithfulAll(ns, room, overlaid)
    decreases ns, 0
  {
    if ns != [] {
      var before, n := ns[..|ns| - 1], ns[|ns| - 1];
      var (r1, ps) := ParseAll(before, r, room);
      var qs := Parse(n, r1, room).1;
      var start := MemberStart(before, r.offset, room, overlaid);
      var ps', qs' := LayoutMembers(before, r.offset, room, overlaid), Layout(n, start, room);
      SameNodesAll(before, r, r.offset, room, overlaid);
      assert ps + qs == ps' + qs';
      assert ps == (ps + qs)[..|ps|] == ps' && qs == (ps + qs)[|ps|..] == qs';
      RightAllAreFaithful(before, r, room, overlaid);
      FaithfulAllAreRight(before, r, room, overlaid);
      NothingPlaced(n, room);
      if Contribution(n, room).Some? {
        WalkClimbs(n, r1, room);
        LayoutHead(n, start, room);
        assert r1.offset <= start;
        RightIsFaithful(n, r1, room);
      } else {
        assert Faithful(n, room);
      }
    }
  }

  lemma {:induction false} LayoutHead(n: Node, at: nat, room: nat)
    requires Contribution(n, room).Some?
    ensures Layout(n, at, room)[0] == Placement(at, Size(n, room))
  {
  }

  /** Main result: the walk as written gives every node its intended offset exactly for faithful trees. */
  lemma {:induction false} OffsetsRightIffFaithful(n: Node, r: Regs, room: nat)
    ensures Parse(n, r, room).1 == Layout(n, r.offset, room) <==> Faithful(n, room)
  {
    if Faithful(n, room) {
      FaithfulIsRight(n, r, room);
    } else if Parse(n, r, room).1 == Layout(n, r.offset, room) {
      RightIsFaithful(n, r, room);
    }
  }

  // ----------------------------------------------------------------- what a group's start is recorded as

  /** The groups that a walk opens, in order: whether each is a union, and the offset it is opened at. */
  function Openings(n: Node, r: Regs, room: nat): seq<(bool, nat)>
    decreases n, 1
  {
    match n
    case Struct(children) =>
      if room == 0 then []
      else [(false, r.offset)] + OpeningsAll(children, r.(structStart := r.offset), room - 1)
    case Union(children) =>
      if room == 0 then []
      else [(true, r.offset)] + OpeningsAll(children, r.(unionStart := r.offset), room - 1)
    case _ => []
  }

  function OpeningsAll(ns: seq<Node>, r: Regs, room: nat): seq<(bool, nat)>
    decreases ns, 0
  {
    if ns == [] then []
    else
      var before := ns[..|ns| - 1];
      OpeningsAll(before, r, room) + Openings(ns[|ns| - 1], ParseAll(before, r, room).0, room)
  }

  /** The offset of the last group of a kind, or `none` without one. */
  function LastOpened(openings: seq<(bool, nat)>, union: bool, none: nat): nat {
    if openings == [] then none
    else
      var last := openings[|openings| - 1];
      if last.0 == union then last.1 else LastOpened(openings[..|openings| - 1], union, none)
  }

  lemma {:induction false} LastOpenedConcat(a: seq<(bool, nat)>, b: seq<(bool, nat)>, union: bool, none: nat)
    ensures LastOpened(a + b, union, none) == LastOpened(b, union, LastOpened(a, union, none))
    decreases |b|
  {
    if b == [] {
      assert a + b == a;
    } else {
      assert (a + b)[..|a + b| - 1] == a + b[..|b| - 1];
      LastOpenedConcat(a, b[..|b| - 1], union, none);
    }
  }

  ghost predicate Recorded(r: Regs, r': Regs, openings: seq<(bool, nat)>) {
    && r'.structStart == LastOpened(openings, false, r.structStart)
    && r'.unionStart == LastOpened(openings, true, r.unionStart)
  }

  /** For every tree, faithful or not, a group's recorded start is the offset at which the last group of its
      kind inside it was opened, or its own, and the walk goes on that start plus the group's length. */
  lemma {:induction false} RecordedStarts(n: Node, r: Regs, room: nat)
    ensures Recorded(r, Parse(n, r, room).0, Openings(n, r, room))
    ensures Parse(n, r, room).1 != [] && !n.Column? ==>
              Parse(n, r, room).1[0] == Placement(LastOpened(Openings(n, r, room), n.Union?, 0), Size(n, room))
    ensures Parse(n, r, room).1 != [] ==>
              var start := Parse(n, r, room).1[0]; Parse(n, r, room).0.offset == start.offset + start.len
    decreases n, 1
  {
    match n
    case Struct(children) =>
      if room > 0 {
        GroupRecords(children, r, r.(structStart := r.offset), room - 1, false);
      }
    case Union(children) =>
      if room > 0 {
        GroupRecords(children, r, r.(unionStart := r.offset), room - 1, true);
      }
    case _ =>
  }

  lemma {:induction false} GroupRecords(children: seq<Node>, r: Regs, r0: Regs, room: nat, union: bool)
    requires r0 == if union then r.(unionStart := r.offset) else r.(structStart := r.offset)
    ensures var all := [(union, r.offset)] + OpeningsAll(children, r0, room);
            var r1 := ParseAll(children, r0, room).0;
            && Recorded(r, r1, all)
            && LastOpened(all, union, 0) == if union then r1.unionStart else r1.structStart
    decreases children, 1
  {
    AllRecordedStarts(children, r0, room);
    OwnOpening(union, r.offset);
    var own, inner := [(union, r.offset)], OpeningsAll(children, r0, room);
    LastOpenedConcat(own, inner, false, r.structStart);
    LastOpenedConcat(own, inner, true, r.unionStart);
    LastOpenedConcat(own, inner, union, 0);
  }

  lemma {:induction false} OwnOpening(union: bool, offset: nat)
    ensures forall kind: bool, none: nat ::
              LastOpened([(union, offset)], kind, none) == if kind == union then offset else none
  {
    assert [(union, offset)][..0] == [];
  }

  lemma {:induction false} AllRecordedStarts(ns: seq<Node>, r: Regs, room: nat)
    ensures Recorded(r, ParseAll(ns, r, room).0, OpeningsAll(ns, r, room))
    decreases ns, 0
  {
    if ns != [] {
      var before, n := ns[..|ns| - 1], ns[|ns| - 1];
      var r1 := ParseAll(before, r, room).0;
      AllRecordedStarts(before, r, room);
      RecordedStarts(n, r1, room);
      var a, b := OpeningsAll(before, r, room), Openings(n, r1, room);
      LastOpenedConcat(a, b, false, r.structStart);
      LastOpenedConcat(a, b, true, r.unionStart);
    }
  }

  // ----------------------------------------------------------------- what is read: columns and the end

  predicate UnionFree(n: Node)
    decreases n, 1
  {
    match n
    case Struct(children) => UnionFreeAll(children)
    case Union(_) => false
    case _ => true
  }

  predicate UnionFreeAll(ns: seq<Node>)
    decreases ns, 0
  {
    ns == [] || (UnionFreeAll(ns[..|ns| - 1]) && UnionFree(ns[|ns| - 1]))
  }

  /** In a union-free walk a struct start never lies behind the offset. */
  lemma {:induction false} StartNotBehind(n: Node, r: Regs, room: nat)
    requires UnionFree(n) && r.structStart <= r.offset
    ensures Parse(n, r, room).0.structStart <= Parse(n, r, room).0.offset
    decreases n, 1
  {
  }

  lemma {:induction false} StartsNotBehind(ns: seq<Node>, r: Regs, room: nat)
    requires UnionFreeAll(ns) && r.structStart <= r.offset
    ensures ParseAll(ns, r, room).0.structStart <= ParseAll(ns, r, room).0.offset
    decreases ns, 0
  {
    if ns != [] {
      StartsNotBehind(ns[..|ns| - 1], r, room);
      StartNotBehind(ns[|ns| - 1], ParseAll(ns[..|ns| - 1], r, room).0, room);
    }
  }

  /** Placements of the same nodes, at least d behind where they are meant to be. */
  ghost predicate Late(ps: seq<Placement>, qs: seq<Placement>, d: nat) {
    |ps| == |qs| && forall i | 0 <= i < |ps| :: ps[i].offset >= qs[i].offset + d && ps[i].len == qs[i].len
  }

  lemma {:induction false} LateConcat(ps: seq<Placement>, qs: seq<Placement>, ps': seq<Placement>,
                                      qs': seq<Placement>, d: nat, e: nat)
    requires Late(ps, qs, d) && Late(ps', qs', e) && d <= e
    ensures Late(ps + ps', qs + qs', d)
  {
  }

  /** A union-free walk that starts d behind puts every node at least d behind, and ends at least as far on as
      the tree is long. */
  lemma {:induction false} WalkIsLate(n: Node, r: Regs, at: nat, room: nat)
    requires UnionFree(n) && at <= r.offset
    ensures Late(Parse(n, r, room).1, Layout(n, at, room), r.offset - at)
    ensures Parse(n, r, room).0.offset >= r.offset + Size(n, room)
    decreases n, 1
  {
    match n
    case Struct(children) =>
      if room > 0 {
        var r0 := r.(structStart := r.offset);
        WalkAllIsLate(children, r0, at, room - 1);
        WalkAllClimbs(children, r0, room - 1);
        var start := ParseAll(children, r0, room - 1).0.structStart;
        LateConcat([Placement(start, Size(n, room))], [Placement(at, Size(n, room))],
                   ParseAll(children, r0, room - 1).1, LayoutMembers(children, at, room - 1, false),
                   r.offset - at, r.offset - at);
      }
    case _ =>
  }

  lemma {:induction false} WalkAllIsLate(ns: seq<Node>, r: Regs, at: nat, room: nat)
    requires UnionFreeAll(ns) && at <= r.offset
    ensures Late(ParseAll(ns, r, room).1, LayoutMembers(ns, at, room, false), r.offset - at)
    ensures ParseAll(ns, r, room).0.offset >= r.offset + SizeOfAll(ns, room)
    decreases ns, 0
  {
    if ns != [] {
      var before, n := ns[..|ns| - 1], ns[|ns| - 1];
      var r1, start := ParseAll(before, r, room).0, MemberStart(before, at, room, false);
      WalkAllIsLate(before, r, at, room);
      WalkIsLate(n, r1, start, room);
      AppendContribution(ns, room);
      LateConcat(ParseAll(before, r, room).1, LayoutMembers(before, at, room, false),
                 Parse(n, r1, room).1, Layout(n, start, room), r.offset - at, r1.offset - start);
    }
  }

  /** Main result for union-free trees: the walk ends where the tree does, so that the entry size is right,
      exactly for faithful trees. */
  lemma {:induction false} EndRightIffFaithful(n: Node, r: Regs, room: nat)
    requires UnionFree(n)
    ensures Parse(n, r, room).0.offset == r.offset + Size(n, room) <==> Faithful(n, room)
    decreases n, 2
  {
    if Faithful(n, room) {
      FaithfulIsRight(n, r, room);
    } else {
      var r0 := r.(structStart := r.offset);
      if ParseAll(n.children, r0, room - 1).0.structStart == r.offset {
        StartKeptIsFaithful(n.children, r0, room - 1);
        FaithfulAllAreRight(n.children, r0, room - 1, false);
        assert false;
      }
    }
  }

  /** Members that leave the start register where the group starts are faithful. */
  lemma {:induction false} StartKeptIsFaithful(ns: seq<Node>, r: Regs, room: nat)
    requires UnionFreeAll(ns) && r.structStart == r.offset == ParseAll(ns, r, room).0.structStart
    ensures FaithfulAll(ns, room, false)
    decreases ns, 1
  {
    if ns != [] {
      var before, n := ns[..|ns| - 1], ns[|ns| - 1];
      var r1 := ParseAll(before, r, room).0;
      WalkAllClimbs(before, r, room);
      StartsNotBehind(before, r, room);
      if n.Struct? && room > 0 {
        WalkAllClimbs(n.children, r1.(structStart := r1.offset), room - 1);
        EndRightIffFaithful(n, r1, room);
      }
      StartKeptIsFaithful(before, r, room);
    }
  }

  /** Members one behind the other end where they should exactly if all of them are faithful. */
  lemma {:induction false} AllEndRightIffFaithful(ns: seq<Node>, r: Regs, room: nat)
    requires UnionFreeAll(ns)
    ensures ParseAll(ns, r, room).0.offset == r.offset + SizeOfAll(ns, room) <==> FaithfulAll(ns, room, false)
    decreases |ns|
  {
    if ns != [] {
      var before, n := ns[..|ns| - 1], ns[|ns| - 1];
      var r1 := ParseAll(before, r, room).0;
      AllEndRightIffFaithful(before, r, room);
      EndRightIffFaithful(n, r1, room);
      AppendContribution(ns, room);
      WalkAllIsLate(before, r, r.offset, room);
      WalkIsLate(n, r1, r1.offset, room);
    }
  }

  /** Which of a walk's placements are columns'. */
  function Kinds(n: Node, room: nat): seq<bool>
    decreases n, 1
  {
    match n
    case Column(Some(t)) => [true]
    case Struct(children) => if room == 0 then [] else [false] + KindsAll(children, room - 1)
    case Union(children) => if room == 0 then [] else [false] + KindsAll(children, room - 1)
    case _ => []
  }

  function KindsAll(ns: seq<Node>, room: nat): seq<bool>
    decreases ns, 0
  {
    if ns == [] then [] else KindsAll(ns[..|ns| - 1], room) + Kinds(ns[|ns| - 1], room)
  }

  lemma {:induction false} KindOfEach(n: Node, at: nat, room: nat)
    ensures |Kinds(n, room)| == |Layout(n, at, room)|
    decreases n, 1
  {
    match n
    case Struct(children) =>
      if room > 0 {
        KindsOfEach(children, at, room - 1, false);
      }
    case Union(children) =>
      if room > 0 {
        KindsOfEach(children, at, room - 1, true);
      }
    case _ =>
  }

  lemma {:induction false} KindsOfEach(ns: seq<Node>, at: nat, room: nat, overlaid: bool)
    ensures |KindsAll(ns, room)| == |LayoutMembers(ns, at, room, overlaid)|
    decreases ns, 0
  {
    if ns != [] {
      var before := ns[..|ns| - 1];
      KindsOfEach(before, at, room, overlaid);
      KindOfEach(ns[|ns| - 1], MemberStart(before, at, room, overlaid), room);
    }
  }

  /** The columns among the placed nodes are placed alike. */
  ghost predicate ColumnsAgree(columns: seq<bool>, ps: seq<Placement>, qs: seq<Placement>) {
    |columns| == |ps| == |qs| && forall i | 0 <= i < |columns| && columns[i] :: ps[i] == qs[i]
  }

  lemma {:induction false} AgreeConcat(columns: seq<bool>, ps: seq<Placement>, qs: seq<Placement>,
                                       more: seq<bool>, ps': seq<Placement>, qs': seq<Placement>)
    requires |columns| == |ps| == |qs| && |more| == |ps'| == |qs'|
    ensures ColumnsAgree(columns + more, ps + ps', qs + qs') <==>
            ColumnsAgree(columns, ps, qs) && ColumnsAgree(more, ps', qs')
  {
    if ColumnsAgree(columns + more, ps + ps', qs + qs') {
      forall i | 0 <= i < |more| && more[i]
        ensures ps'[i] == qs'[i]
      {
        assert (columns + more)[|columns| + i] == more[i];
        assert (ps + ps')[|ps| + i] == (qs + qs')[|qs| + i];
      }
      forall i | 0 <= i < |columns| && columns[i]
        ensures ps[i] == qs[i]
      {
        assert (columns + more)[i] == columns[i];
        assert (ps + ps')[i] == (qs + qs')[i];
      }
    }
  }

  /** No column stands behind a member of its group, or of a group around it, that is not faithful. */
  predicate ColumnsFaithful(n: Node, room: nat)
    decreases n, 1
  {
    match n
    case Struct(children) => room > 0 ==> ColumnsFaithfulAll(children, room - 1)
    case _ => true
  }

  predicate ColumnsFaithfulAll(ns: seq<Node>, room: nat)
    decreases ns, 0
  {
    ns == [] ||
    var before, n := ns[..|ns| - 1], ns[|ns| - 1];
    && ColumnsFaithfulAll(before, room)
    && ColumnsFaithful(n, room)
    && (true in Kinds(n, room) ==> FaithfulAll(before, room, false))
  }

  lemma {:induction false} NoColumnIsFaithful(n: Node, room: nat)
    requires true !in Kinds(n, room)
    ensures ColumnsFaithful(n, room)
    decreases n, 1
  {
    match n
    case Struct(children) =>
      if room > 0 {
        var kinds := KindsAll(children, room - 1);
        assert true in kinds ==> true in [false] + kinds;
        NoColumnsAreFaithful(children, room - 1);
      }
    case _ =>
  }

  lemma {:induction false} NoColumnsAreFaithful(ns: seq<Node>, room: nat)
    requires true !in KindsAll(ns, room)
    ensures ColumnsFaithfulAll(ns, room)
    decreases ns, 0
  {
    if ns != [] {
      NoColumnsAreFaithful(ns[..|ns| - 1], room);
      NoColumnIsFaithful(ns[|ns| - 1], room);
    }
  }

  /** Main result for union-free trees: the walk gives every column its intended offset exactly if no column
      stands behind a group that is not faithful. */
  lemma {:induction false} ColumnsRightIff(n: Node, r: Regs, room: nat)
    requires UnionFree(n)
    ensures ColumnsAgree(Kinds(n, room), Parse(n, r, room).1, Layout(n, r.offset, room)) <==>
            ColumnsFaithful(n, room)
    decreases n, 1
  {
    match n
    case Struct(children) =>
      if room > 0 {
        var r0 := r.(structStart := r.offset);
        var (r1, ps) := ParseAll(children, r0, room - 1);
        ColumnsOfAllRightIff(children, r0, room - 1);
        SameNodesAll(children, r0, r.offset, room - 1, false);
        KindsOfEach(children, r.offset, room - 1, false);
        AgreeConcat([false], [Placement(r1.structStart, Size(n, room))], [Placement(r.offset, Size(n, room))],
                    KindsAll(children, room - 1), ps, LayoutMembers(children, r.offset, room - 1, false));
      }
    case _ =>
  }

  lemma {:induction false} ColumnsOfAllRightIff(ns: seq<Node>, r: Regs, room: nat)
    requires UnionFreeAll(ns)
    ensures ColumnsAgree(KindsAll(ns, room), ParseAll(ns, r, room).1, LayoutMembers(ns, r.offset, room, false)) <==>
            ColumnsFaithfulAll(ns, room)
    decreases ns, 1
  {
    if ns != [] {
      var before, n := ns[..|ns| - 1], ns[|ns| - 1];
      var r1, start := ParseAll(before, r, room).0, MemberStart(before, r.offset, room, false);
      ColumnsOfAllRightIff(before, r, room);
      SameNodesAll(before, r, r.offset, room, false);
      KindsOfEach(before, r.offset, room, false);
      SameNodes(n, r1, start, room);
      KindOfEach(n, start, room);
      AgreeConcat(KindsAll(before, room), ParseAll(before, r, room).1, LayoutMembers(before, r.offset, room, false),
                  Kinds(n, room), Parse(n, r1, room).1, Layout(n, start, room));
      LastColumnsRightIff(ns, r, room);
    }
  }

  lemma {:induction false} LastColumnsRightIff(ns: seq<Node>, r: Regs, room: nat)
    requires UnionFreeAll(ns) && ns != []
    ensures var before, n := ns[..|ns| - 1], ns[|ns| - 1];
            ColumnsAgree(Kinds(n, room), Parse(n, ParseAll(before, r, room).0, room).1,
                         Layout(n, MemberStart(before, r.offset, room, false), room)) <==>
            ColumnsFaithful(n, room) && (true in Kinds(n, room) ==> FaithfulAll(before, room, false))
    decreases ns, 0
  {
    var before, n := ns[..|ns| - 1], ns[|ns| - 1];
    var r1, start := ParseAll(before, r, room).0, MemberStart(before, r.offset, room, false);
    SameNodes(n, r1, start, room);
    KindOfEach(n, start, room);
    AllEndRightIffFaithful(before, r, room);
    WalkAllIsLate(before, r, r.offset, room);
    if FaithfulAll(before, room, false) {
      ColumnsRightIff(n, r1, room);
    } else if true in Kinds(n, room) {
      WalkIsLate(n, r1, start, room);
      var i :| 0 <= i < |Kinds(n, room)| && Kinds(n, room)[i];
      assert Parse(n, r1, room).1[i].offset > Layout(n, start, room)[i].offset;
    } else {
      NoColumnIsFaithful(n, room);
    }
  }

  /** A group of plain columns is faithful. */
  lemma {:induction false} FlatIsFaithful(columns: seq<Node>, room: nat)
    requires forall i | 0 <= i < |columns| :: columns[i].Column?
    ensures Faithful(Struct(columns), room + 1)
    ensures FaithfulAll(columns, room, false) && LastStartAll(columns, room, false, false) == None
    ensures ColumnsFaithfulAll(columns, room) && UnionFreeAll(columns)
    decreases |columns|
  {
    if columns != [] {
      FlatIsFaithful(columns[..|columns| - 1], room);
    }
  }

  /** A struct whose nested struct opens behind a column of positive width is not: the nested start has
      overwritten the outer one by the time the outer struct is closed. Its columns still come right, but
      not its end. */
  lemma {:induction false} NestedStructMisplaced(t: AutoType, inner: seq<Node>, r: Regs, room: nat)
    requires TypeLen(t) > 0 && room >= 2 && forall i | 0 <= i < |inner| :: inner[i].Column?
    ensures var n := Struct([Column(Some(t)), Struct(inner)]);
            && !Faithful(n, room) && Parse(n, r, room).1 != Layout(n, r.offset, room)
            && ColumnsAgree(Kinds(n, room), Parse(n, r, room).1, Layout(n, r.offset, room))
            && Parse(n, r, room).0.offset != r.offset + Size(n, room)
  {
    var n := Struct([Column(Some(t)), Struct(inner)]);
    NestedOpensBehind(t, inner, room - 1);
    NestedColumns(Column(Some(t)), inner, room - 1);
    OffsetsRightIffFaithful(n, r, room);
    ColumnsRightIff(n, r, room);
    EndRightIffFaithful(n, r, room);
  }

  lemma {:induction false} NestedColumns(column: Node, inner: seq<Node>, room: nat)
    requires room >= 1 && column.Column? && forall i | 0 <= i < |inner| :: inner[i].Column?
    ensures UnionFreeAll([column, Struct(inner)]) && ColumnsFaithfulAll([column, Struct(inner)], room)
  {
    FlatIsFaithful(inner, room - 1);
    FlatIsFaithful([column], room);
    assert [column, Struct(inner)][..1] == [column];
  }

  lemma {:induction false} ColumnSize(t: AutoType, room: nat)
    ensures SizeOfAll([Column(Some(t))], room) == TypeLen(t)
  {
    assert [Column(Some(t))][..0] == [];
    AppendContribution([Column(Some(t))], room);
  }

  lemma {:induction false} NestedOpensBehind(t: AutoType, inner: seq<Node>, room: nat)
    requires room >= 1 && forall i | 0 <= i < |inner| :: inner[i].Column?
    ensures LastStartAll([Column(Some(t)), Struct(inner)], room, false, false) == Some(TypeLen(t))
  {
    var column, nested := Column(Some(t)), Struct(inner);
    assert LastStart(nested, room, false) == Some(0) by {
      FlatIsFaithful(inner, room - 1);
    }
    ColumnSize(t, room);
    LastOpens([column], nested, room);
    assert [column] + [nested] == [column, nested];
  }

  /** A struct that opens nothing inside itself is the last to open. */
  lemma {:induction false} LastOpens(before: seq<Node>, nested: Node, room: nat)
    requires LastStart(nested, room, false) == Some(0)
    ensures LastStartAll(before + [nested], room, false, false) == Some(SizeOfAll(before, room))
  {
    assert (before + [nested])[..|before|] == before;
  }

  /** A union's second placed member is misplaced whenever its first has a positive size. */
  lemma {:induction false} UnionMemberMisplaced(t: AutoType, u: AutoType, r: Regs, room: nat)
    requires TypeLen(t) > 0 && room >= 1
    ensures var n := Union([Column(Some(t)), Column(Some(u))]);
            !Faithful(n, room) && Parse(n, r, room).1 != Layout(n, r.offset, room)
  {
    var first, second := Column(Some(t)), Column(Some(u));
    var n := Union([first, second]);
    assert !Faithful(n, room) by {
      assert [first, second][..1] == [first];
      ColumnSize(t, room - 1);
      assert Contribution(second, room - 1).Some?;
      assert !FaithfulAll([first, second], room - 1, true);
    }
    OffsetsRightIffFaithful(n, r, room);
  }
}
