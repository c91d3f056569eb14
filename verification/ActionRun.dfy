/**
 What a call of an action comes to, without the driver's status fields: applications of
 leaves, passes, rounds of a restart group (pkg/pcode/action.go:261-325, 487-511, 606-635).

 A call is described by its history, a tree of passes and calls of children, and by what
 holds between the parts of a history.  The driver's completed runs are then shown to be
 exactly the calls that have a history.
 */
module ActionRuns {
  import opened Options
  import opened Actions

  /** An action between two calls: its flags, whether it takes no more calls, and what it does. */
  datatype Task = Task(flags: Flags, ended: bool, kind: Kind)

  datatype Kind = One(id: nat) | Several(list: seq<Task>, restart: Option<Restarts>)

  datatype Point<D> = Point(t: Task, s: St<D>)

  /** What happened, where it led, and how much it counted. */
  datatype Call<D> = Call(passes: seq<Pass<D>>, end: Point<D>, count: nat)

  datatype Pass<D> = Pass(rounds: seq<Round<D>>, end: Point<D>, count: nat)

  /** The children's calls. */
  datatype Round<D> = Round(calls: seq<Call<D>>)

  function PassCount<D>(passes: seq<Pass<D>>): nat { if passes == [] then 0 else passes[0].count + PassCount(passes[1..]) }

  function CallCount<D>(calls: seq<Call<D>>): nat { if calls == [] then 0 else calls[0].count + CallCount(calls[1..]) }

  function RoundCount<D>(rounds: seq<Round<D>>): nat { if rounds == [] then 0 else CallCount(rounds[0].calls) + RoundCount(rounds[1..]) }

  /** The children after a round, and the data. */
  function Ends<D>(calls: seq<Call<D>>): seq<Task> { if calls == [] then [] else [calls[0].end.t] + Ends(calls[1..]) }

  function EndState<D>(s: St<D>, calls: seq<Call<D>>): St<D>
    decreases calls
  {
    if calls == [] then s else EndState(calls[0].end.s, calls[1..])
  }

  // ----- resets -----

  function Renewed(t: Task): Task
    decreases t
  {
    Task(t.flags, false, match t.kind
      case One(id) => One(id)
      case Several(list, restart) => Several(AllRenewed(list), if restart.Some? then Some(restart.value.(cur := 0)) else None))
  }

  function AllRenewed(list: seq<Task>): seq<Task>
    decreases list
  {
    if list == [] then [] else [Renewed(list[0])] + AllRenewed(list[1..])
  }

  /** The leaves in order. */
  function Leaves(t: Task): seq<nat>
    decreases t
  {
    match t.kind case One(id) => [id] case Several(list, _) => AllLeaves(list)
  }

  function AllLeaves(list: seq<Task>): seq<nat>
    decreases list
  {
    if list == [] then [] else Leaves(list[0]) + AllLeaves(list[1..])
  }

  function LeavesReset<D(!new)>(w: World<D>, ids: seq<nat>, d: D): D {
    if ids == [] then d else LeavesReset(w, ids[1..], w.reset(ids[0], d))
  }

  // ----- histories -----

  /** With `repeat` the passes go on until the first that counts nothing; without it there is one. */
  ghost predicate Repeated<D(!new)>(repeat: bool, passes: seq<Pass<D>>) {
    && passes != []
    && if repeat then forall i :: 0 <= i < |passes| ==> (passes[i].count == 0 <==> i == |passes| - 1) else |passes| == 1
  }

  /** Whether the action takes another call. */
  function Closed<D>(p: Point<D>, n: nat): Point<D> {
    Point(p.t.(ended := p.t.flags.oncePerFunc || (p.t.flags.oneActPerFunc && n > 0)), p.s)
  }

  /** One call: nothing when the action is at its end, and otherwise its passes, whose counts are added up. */
  ghost predicate IsCall<D(!new)>(w: World<D>, p: Point<D>, c: Call<D>)
    decreases c
  {
    if p.t.ended then c == Call([], p, 0)
    else
      && Repeated(p.t.flags.repeatApply, c.passes) && ArePasses(w, p, c.passes)
      && c.count == PassCount(c.passes) && c.end == Closed(c.passes[|c.passes| - 1].end, c.count)
  }

  ghost predicate ArePasses<D(!new)>(w: World<D>, p: Point<D>, passes: seq<Pass<D>>)
    decreases passes
  {
    passes != [] ==> IsPass(w, p, passes[0]) && ArePasses(w, passes[0].end, passes[1..])
  }

  /**
   One pass: a leaf is applied and logged once; a group calls its children in order from
   the first, and a restart group, unless it is finished, does so in rounds.
   */
  ghost predicate IsPass<D(!new)>(w: World<D>, p: Point<D>, q: Pass<D>)
    decreases q
  {
    match p.t.kind
    case One(id) =>
      var (d, n) := w.apply(id, p.s.data);
      q == Pass([], Point(p.t, St(d, p.s.log + [id])), n)
    case Several(list, restart) =>
      if restart.None? then
        && |q.rounds| == 1 && IsRound(w, list, p.s, q.rounds[0].calls)
        && q.count == CallCount(q.rounds[0].calls)
        && q.end == Point(p.t.(kind := Several(Ends(q.rounds[0].calls), None)), EndState(p.s, q.rounds[0].calls))
      else if restart.value.cur == -1 then q == Pass([], p, 0)
      else
        && q.count == RoundCount(q.rounds) && q.end.t.kind.Several? && q.end.t == p.t.(kind := q.end.t.kind)
        && AreRounds(w, list, p.s, restart.value, q.rounds, q.end.t.kind, q.end.s)
  }

  /** Each child is called once, on what the one before left. */
  ghost predicate IsRound<D(!new)>(w: World<D>, list: seq<Task>, s: St<D>, calls: seq<Call<D>>)
    decreases calls
  {
    && |calls| == |list|
    && (calls != [] ==> IsCall(w, Point(list[0], s), calls[0]) && IsRound(w, list[1..], calls[0].end.s, calls[1..]))
  }

  /** Another round is asked for and allowed. */
  predicate Again<D(!new)>(w: World<D>, d: D, k: Restarts) { w.pending(d) && !w.jumptable(d) && k.cur + 1 <= k.max }

  /** Where the last round leaves the group: finished, unless it stopped for jump-table recovery. */
  function Settled<D(!new)>(w: World<D>, list: seq<Task>, k: Restarts, d: D): Kind {
    Several(list, Some(if w.pending(d) && w.jumptable(d) then k else k.(cur := -1)))
  }

  /** Too many restarts are reported. */
  function Reported<D(!new)>(w: World<D>, s: St<D>): St<D> {
    if w.pending(s.data) && !w.jumptable(s.data) then s.(data := w.warn(s.data)) else s
  }

  /** Every round but the first starts on cleared data with the children reset. */
  ghost predicate AreRounds<D(!new)>(w: World<D>, list: seq<Task>, s: St<D>, k: Restarts, rounds: seq<Round<D>>, kind: Kind, t: St<D>)
    decreases rounds
  {
    && rounds != [] && IsRound(w, list, s, rounds[0].calls)
    && var children, u := Ends(rounds[0].calls), EndState(s, rounds[0].calls);
       if |rounds| == 1 then !Again(w, u.data, k) && kind == Settled(w, children, k, u.data) && t == Reported(w, u)
       else
         && Again(w, u.data, k)
         && AreRounds(w, AllRenewed(children), u.(data := LeavesReset(w, AllLeaves(children), w.clear(u.data))), k.(cur := k.cur + 1), rounds[1..], kind, t)
  }

  // ----- actions at rest -----

  predicate Quiet(r: Regs) { r.breaks == Breaks(false, false, false, false) }

  /** Between calls, and without breakpoints. */
  predicate AtRest(a: Action)
    decreases a
  {
    (a.status.Start? || a.status.End?) && Quiet(a.r) && RestingBody(a.body)
  }

  predicate RestingBody(b: Body)
    decreases b
  {
    b.Group? ==> AllAtRest(b.list)
  }

  predicate AllAtRest(list: seq<Action>)
    decreases list
  {
    list != [] ==> AtRest(list[0]) && AllAtRest(list[1..])
  }

  function TaskOf(a: Action): Task
    decreases a, 1
  {
    TaskFrom(a.r, a.body, a.status.End?)
  }

  function TaskFrom(r: Regs, b: Body, ended: bool): Task
    decreases b
  {
    Task(r.flags, ended, match b case Leaf(id) => One(id) case Group(list) => Several(TasksOf(list), r.restart))
  }

  function TasksOf(list: seq<Action>): (out: seq<Task>)
    ensures |out| == |list|
    decreases list
  {
    if list == [] then [] else [TaskOf(list[0])] + TasksOf(list[1..])
  }

  lemma TaskHas(a: Action)
    ensures TaskOf(a) == TaskFrom(a.r, a.body, a.status.End?)
    ensures TaskOf(a).ended == a.status.End? && TaskOf(a).flags == a.r.flags
  {
  }

  lemma {:induction false} AtRestAt(list: seq<Action>, i: nat)
    requires AllAtRest(list) && i < |list|
    ensures AtRest(list[i])
  {
    if i > 0 { AtRestAt(list[1..], i - 1); }
  }

  lemma {:induction false} AtRestUpdate(list: seq<Action>, i: nat, c: Action)
    requires AllAtRest(list) && i < |list| && AtRest(c)
    ensures AllAtRest(list[i := c])
  {
    if i == 0 {
      assert list[i := c][1..] == list[1..];
    } else {
      AtRestUpdate(list[1..], i - 1, c);
      assert list[i := c][1..] == list[1..][i - 1 := c];
    }
  }

  lemma {:induction false} ResetIsRenewed(a: Action)
    ensures TaskOf(Reset(a)) == Renewed(TaskOf(a)) && (AtRest(a) ==> AtRest(Reset(a)))
    decreases a
  {
    if a.body.Group? {
      ResetAreRenewed(a.body.list);
      assert RestingBody(a.body) == AllAtRest(a.body.list);
      assert RestingBody(Group(ResetAll(a.body.list))) == AllAtRest(ResetAll(a.body.list));
    }
  }

  lemma {:induction false} ResetAreRenewed(list: seq<Action>)
    ensures TasksOf(ResetAll(list)) == AllRenewed(TasksOf(list)) && (AllAtRest(list) ==> AllAtRest(ResetAll(list)))
    decreases list
  {
    if list != [] {
      ResetIsRenewed(list[0]);
      ResetAreRenewed(list[1..]);
      assert ResetAll(list)[1..] == ResetAll(list[1..]);
      assert TasksOf(list)[1..] == TasksOf(list[1..]);
    }
  }

  lemma {:induction false} ResetByLeaves<D(!new)>(w: World<D>, a: Action, d: D)
    ensures ResetData(w, a, d) == LeavesReset(w, Leaves(TaskOf(a)), d)
    decreases a
  {
    match a.body
    case Leaf(id) => assert LeavesReset(w, [id], d) == LeavesReset(w, [], w.reset(id, d));
    case Group(list) => ResetAllByLeaves(w, list, d);
  }

  lemma {:induction false} ResetAllByLeaves<D(!new)>(w: World<D>, list: seq<Action>, d: D)
    ensures ResetDataAll(w, list, d) == LeavesReset(w, AllLeaves(TasksOf(list)), d)
    decreases list
  {
    if list != [] {
      ResetByLeaves(w, list[0], d);
      ResetAllByLeaves(w, list[1..], ResetData(w, list[0], d));
      LeavesInOrder(w, Leaves(TaskOf(list[0])), AllLeaves(TasksOf(list[1..])), d);
      assert TasksOf(list)[1..] == TasksOf(list[1..]);
    }
  }

  lemma {:induction false} LeavesInOrder<D(!new)>(w: World<D>, a: seq<nat>, b: seq<nat>, d: D)
    ensures LeavesReset(w, a + b, d) == LeavesReset(w, b, LeavesReset(w, a, d))
  {
    if a == [] {
      assert a + b == b;
    } else {
      assert (a + b)[1..] == a[1..] + b;
      LeavesInOrder(w, a[1..], b, w.reset(a[0], d));
    }
  }

  // ----- a completed run has a history -----

  /** What a pass changes of the fields. */
  ghost predicate SameFields(r: Regs, q: Regs) { q.flags == r.flags && q.breaks == r.breaks && q.lcount == r.lcount }

  lemma {:induction false} PerformIsCall<D(!new)>(w: World<D>, a: Action, s: St<D>, f: nat) returns (c: Call<D>)
    requires AtRest(a) && Perform(w, a, s, f).Done?
    ensures var out := Perform(w, a, s, f);
      AtRest(out.a) && IsCall(w, Point(TaskOf(a), s), c) && c.end == Point(TaskOf(out.a), out.s) && c.count == out.count
    decreases f, a, 5
  {
    var p, out := Point(TaskOf(a), s), Perform(w, a, s, f);
    TaskHas(a);
    if a.status.End? {
      c := Call([], p, 0);
    } else {
      var r := a.r.(count := 0, lcount := 0);
      TaskHas(out.a);
      assert out == Attempt(w, false, r, a.body, s, f - 1);
      assert TaskFrom(r, a.body, false) == TaskOf(a);
      var passes := AttemptIsPasses(w, r, a.body, s, f - 1);
      c := Call(passes, Point(TaskOf(out.a), out.s), out.count);
    }
  }

  lemma {:induction false} AttemptIsPasses<D(!new)>(w: World<D>, r: Regs, body: Body, s: St<D>, f: nat) returns (passes: seq<Pass<D>>)
    requires Quiet(r) && RestingBody(body) && r.lcount == r.count && Attempt(w, false, r, body, s, f).Done?
    ensures var out := Attempt(w, false, r, body, s, f);
      && Repeated(r.flags.repeatApply, passes) && ArePasses(w, Point(TaskFrom(r, body, false), s), passes)
      && out.count == out.a.r.count == r.count + PassCount(passes)
      && AtRest(out.a) && out.a.r.flags == r.flags && out.a.status == FinalStatus(out.a.r)
      && passes[|passes| - 1].end == Point(TaskFrom(out.a.r, out.a.body, false), out.s)
    decreases f, body, 4
  {
    var q := ApplyIsPass(w, r, body, s, f);
    var out := Apply(w, false, r, body, s, f);
    passes := [q];
    if q.count > 0 && r.flags.repeatApply {
      var r' := out.r.(lcount := out.r.count);
      AttemptAgain(w, r, body, s, f);
      var rest := AttemptIsPasses(w, r', out.body, out.s, out.left - 1);
      passes := [q] + rest;
      assert passes[1..] == rest;
      assert TaskFrom(r', out.body, false) == TaskFrom(out.r, out.body, false);
    } else {
      assert passes[1..] == [];
    }
  }

  /** After a pass that counts, a repeated action makes another. */
  lemma {:induction false} AttemptAgain<D(!new)>(w: World<D>, r: Regs, body: Body, s: St<D>, f: nat)
    requires var out := Apply(w, false, r, body, s, f);
      out.Ok? && out.left > 0 && Quiet(out.r) && out.r.flags.repeatApply && out.r.lcount < out.r.count
    ensures var out := Apply(w, false, r, body, s, f);
      Attempt(w, false, r, body, s, f) == Attempt(w, false, out.r.(lcount := out.r.count), out.body, out.s, out.left - 1)
  {
    var out := Apply(w, false, r, body, s, f);
    assert Attempt(w, false, r, body, s, f) == Finish(w, out.r, out.body, out.s, out.left);
    assert Finish(w, out.r, out.body, out.s, out.left) == Perform(w, Action(Repeat, out.r, out.body), out.s, out.left - 1);
  }

  lemma {:induction false} ApplyIsPass<D(!new)>(w: World<D>, r: Regs, body: Body, s: St<D>, f: nat) returns (q: Pass<D>)
    requires Quiet(r) && RestingBody(body) && Apply(w, false, r, body, s, f).Ok?
    ensures var out := Apply(w, false, r, body, s, f);
      && IsPass(w, Point(TaskFrom(r, body, false), s), q) && q.end == Point(TaskFrom(out.r, out.body, false), out.s)
      && out.r.count == r.count + q.count && SameFields(r, out.r) && RestingBody(out.body)
    decreases f, body, 3
  {
    var out := Apply(w, false, r, body, s, f);
    var end := Point(TaskFrom(out.r, out.body, false), out.s);
    if body.Leaf? {
      var (d, n) := w.apply(body.id, s.data);
      q := Pass([], end, n);
    } else if r.restart.None? {
      GroupIsChildren(w, false, r, body.list, s, f);
      var calls := ChildrenIsRound(w, Entered(false, r), body.list, s, f);
      q := Pass([Round(calls)], end, CallCount(calls));
      assert body.list[0..] == body.list && out.body.list[0..] == out.body.list;
    } else if r.restart.value.cur == -1 {
      q := Pass([], end, 0);
    } else {
      GroupIsLoop(w, false, r, body.list, s, f);
      var rounds := LoopIsRounds(w, Entered(false, r), body.list, s, f);
      q := Pass(rounds, end, RoundCount(rounds));
    }
  }

  lemma {:induction false} ChildrenIsRound<D(!new)>(w: World<D>, r: Regs, list: seq<Action>, s: St<D>, f: nat) returns (calls: seq<Call<D>>)
    requires Quiet(r) && AllAtRest(list) && r.state <= |list| && Children(w, r, list, s, f).Ok?
    ensures var out := Children(w, r, list, s, f);
      && out.body.list[..r.state] == list[..r.state] && AllAtRest(out.body.list)
      && IsRound(w, TasksOf(list[r.state..]), s, calls)
      && TasksOf(out.body.list[r.state..]) == Ends(calls) && out.s == EndState(s, calls)
      && out.r.count == r.count + CallCount(calls) && SameFields(r, out.r)
    decreases f, list, 1
  {
    var out := Children(w, r, list, s, f);
    calls := [];
    if r.state < |list| {
      AtRestAt(list, r.state);
      var o := Perform(w, list[r.state], s, f);
      var c := PerformIsCall(w, list[r.state], s, f);
      var r', list' := r.(state := r.state + 1, count := r.count + o.count), list[r.state := o.a];
      ChildrenNext(w, r, list, s, f, o.a, o.s, o.count, o.left);
      AtRestUpdate(list, r.state, o.a);
      var rest := ChildrenIsRound(w, r', list', o.s, o.left - 1);
      calls := [c] + rest;
      RoundNext(w, list, r.state, o.a, out.body.list, s, c, rest);
    }
  }

  lemma {:induction false} RoundNext<D(!new)>(w: World<D>, list: seq<Action>, i: nat, a: Action, last: seq<Action>, s: St<D>, c: Call<D>, rest: seq<Call<D>>)
    requires i < |list| == |last| && last[..i + 1] == list[i := a][..i + 1]
    requires IsCall(w, Point(TaskOf(list[i]), s), c) && c.end.t == TaskOf(a)
    requires IsRound(w, TasksOf(list[i := a][i + 1..]), c.end.s, rest) && TasksOf(last[i + 1..]) == Ends(rest)
    ensures last[..i] == list[..i]
    ensures IsRound(w, TasksOf(list[i..]), s, [c] + rest) && TasksOf(last[i..]) == Ends([c] + rest)
    ensures EndState(s, [c] + rest) == EndState(c.end.s, rest) && CallCount([c] + rest) == c.count + CallCount(rest)
  {
    assert ([c] + rest)[1..] == rest;
    assert list[i := a][i + 1..] == list[i..][1..];
    assert last[i..][1..] == last[i + 1..];
    assert last[i] == last[..i + 1][i] == a;
    assert last[..i] == last[..i + 1][..i] == list[..i];
    assert TasksOf(list[i..])[1..] == TasksOf(list[i..][1..]);
  }

  lemma {:induction false} LoopIsRounds<D(!new)>(w: World<D>, r: Regs, list: seq<Action>, s: St<D>, f: nat) returns (rounds: seq<Round<D>>)
    requires Quiet(r) && AllAtRest(list) && r.state == 0 && r.restart.Some? && RestartLoop(w, r, list, s, f).Ok?
    ensures var out := RestartLoop(w, r, list, s, f);
      && out.body.Group? && AllAtRest(out.body.list) && SameFields(r, out.r) && out.r.count == r.count + RoundCount(rounds)
      && AreRounds(w, TasksOf(list), s, r.restart.value, rounds, Several(TasksOf(out.body.list), out.r.restart), out.s)
    decreases f, list, 2
  {
    var k, o := r.restart.value, Children(w, r, list, s, f);
    var calls := ChildrenIsRound(w, r, list, s, f);
    assert list[0..] == list && o.body.list[0..] == o.body.list;
    RestartNext(w, r, list, s, f, o);
    rounds := [Round(calls)];
    if Again(w, o.s.data, k) {
      var (r', list', s') := Restarted(w, o.r, o.body.list, o.s);
      ResetAreRenewed(o.body.list);
      ResetAllByLeaves(w, o.body.list, w.clear(o.s.data));
      var rest := LoopIsRounds(w, r', list', s', o.left);
      rounds := [Round(calls)] + rest;
      assert rounds[1..] == rest;
    }
  }

  // ----- whatever has a history completes -----

  function CallCost<D>(c: Call<D>): nat
    decreases c
  {
    if c.passes == [] then 0 else 1 + PassesCost(c.passes)
  }

  function PassesCost<D>(passes: seq<Pass<D>>): nat
    decreases passes
  {
    if passes == [] then 0 else PassCost(passes[0]) + 1 + PassesCost(passes[1..])
  }

  function PassCost<D>(q: Pass<D>): nat
    decreases q
  {
    if q.rounds == [] then 1 else RoundsCost(q.rounds)
  }

  function RoundsCost<D>(rounds: seq<Round<D>>): nat
    decreases rounds
  {
    if rounds == [] then 0 else CallsCost(rounds[0].calls) + RoundsCost(rounds[1..])
  }

  function CallsCost<D>(calls: seq<Call<D>>): nat
    decreases calls
  {
    if calls == [] then 1 else CallCost(calls[0]) + 1 + CallsCost(calls[1..])
  }

  lemma {:induction false} CallCompletes<D(!new)>(w: World<D>, a: Action, s: St<D>, c: Call<D>, x: nat)
    requires AtRest(a) && IsCall(w, Point(TaskOf(a), s), c)
    ensures var out := Perform(w, a, s, CallCost(c) + x);
      out.Done? && AtRest(out.a) && c.end == Point(TaskOf(out.a), out.s) && out.count == c.count && out.left == x
    decreases c
  {
    if !a.status.End? {
      var r := a.r.(count := 0, lcount := 0);
      assert TaskFrom(r, a.body, false) == TaskOf(a);
      PassesComplete(w, r, a.body, s, c.passes, x);
      assert Perform(w, a, s, CallCost(c) + x) == Attempt(w, false, r, a.body, s, PassesCost(c.passes) + x);
    }
  }

  lemma {:induction false} PassesComplete<D(!new)>(w: World<D>, r: Regs, body: Body, s: St<D>, passes: seq<Pass<D>>, x: nat)
    requires Quiet(r) && RestingBody(body) && r.lcount == r.count
    requires Repeated(r.flags.repeatApply, passes) && ArePasses(w, Point(TaskFrom(r, body, false), s), passes)
    ensures var out := Attempt(w, false, r, body, s, PassesCost(passes) + x);
      && out.Done? && out.count == out.a.r.count == r.count + PassCount(passes) && out.left == x
      && AtRest(out.a) && out.a.r.flags == r.flags && out.a.status == FinalStatus(out.a.r)
      && passes[|passes| - 1].end == Point(TaskFrom(out.a.r, out.a.body, false), out.s)
    decreases passes
  {
    var q, rest := passes[0], passes[1..];
    PassCompletes(w, r, body, s, q, 1 + PassesCost(rest) + x);
    var out := Apply(w, false, r, body, s, PassesCost(passes) + x);
    if |passes| > 1 {
      var r' := out.r.(lcount := out.r.count);
      AttemptAgain(w, r, body, s, PassesCost(passes) + x);
      assert TaskFrom(r', out.body, false) == TaskFrom(out.r, out.body, false);
      PassesComplete(w, r', out.body, out.s, rest, x);
    }
  }

  lemma {:induction false} PassCompletes<D(!new)>(w: World<D>, r: Regs, body: Body, s: St<D>, q: Pass<D>, x: nat)
    requires Quiet(r) && RestingBody(body) && IsPass(w, Point(TaskFrom(r, body, false), s), q)
    ensures var out := Apply(w, false, r, body, s, PassCost(q) + x);
      && out.Ok? && out.left == x && q.end == Point(TaskFrom(out.r, out.body, false), out.s)
      && out.r.count == r.count + q.count && SameFields(r, out.r) && RestingBody(out.body)
    decreases q
  {
    if body.Group? {
      var f := PassCost(q) + x;
      if r.restart.None? {
        GroupIsChildren(w, false, r, body.list, s, f);
        assert RoundsCost(q.rounds) == CallsCost(q.rounds[0].calls) + RoundsCost(q.rounds[1..]);
        FirstRound(w, Entered(false, r), body.list, s, q.rounds[0].calls, x);
      } else if r.restart.value.cur != -1 {
        GroupIsLoop(w, false, r, body.list, s, f);
        RoundsComplete(w, Entered(false, r), body.list, s, q.rounds, q.end.t.kind, q.end.s, x);
      }
    }
  }

  /** The group's children from `state` on were called as `calls` says. */
  ghost predicate RoundDone<D(!new)>(r: Regs, list: seq<Action>, s: St<D>, calls: seq<Call<D>>, x: nat, out: Applied<D>)
    requires r.state <= |list|
  {
    && out.Ok? && out.left == x && out.body.Group? && |out.body.list| == |list|
    && out.body.list[..r.state] == list[..r.state] && AllAtRest(out.body.list)
    && TasksOf(out.body.list[r.state..]) == Ends(calls) && out.s == EndState(s, calls)
    && out.r.count == r.count + CallCount(calls) && SameFields(r, out.r)
  }

  lemma {:induction false} RoundCompletes<D(!new)>(w: World<D>, r: Regs, list: seq<Action>, s: St<D>, calls: seq<Call<D>>, x: nat)
    requires Quiet(r) && AllAtRest(list) && r.state <= |list| && IsRound(w, TasksOf(list[r.state..]), s, calls)
    ensures RoundDone(r, list, s, calls, x, Children(w, r, list, s, CallsCost(calls) + x))
    decreases calls, 2
  {
    if r.state < |list| {
      var f := CallCost(calls[0]) + 1 + CallsCost(calls[1..]) + x;
      RoundParts(w, list, r.state, s, calls);
      AtRestAt(list, r.state);
      CallCompletes(w, list[r.state], s, calls[0], 1 + CallsCost(calls[1..]) + x);
      AfterFirst(w, r, list, s, calls, x, f);
      assert f == CallsCost(calls) + x;
    } else {
      NoneLeft(w, r, list, s, 1 + x);
    }
  }

  lemma {:induction false} NoneLeft<D(!new)>(w: World<D>, r: Regs, list: seq<Action>, s: St<D>, f: nat)
    requires AllAtRest(list) && r.state == |list| && f > 0
    ensures RoundDone(r, list, s, [], f - 1, Children(w, r, list, s, f))
  {
  }

  lemma {:induction false} AfterFirst<D(!new)>(w: World<D>, r: Regs, list: seq<Action>, s: St<D>, calls: seq<Call<D>>, x: nat, f: nat)
    requires Quiet(r) && AllAtRest(list) && r.state < |list| && calls != []
    requires IsCall(w, Point(TaskOf(list[r.state]), s), calls[0]) && IsRound(w, TasksOf(list[r.state + 1..]), calls[0].end.s, calls[1..])
    requires var o := Perform(w, list[r.state], s, f);
      && o.Done? && AtRest(o.a) && calls[0].end == Point(TaskOf(o.a), o.s) && o.count == calls[0].count
      && o.left == 1 + CallsCost(calls[1..]) + x
    ensures RoundDone(r, list, s, calls, x, Children(w, r, list, s, f))
    decreases calls, 1
  {
    var o := Perform(w, list[r.state], s, f);
    OthersComplete(w, r, list, calls, x, o.a);
    OneMore(w, r, list, s, f, o);
    OneMoreDone(w, r, list, s, calls, x, o.a, Children(w, r, list, s, f));
  }

  lemma {:induction false} OthersComplete<D(!new)>(w: World<D>, r: Regs, list: seq<Action>, calls: seq<Call<D>>, x: nat, a: Action)
    requires Quiet(r) && AllAtRest(list) && r.state < |list| && AtRest(a)
    requires calls != [] && IsRound(w, TasksOf(list[r.state + 1..]), calls[0].end.s, calls[1..])
    ensures var r', list' := r.(state := r.state + 1, count := r.count + calls[0].count), list[r.state := a];
      RoundDone(r', list', calls[0].end.s, calls[1..], x, Children(w, r', list', calls[0].end.s, CallsCost(calls[1..]) + x))
    decreases calls, 0
  {
    AtRestUpdate(list, r.state, a);
    assert list[r.state := a][r.state + 1..] == list[r.state + 1..];
    RoundCompletes(w, r.(state := r.state + 1, count := r.count + calls[0].count), list[r.state := a], calls[0].end.s, calls[1..], x);
  }

  lemma {:induction false} RoundParts<D(!new)>(w: World<D>, list: seq<Action>, i: nat, s: St<D>, calls: seq<Call<D>>)
    requires i < |list| && IsRound(w, TasksOf(list[i..]), s, calls)
    ensures calls != [] && IsCall(w, Point(TaskOf(list[i]), s), calls[0])
    ensures IsRound(w, TasksOf(list[i + 1..]), calls[0].end.s, calls[1..])
  {
    assert list[i..][1..] == list[i + 1..];
    assert TasksOf(list[i..])[1..] == TasksOf(list[i + 1..]);
  }

  lemma {:induction false} OneMoreDone<D(!new)>(w: World<D>, r: Regs, list: seq<Action>, s: St<D>, calls: seq<Call<D>>, x: nat, a: Action, out: Applied<D>)
    requires r.state < |list| && calls != [] && IsCall(w, Point(TaskOf(list[r.state]), s), calls[0]) && calls[0].end.t == TaskOf(a)
    requires IsRound(w, TasksOf(list[r.state + 1..]), calls[0].end.s, calls[1..])
    requires RoundDone(r.(state := r.state + 1, count := r.count + calls[0].count), list[r.state := a], calls[0].end.s, calls[1..], x, out)
    ensures RoundDone(r, list, s, calls, x, out)
  {
    assert list[r.state := a][r.state + 1..] == list[r.state + 1..];
    RoundNext(w, list, r.state, a, out.body.list, s, calls[0], calls[1..]);
    assert [calls[0]] + calls[1..] == calls;
  }

  lemma {:induction false} OneMore<D(!new)>(w: World<D>, r: Regs, list: seq<Action>, s: St<D>, f: nat, o: Result<D>)
    requires Quiet(r) && r.state < |list| && o == Perform(w, list[r.state], s, f) && o.Done? && o.left > 0
    ensures Children(w, r, list, s, f) == Children(w, r.(state := r.state + 1, count := r.count + o.count), list[r.state := o.a], o.s, o.left - 1)
  {
    ChildrenNext(w, r, list, s, f, o.a, o.s, o.count, o.left);
  }

  /** The restart group's rounds were made as `rounds` says. */
  ghost predicate LoopDone<D(!new)>(r: Regs, rounds: seq<Round<D>>, kind: Kind, t: St<D>, x: nat, out: Applied<D>) {
    && out.Ok? && out.left == x && out.body.Group? && AllAtRest(out.body.list) && SameFields(r, out.r)
    && out.r.count == r.count + RoundCount(rounds) && kind == Several(TasksOf(out.body.list), out.r.restart) && t == out.s
  }

  lemma {:induction false} RoundsComplete<D(!new)>(w: World<D>, r: Regs, list: seq<Action>, s: St<D>, rounds: seq<Round<D>>, kind: Kind, t: St<D>, x: nat)
    requires Quiet(r) && AllAtRest(list) && r.state == 0 && r.restart.Some?
    requires AreRounds(w, TasksOf(list), s, r.restart.value, rounds, kind, t)
    ensures LoopDone(r, rounds, kind, t, x, RestartLoop(w, r, list, s, RoundsCost(rounds) + x))
    decreases rounds, 1
  {
    var calls, y := rounds[0].calls, RoundsCost(rounds[1..]) + x;
    FirstRound(w, r, list, s, calls, y);
    if |rounds| > 1 {
      OtherRounds(w, r, list, s, rounds, kind, t, x, CallsCost(calls) + y);
    } else {
      LastRound(w, r, list, s, rounds, kind, t, CallsCost(calls) + y);
    }
  }

  lemma {:induction false} OtherRounds<D(!new)>(w: World<D>, r: Regs, list: seq<Action>, s: St<D>, rounds: seq<Round<D>>, kind: Kind, t: St<D>, x: nat, f: nat)
    requires Quiet(r) && AllAtRest(list) && r.restart.Some? && |rounds| > 1
    requires AreRounds(w, TasksOf(list), s, r.restart.value, rounds, kind, t)
    requires var out := Children(w, r, list, s, f);
      && out.Ok? && out.left == RoundsCost(rounds[1..]) + x && out.body.Group? && AllAtRest(out.body.list)
      && TasksOf(out.body.list) == Ends(rounds[0].calls) && out.s == EndState(s, rounds[0].calls)
      && SameFields(r, out.r) && out.r.count == r.count + CallCount(rounds[0].calls)
    ensures LoopDone(r, rounds, kind, t, x, RestartLoop(w, r, list, s, f))
    decreases rounds, 0
  {
    AnotherRound(w, r, list, s, rounds, kind, t, f);
    var o := Children(w, r, list, s, f);
    var (r', list', s') := Restarted(w, o.r, o.body.list, o.s);
    RoundsComplete(w, r', list', s', rounds[1..], kind, t, x);
  }

  lemma {:induction false} FirstRound<D(!new)>(w: World<D>, r: Regs, list: seq<Action>, s: St<D>, calls: seq<Call<D>>, x: nat)
    requires Quiet(r) && AllAtRest(list) && r.state == 0 && IsRound(w, TasksOf(list), s, calls)
    ensures var out := Children(w, r, list, s, CallsCost(calls) + x);
      && out.Ok? && out.left == x && out.body.Group? && AllAtRest(out.body.list) && TasksOf(out.body.list) == Ends(calls) && out.s == EndState(s, calls)
      && SameFields(r, out.r) && out.r.count == r.count + CallCount(calls)
    decreases calls, 3
  {
    assert list[0..] == list;
    RoundCompletes(w, r, list, s, calls, x);
    var out := Children(w, r, list, s, CallsCost(calls) + x);
    assert out.body.list[0..] == out.body.list;
  }

  lemma {:induction false} LastRound<D(!new)>(w: World<D>, r: Regs, list: seq<Action>, s: St<D>, rounds: seq<Round<D>>, kind: Kind, t: St<D>, f: nat)
    requires r.restart.Some? && |rounds| == 1 && AreRounds(w, TasksOf(list), s, r.restart.value, rounds, kind, t)
    requires var out := Children(w, r, list, s, f);
      && out.Ok? && AllAtRest(out.body.list) && TasksOf(out.body.list) == Ends(rounds[0].calls) && out.s == EndState(s, rounds[0].calls)
      && SameFields(r, out.r) && out.r.count == r.count + CallCount(rounds[0].calls)
    ensures LoopDone(r, rounds, kind, t, Children(w, r, list, s, f).left, RestartLoop(w, r, list, s, f))
  {
    RestartNext(w, r, list, s, f, Children(w, r, list, s, f));
    assert RoundCount(rounds) == CallCount(rounds[0].calls) + RoundCount(rounds[1..]);
  }

  lemma {:induction false} AnotherRound<D(!new)>(w: World<D>, r: Regs, list: seq<Action>, s: St<D>, rounds: seq<Round<D>>, kind: Kind, t: St<D>, f: nat)
    requires Quiet(r) && AllAtRest(list) && r.restart.Some? && |rounds| > 1
    requires AreRounds(w, TasksOf(list), s, r.restart.value, rounds, kind, t)
    requires var out := Children(w, r, list, s, f);
      out.Ok? && AllAtRest(out.body.list) && TasksOf(out.body.list) == Ends(rounds[0].calls) && out.s == EndState(s, rounds[0].calls)
    ensures var out := Children(w, r, list, s, f);
      var (r', list', s') := Restarted(w, out.r, out.body.list, out.s);
      && RestartLoop(w, r, list, s, f) == RestartLoop(w, r', list', s', out.left)
      && AllAtRest(list') && r'.restart.Some?
      && AreRounds(w, TasksOf(list'), s', r'.restart.value, rounds[1..], kind, t)
  {
    var out := Children(w, r, list, s, f);
    RestartNext(w, r, list, s, f, out);
    ResetAreRenewed(out.body.list);
    ResetAllByLeaves(w, out.body.list, w.clear(out.s.data));
  }

  // ----- completed calls are the calls with a history -----

  /** The call has a history with this end and count. */
  ghost predicate ComesTo<D(!new)>(w: World<D>, p: Point<D>, end: Point<D>, n: nat) {
    exists c: Call<D> :: IsCall(w, p, c) && c.end == end && c.count == n
  }

  ghost predicate Completes<D(!new)>(w: World<D>, a: Action, s: St<D>, end: Point<D>, n: nat) {
    exists f: nat :: CompletesIn(w, a, s, f, end, n)
  }

  ghost predicate CompletesIn<D(!new)>(w: World<D>, a: Action, s: St<D>, f: nat, end: Point<D>, n: nat) {
    var out := Perform(w, a, s, f);
    out.Done? && AtRest(out.a) && end == Point(TaskOf(out.a), out.s) && n == out.count
  }

  /**
   A call without breakpoints completes exactly when it has a history, and then with the
   data, the log, the count and the status of the action and of everything below it that
   the history says.
   */
  lemma CompletesExactly<D(!new)>(w: World<D>, a: Action, s: St<D>, end: Point<D>, n: nat)
    requires AtRest(a)
    ensures Completes(w, a, s, end, n) <==> ComesTo(w, Point(TaskOf(a), s), end, n)
  {
    if Completes(w, a, s, end, n) {
      var f: nat :| CompletesIn(w, a, s, f, end, n);
      var c := PerformIsCall(w, a, s, f);
    }
    if ComesTo(w, Point(TaskOf(a), s), end, n) {
      var c: Call<D> :| IsCall(w, Point(TaskOf(a), s), c) && c.end == end && c.count == n;
      CallCompletes(w, a, s, c, 0);
      assert CompletesIn(w, a, s, CallCost(c), end, n);
    }
  }

  /** A completed run of the driver is such a call, whatever it leaves of the budget. */
  lemma CompletedRun<D(!new)>(w: World<D>, a: Action, s: St<D>, f: nat)
    requires AtRest(a) && Perform(w, a, s, f).Done?
    ensures var out := Perform(w, a, s, f);
      AtRest(out.a) && ComesTo(w, Point(TaskOf(a), s), Point(TaskOf(out.a), out.s), out.count)
  {
    var c := PerformIsCall(w, a, s, f);
  }

  /** A call has one end. */
  lemma OneEnd<D(!new)>(w: World<D>, a: Action, s: St<D>, e1: Point<D>, n1: nat, e2: Point<D>, n2: nat)
    requires AtRest(a) && ComesTo(w, Point(TaskOf(a), s), e1, n1) && ComesTo(w, Point(TaskOf(a), s), e2, n2)
    ensures e1 == e2 && n1 == n2
  {
    var c1: Call<D> :| IsCall(w, Point(TaskOf(a), s), c1) && c1.end == e1 && c1.count == n1;
    var c2: Call<D> :| IsCall(w, Point(TaskOf(a), s), c2) && c2.end == e2 && c2.count == n2;
    CallCompletes(w, a, s, c1, CallCost(c2));
    CallCompletes(w, a, s, c2, CallCost(c1));
  }

  /** However often it is broken off and resumed, a driven run comes to what the call of the same action without breakpoints comes to. */
  lemma DrivenRun<D(!new)>(w: World<D>, arm: (nat, Action) -> Action, a: Action, s: St<D>, f: nat)
    requires forall i: nat, b: Action :: Strip(arm(i, b)) == Strip(b)
    requires AtRest(Strip(a)) && Drive(w, arm, 0, a, s, f).Done?
    ensures var out := Drive(w, arm, 0, a, s, f);
      AtRest(Strip(out.a)) && ComesTo(w, Point(TaskOf(Strip(a)), s), Point(TaskOf(Strip(out.a)), out.s), out.count)
  {
    ResumingIsTransparent(w, arm, 0, a, s, f);
    CompletedRun(w, Strip(a), s, f);
  }

  /** A leaf that can change the data twice is applied three times when it is repeated, and once when it is not. */
  lemma RepeatedLeaf(w: World<nat>, t: Task, s: St<nat>)
    requires s == St(2, []) && !t.ended && t.kind == One(7) && !t.flags.oncePerFunc && !t.flags.oneActPerFunc
    requires w.apply(7, 2) == (1, 1) && w.apply(7, 1) == (0, 1) && w.apply(7, 0) == (0, 0)
    ensures t.flags.repeatApply ==> ComesTo(w, Point(t, s), Point(t, St(0, [7, 7, 7])), 2)
    ensures !t.flags.repeatApply ==> ComesTo(w, Point(t, s), Point(t, St(1, [7])), 1)
  {
    var first := Pass([], Point(t, St(1, [7])), 1);
    var second := Pass([], Point(t, St(0, [7, 7])), 1);
    var third := Pass([], Point(t, St(0, [7, 7, 7])), 0);
    assert t.(ended := false) == t;
    assert Closed(third.end, 2) == third.end && Closed(first.end, 1) == first.end;
    if t.flags.repeatApply {
      PassesFrom(w, second.end, third, []);
      PassesFrom(w, first.end, second, [third]);
      PassesFrom(w, Point(t, s), first, [second, third]);
      assert [first] + [second, third] == [first, second, third] && [second] + [third] == [second, third] && [third] + [] == [third];
      assert IsCall(w, Point(t, s), Call([first, second, third], third.end, 2));
    } else {
      PassesFrom(w, Point(t, s), first, []);
      assert [first] + [] == [first];
      assert IsCall(w, Point(t, s), Call([first], first.end, 1));
    }
  }

  lemma {:induction false} PassesFrom<D(!new)>(w: World<D>, p: Point<D>, q: Pass<D>, rest: seq<Pass<D>>)
    requires IsPass(w, p, q) && ArePasses(w, q.end, rest)
    ensures ArePasses(w, p, [q] + rest) && PassCount([q] + rest) == q.count + PassCount(rest)
  {
    assert ([q] + rest)[1..] == rest;
  }
}
