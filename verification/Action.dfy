/**
 The driver of transformation passes (pkg/pcode/action.go:261-325, 487-511, 606-635):
 leaf actions, groups and restart groups, with repeats, breakpoints and the status
 fields from which an interrupted run is resumed.

 A run is a function of the action tree, the data and a budget of steps; every result
 carries the budget left, so that an interrupted run and its resumption together
 spend what the uninterrupted run does.
 */
module Actions {
  import opened Options

  /** The data transformed: what a leaf does to it and how much it counts, and the queries of a restart group. */
  datatype World<!D> = World(
    apply: (nat, D) -> (D, nat), reset: (nat, D) -> D,
    pending: D -> bool, jumptable: D -> bool, clear: D -> D, warn: D -> D)

  /** The data and the leaf actions applied so far. */
  datatype St<D> = St(data: D, log: seq<nat>)

  datatype Status = Start | BreakStartHit | Repeat | Mid | End | ActionBreak

  /** The number of restarts so far; -1 when the group is finished. */
  type Mark = c: int | -1 <= c

  datatype Restarts = Restarts(max: int, cur: Mark)

  datatype Flags = Flags(repeatApply: bool, oncePerFunc: bool, oneActPerFunc: bool)

  datatype Breaks = Breaks(start: bool, tempStart: bool, action: bool, tempAction: bool)

  /** The fields of an action besides its status: counters, the current child, restarts, flags and breakpoints. */
  datatype Regs = Regs(count: nat, lcount: nat, state: nat, restart: Option<Restarts>, flags: Flags, breaks: Breaks)

  datatype Action = Action(status: Status, r: Regs, body: Body)

  datatype Body = Leaf(id: nat) | Group(list: seq<Action>)

  /** `Spent`: the budget ran out; `Broke`: a breakpoint was hit. */
  datatype Result<D> = Spent | Done(a: Action, s: St<D>, count: nat, left: nat) | Broke(b: Action, t: St<D>, rest: nat)

  /** `Apply` of a leaf or a group; `Stop` is its negative result. */
  datatype Applied<D> = Out | Ok(r: Regs, body: Body, s: St<D>, left: nat) | Stop(q: Regs, mid: Body, t: St<D>, rest: nat)

  predicate StartBreaks(r: Regs) { r.breaks.start || r.breaks.tempStart }

  predicate ActionBreaks(r: Regs) { r.breaks.action || r.breaks.tempAction }

  function NoTemp(r: Regs): Regs { r.(breaks := r.breaks.(tempAction := false)) }

  // ----- reset -----

  function Reset(a: Action): Action
    decreases a
  {
    Action(Start,
      if a.body.Group? then a.r.(state := 0, restart := if a.r.restart.Some? then Some(a.r.restart.value.(cur := 0)) else None) else a.r,
      match a.body case Leaf(_) => a.body case Group(list) => Group(ResetAll(list)))
  }

  function ResetAll(list: seq<Action>): (out: seq<Action>)
    ensures |out| == |list|
    decreases list
  {
    if list == [] then [] else [Reset(list[0])] + ResetAll(list[1..])
  }

  /** The effect of the resets on the data, leaf by leaf. */
  function ResetData<D(!new)>(w: World<D>, a: Action, d: D): D
    decreases a
  {
    match a.body
    case Leaf(id) => w.reset(id, d)
    case Group(list) => ResetDataAll(w, list, d)
  }

  function ResetDataAll<D(!new)>(w: World<D>, list: seq<Action>, d: D): D
    decreases list
  {
    if list == [] then d else ResetDataAll(w, list[1..], ResetData(w, list[0], d))
  }

  // ----- the driver -----

  function Perform<D(!new)>(w: World<D>, a: Action, s: St<D>, f: nat): (out: Result<D>)
    ensures out.Done? ==> out.left <= f
    ensures out.Broke? ==> out.rest < f
    decreases f, a, 5
  {
    match a.status
    case Start =>
      if f == 0 then Spent
      else if StartBreaks(a.r) then Broke(Action(BreakStartHit, a.r.(count := 0, breaks := a.r.breaks.(tempStart := false)), a.body), s, f - 1)
      else Attempt(w, false, a.r.(count := 0, lcount := 0), a.body, s, f - 1)
    case BreakStartHit => Attempt(w, false, a.r.(lcount := a.r.count), a.body, s, f)
    case Repeat => Attempt(w, false, a.r.(lcount := a.r.count), a.body, s, f)
    case Mid => Attempt(w, true, a.r, a.body, s, f)
    case End => Done(a, s, 0, f)
    case ActionBreak => Finish(w, a.r, a.body, s, f)
  }

  function Attempt<D(!new)>(w: World<D>, mid: bool, r: Regs, body: Body, s: St<D>, f: nat): (out: Result<D>)
    ensures out.Done? ==> out.left <= f
    ensures out.Broke? ==> out.rest < f
    decreases f, body, 4
  {
    match Apply(w, mid, r, body, s, f)
    case Out => Spent
    case Stop(r', body', s', g) => Broke(Action(Mid, r', body'), s', g)
    case Ok(r', body', s', g) =>
      if r'.lcount < r'.count && ActionBreaks(r') then Broke(Action(ActionBreak, NoTemp(r'), body'), s', g)
      else Finish(w, r', body', s', g)
  }

  /** The repeat logic. */
  function Finish<D(!new)>(w: World<D>, r: Regs, body: Body, s: St<D>, f: nat): (out: Result<D>)
    ensures out.Done? ==> out.left <= f
    ensures out.Broke? ==> out.rest < f
    decreases f, body, 0
  {
    if f == 0 then Spent
    else if r.lcount < r.count && r.flags.repeatApply then Perform(w, Action(Repeat, r, body), s, f - 1)
    else Done(Action(FinalStatus(r), r, body), s, r.count, f - 1)
  }

  function FinalStatus(r: Regs): Status {
    if (r.flags.oncePerFunc || r.flags.oneActPerFunc) && (r.count > 0 || r.flags.oncePerFunc) then End else Start
  }

  function Apply<D(!new)>(w: World<D>, mid: bool, r: Regs, body: Body, s: St<D>, f: nat): (out: Applied<D>)
    ensures out.Ok? ==> out.left < f
    ensures out.Stop? ==> out.rest < f
    decreases f, body, 3
  {
    match body
    case Leaf(id) =>
      if f == 0 then Out
      else
        var (d, n) := w.apply(id, s.data);
        Ok(r.(count := r.count + n), body, St(d, s.log + [id]), f - 1)
    case Group(list) =>
      var r' := Entered(mid, r);
      if r.restart.None? then Children(w, r', list, s, f)
      else if r.restart.value.cur == -1 then (if f == 0 then Out else Ok(r, body, s, f - 1))
      else RestartLoop(w, r', list, s, f)
  }

  /** The children from `state` on. */
  function Children<D(!new)>(w: World<D>, r: Regs, list: seq<Action>, s: St<D>, f: nat): (out: Applied<D>)
    ensures out.Ok? ==> out.left < f && out.body.Group? && |out.body.list| == |list| && out.r.restart == r.restart
    ensures out.Stop? ==> out.rest < f && out.mid.Group? && |out.mid.list| == |list| && out.q.restart == r.restart
    decreases f, list, 1
  {
    if r.state >= |list| then (if f == 0 then Out else Ok(r, Group(list), s, f - 1))
    else
      match Perform(w, list[r.state], s, f)
      case Spent => Out
      case Broke(c, s', g) => Stop(r, Group(list[r.state := c]), s', g)
      case Done(c, s', n, g) =>
        if g == 0 then Out
        else
          var r' := r.(state := r.state + 1, count := r.count + n);
          var list' := list[r.state := c];
          if n > 0 && ActionBreaks(r) then Stop(NoTemp(r'), Group(list'), s', g - 1)
          else Children(w, r', list', s', g - 1)
  }

  /** Runs the children again while the data asks for a restart. */
  function RestartLoop<D(!new)>(w: World<D>, r: Regs, list: seq<Action>, s: St<D>, f: nat): (out: Applied<D>)
    requires r.restart.Some?
    ensures out.Ok? ==> out.left < f
    ensures out.Stop? ==> out.rest < f
    decreases f, list, 2
  {
    match Children(w, r, list, s, f)
    case Out => Out
    case Stop(q, mid, t, rest) => Stop(q, mid, t, rest)
    case Ok(r', body', s', g) =>
      var k := r'.restart.value;
      if !w.pending(s'.data) then Ok(r'.(restart := Some(k.(cur := -1))), body', s', g)
      else if w.jumptable(s'.data) then Ok(r', body', s', g)
      else if k.cur + 1 > k.max then
        Ok(r'.(restart := Some(k.(cur := -1))), body', s'.(data := w.warn(s'.data)), g)
      else
        var cleared := w.clear(s'.data);
        RestartLoop(w, r'.(state := 0, restart := Some(k.(cur := k.cur + 1))), ResetAll(body'.list),
          s'.(data := ResetDataAll(w, body'.list, cleared)), g)
  }

  // ----- removing breakpoints -----

  function Disarm(r: Regs): Regs {
    r.(breaks := Breaks(false, false, false, false))
  }

  /** The same tree without breakpoints. */
  function Strip(a: Action): Action
    decreases a
  {
    Action(a.status, Disarm(a.r), StripBody(a.body))
  }

  function StripBody(b: Body): Body
    decreases b
  {
    match b case Leaf(_) => b case Group(list) => Group(StripAll(list))
  }

  function StripAll(list: seq<Action>): (out: seq<Action>)
    ensures |out| == |list|
    decreases list
  {
    if list == [] then [] else [Strip(list[0])] + StripAll(list[1..])
  }

  lemma {:induction false} StripAllAt(list: seq<Action>, i: nat)
    requires i < |list|
    ensures StripAll(list)[i] == Strip(list[i])
  {
    if i > 0 { StripAllAt(list[1..], i - 1); }
  }

  lemma {:induction false} StripAllUpdate(list: seq<Action>, i: nat, c: Action)
    requires i < |list|
    ensures StripAll(list[i := c]) == StripAll(list)[i := Strip(c)]
  {
    var list', out := list[i := c], StripAll(list)[i := Strip(c)];
    forall j: nat | j < |list| ensures StripAll(list')[j] == out[j] {
      StripAllAt(list', j);
      StripAllAt(list, j);
    }
  }

  lemma {:induction false} StripReset(a: Action)
    ensures Strip(Reset(a)) == Reset(Strip(a))
    decreases a
  {
    if a.body.Group? { StripResetAll(a.body.list); }
  }

  lemma {:induction false} StripResetAll(list: seq<Action>)
    ensures StripAll(ResetAll(list)) == ResetAll(StripAll(list))
    decreases list
  {
    if list != [] {
      StripReset(list[0]);
      StripResetAll(list[1..]);
      assert ResetAll(list)[1..] == ResetAll(list[1..]);
      assert StripAll(list)[1..] == StripAll(list[1..]);
    }
  }

  lemma {:induction false} StripResetData<D(!new)>(w: World<D>, a: Action, d: D)
    ensures ResetData(w, Strip(a), d) == ResetData(w, a, d)
    decreases a
  {
    if a.body.Group? { StripResetDataAll(w, a.body.list, d); }
  }

  lemma {:induction false} StripResetDataAll<D(!new)>(w: World<D>, list: seq<Action>, d: D)
    ensures ResetDataAll(w, StripAll(list), d) == ResetDataAll(w, list, d)
    decreases list
  {
    if list != [] {
      StripResetData(w, list[0], d);
      StripResetDataAll(w, list[1..], ResetData(w, list[0], d));
      assert StripAll(list)[1..] == StripAll(list[1..]);
    }
  }

  // ----- an interrupted run goes on as the uninterrupted one -----

  /** `out` is what an armed run may do where the run without breakpoints does `clean`. */
  ghost predicate Follows<D(!new)>(w: World<D>, out: Result<D>, clean: Result<D>) {
    match out
    case Spent => clean.Spent?
    case Done(a, s, n, g) => clean == Done(Strip(a), s, n, g)
    case Broke(a, s, g) => Perform(w, Strip(a), s, g) == clean
  }

  /** The same for `Apply`: what is left to do of a stopped group is done when it is resumed. */
  ghost predicate Continues<D(!new)>(w: World<D>, out: Applied<D>, clean: Applied<D>) {
    match out
    case Out => clean.Out?
    case Ok(r, body, s, g) => clean == Ok(Disarm(r), StripBody(body), s, g)
    case Stop(r, body, s, g) => Apply(w, true, Disarm(r), StripBody(body), s, g) == clean
  }

  ghost predicate ContinuesChildren<D(!new)>(w: World<D>, out: Applied<D>, clean: Applied<D>) {
    match out
    case Out => clean.Out?
    case Ok(r, body, s, g) => clean == Ok(Disarm(r), StripBody(body), s, g)
    case Stop(r, body, s, g) => body.Group? && Children(w, Disarm(r), StripAll(body.list), s, g) == clean
  }

  lemma {:induction false} PerformFollows<D(!new)>(w: World<D>, a: Action, s: St<D>, f: nat)
    ensures Follows(w, Perform(w, a, s, f), Perform(w, Strip(a), s, f))
    decreases f, a, 5
  {
    match a.status
    case Start =>
      if f > 0 && !StartBreaks(a.r) { AttemptFollows(w, false, a.r.(count := 0, lcount := 0), a.body, s, f - 1); }
    case BreakStartHit => AttemptFollows(w, false, a.r.(lcount := a.r.count), a.body, s, f);
    case Repeat => AttemptFollows(w, false, a.r.(lcount := a.r.count), a.body, s, f);
    case Mid => AttemptFollows(w, true, a.r, a.body, s, f);
    case End =>
    case ActionBreak => FinishFollows(w, a.r, a.body, s, f);
  }

  lemma {:induction false} AttemptFollows<D(!new)>(w: World<D>, mid: bool, r: Regs, body: Body, s: St<D>, f: nat)
    ensures Follows(w, Attempt(w, mid, r, body, s, f), Attempt(w, mid, Disarm(r), StripBody(body), s, f))
    decreases f, body, 4
  {
    ApplyContinues(w, mid, r, body, s, f);
    var out := Apply(w, mid, r, body, s, f);
    if out.Ok? { FinishFollows(w, out.r, out.body, out.s, out.left); }
  }

  lemma {:induction false} FinishFollows<D(!new)>(w: World<D>, r: Regs, body: Body, s: St<D>, f: nat)
    ensures Follows(w, Finish(w, r, body, s, f), Finish(w, Disarm(r), StripBody(body), s, f))
    decreases f, body, 0
  {
    if f > 0 && r.lcount < r.count && r.flags.repeatApply { PerformFollows(w, Action(Repeat, r, body), s, f - 1); }
  }

  lemma {:induction false} ApplyContinues<D(!new)>(w: World<D>, mid: bool, r: Regs, body: Body, s: St<D>, f: nat)
    ensures Continues(w, Apply(w, mid, r, body, s, f), Apply(w, mid, Disarm(r), StripBody(body), s, f))
    decreases f, body, 3
  {
    if body.Group? { GroupContinues(w, mid, r, body.list, s, f); }
  }

  function Entered(mid: bool, r: Regs): Regs { if mid then r else r.(state := 0) }

  lemma {:induction false} GroupContinues<D(!new)>(w: World<D>, mid: bool, r: Regs, list: seq<Action>, s: St<D>, f: nat)
    ensures Continues(w, Apply(w, mid, r, Group(list), s, f), Apply(w, mid, Disarm(r), Group(StripAll(list)), s, f))
    decreases f, list, 4
  {
    if r.restart.None? {
      PlainContinues(w, Entered(mid, r), list, s, f);
      PlainEntered(w, mid, r, list, s, f);
    } else if r.restart.value.cur != -1 {
      RestartContinues(w, Entered(mid, r), list, s, f);
      LoopEntered(w, mid, r, list, s, f);
    }
  }

  lemma {:induction false} PlainEntered<D(!new)>(w: World<D>, mid: bool, r: Regs, list: seq<Action>, s: St<D>, f: nat)
    requires r.restart.None?
    ensures Apply(w, mid, r, Group(list), s, f) == Children(w, Entered(mid, r), list, s, f)
    ensures Apply(w, mid, Disarm(r), Group(StripAll(list)), s, f) == Children(w, Disarm(Entered(mid, r)), StripAll(list), s, f)
  {
    GroupIsChildren(w, mid, r, list, s, f);
    GroupIsChildren(w, mid, Disarm(r), StripAll(list), s, f);
  }

  lemma {:induction false} LoopEntered<D(!new)>(w: World<D>, mid: bool, r: Regs, list: seq<Action>, s: St<D>, f: nat)
    requires r.restart.Some? && r.restart.value.cur != -1
    ensures Apply(w, mid, r, Group(list), s, f) == RestartLoop(w, Entered(mid, r), list, s, f)
    ensures Apply(w, mid, Disarm(r), Group(StripAll(list)), s, f) == RestartLoop(w, Disarm(Entered(mid, r)), StripAll(list), s, f)
  {
    GroupIsLoop(w, mid, r, list, s, f);
    GroupIsLoop(w, mid, Disarm(r), StripAll(list), s, f);
  }

  lemma {:induction false} PlainContinues<D(!new)>(w: World<D>, r: Regs, list: seq<Action>, s: St<D>, f: nat)
    requires r.restart.None?
    ensures Continues(w, Children(w, r, list, s, f), Children(w, Disarm(r), StripAll(list), s, f))
    decreases f, list, 3
  {
    ChildrenContinue(w, r, list, s, f);
    FromChildren(w, Children(w, r, list, s, f), Children(w, Disarm(r), StripAll(list), s, f));
  }

  lemma {:induction false} GroupIsChildren<D(!new)>(w: World<D>, mid: bool, r: Regs, list: seq<Action>, s: St<D>, f: nat)
    requires r.restart.None?
    ensures Apply(w, mid, r, Group(list), s, f) == Children(w, Entered(mid, r), list, s, f)
  {
  }

  lemma {:induction false} GroupIsLoop<D(!new)>(w: World<D>, mid: bool, r: Regs, list: seq<Action>, s: St<D>, f: nat)
    requires r.restart.Some? && r.restart.value.cur != -1
    ensures Apply(w, mid, r, Group(list), s, f) == RestartLoop(w, Entered(mid, r), list, s, f)
  {
  }

  lemma {:induction false} FromChildren<D(!new)>(w: World<D>, out: Applied<D>, clean: Applied<D>)
    requires ContinuesChildren(w, out, clean) && (out.Stop? ==> out.q.restart.None?)
    ensures Continues(w, out, clean)
  {
    if out.Stop? { GroupIsChildren(w, true, Disarm(out.q), StripAll(out.mid.list), out.t, out.rest); }
  }

  lemma {:induction false} ChildrenContinue<D(!new)>(w: World<D>, r: Regs, list: seq<Action>, s: St<D>, f: nat)
    ensures ContinuesChildren(w, Children(w, r, list, s, f), Children(w, Disarm(r), StripAll(list), s, f))
    decreases f, list, 1
  {
    if r.state < |list| {
      StripAllAt(list, r.state);
      PerformFollows(w, list[r.state], s, f);
      var out := Perform(w, list[r.state], s, f);
      if out.Broke? {
        StripAllUpdate(list, r.state, out.b);
        ChildResumed(w, Disarm(r), StripAll(list), s, f, Strip(out.b), out.t, out.rest);
      } else if out.Done? && out.left > 0 {
        ChildrenContinue(w, r.(state := r.state + 1, count := r.count + out.count), list[r.state := out.a], out.s, out.left - 1);
        ChildDone(w, r, list, s, f, out);
      }
    }
  }

  /** A group whose child is replaced by an interrupted one that comes to the same comes to the same. */
  lemma {:induction false} ChildResumed<D(!new)>(w: World<D>, r: Regs, list: seq<Action>, s: St<D>, f: nat, c: Action, t: St<D>, g: nat)
    requires r.state < |list| && Perform(w, c, t, g) == Perform(w, list[r.state], s, f)
    ensures Children(w, r, list[r.state := c], t, g) == Children(w, r, list, s, f)
  {
    var out := Perform(w, c, t, g);
    var list' := list[r.state := c];
    assert list'[r.state] == c;
    if out.Done? { assert list'[r.state := out.a] == list[r.state := out.a]; }
    if out.Broke? { assert list'[r.state := out.b] == list[r.state := out.b]; }
  }

  lemma {:induction false} ChildDone<D(!new)>(w: World<D>, r: Regs, list: seq<Action>, s: St<D>, f: nat, out: Result<D>)
    requires r.state < |list| && out == Perform(w, list[r.state], s, f) && out.Done? && out.left > 0
    requires Follows(w, out, Perform(w, Strip(list[r.state]), s, f))
    requires var r' := r.(state := r.state + 1, count := r.count + out.count);
      var list' := list[r.state := out.a];
      ContinuesChildren(w, Children(w, r', list', out.s, out.left - 1), Children(w, Disarm(r'), StripAll(list'), out.s, out.left - 1))
    ensures ContinuesChildren(w, Children(w, r, list, s, f), Children(w, Disarm(r), StripAll(list), s, f))
  {
    var r' := r.(state := r.state + 1, count := r.count + out.count);
    var list' := list[r.state := out.a];
    ChildrenNext(w, r, list, s, f, out.a, out.s, out.count, out.left);
    CleanNext(w, r, list, s, f, out);
    ChildPassed(w, Children(w, r, list, s, f), Children(w, Disarm(r), StripAll(list), s, f), r', list', out.s, out.left - 1,
      out.count > 0 && ActionBreaks(r));
  }

  lemma {:induction false} CleanNext<D(!new)>(w: World<D>, r: Regs, list: seq<Action>, s: St<D>, f: nat, out: Result<D>)
    requires r.state < |list| && out.Done? && out.left > 0
    requires Perform(w, Strip(list[r.state]), s, f) == Done(Strip(out.a), out.s, out.count, out.left)
    ensures var r' := r.(state := r.state + 1, count := r.count + out.count);
      Children(w, Disarm(r), StripAll(list), s, f) == Children(w, Disarm(r'), StripAll(list[r.state := out.a]), out.s, out.left - 1)
  {
    StripAllAt(list, r.state);
    StripAllUpdate(list, r.state, out.a);
    ChildrenNext(w, Disarm(r), StripAll(list), s, f, Strip(out.a), out.s, out.count, out.left);
  }

  lemma {:induction false} ChildPassed<D(!new)>(w: World<D>, out: Applied<D>, clean: Applied<D>, r: Regs, list: seq<Action>, s: St<D>, g: nat, breaks: bool)
    requires out == if breaks then Stop(NoTemp(r), Group(list), s, g) else Children(w, r, list, s, g)
    requires clean == Children(w, Disarm(r), StripAll(list), s, g)
    requires ContinuesChildren(w, Children(w, r, list, s, g), clean)
    ensures ContinuesChildren(w, out, clean)
  {
    assert Disarm(NoTemp(r)) == Disarm(r);
  }

  lemma {:induction false} ChildrenNext<D(!new)>(w: World<D>, r: Regs, list: seq<Action>, s: St<D>, f: nat, c: Action, t: St<D>, n: nat, g: nat)
    requires r.state < |list| && Perform(w, list[r.state], s, f) == Done(c, t, n, g) && g > 0
    ensures var r' := r.(state := r.state + 1, count := r.count + n);
      Children(w, r, list, s, f) == (if n > 0 && ActionBreaks(r) then Stop(NoTemp(r'), Group(list[r.state := c]), t, g - 1)
        else Children(w, r', list[r.state := c], t, g - 1))
  {
  }

  lemma {:induction false} RestartContinues<D(!new)>(w: World<D>, r: Regs, list: seq<Action>, s: St<D>, f: nat)
    requires r.restart.Some? && r.restart.value.cur != -1
    ensures Continues(w, RestartLoop(w, r, list, s, f), RestartLoop(w, Disarm(r), StripAll(list), s, f))
    decreases f, list, 2
  {
    ChildrenContinue(w, r, list, s, f);
    var out := Children(w, r, list, s, f);
    if out.Stop? {
      RestartResumed(w, r, list, s, f, out);
    } else if out.Ok? {
      var (r', list', s') := Restarted(w, out.r, out.body.list, out.s);
      RestartContinues(w, r', list', s', out.left);
      RestartDone(w, r, list, s, f, out);
    }
  }

  /** The state in which the children are run again. */
  function Restarted<D(!new)>(w: World<D>, r: Regs, list: seq<Action>, s: St<D>): (Regs, seq<Action>, St<D>)
    requires r.restart.Some?
  {
    var k := r.restart.value;
    (r.(state := 0, restart := Some(k.(cur := k.cur + 1))), ResetAll(list), s.(data := ResetDataAll(w, list, w.clear(s.data))))
  }

  lemma {:induction false} RestartResumed<D(!new)>(w: World<D>, r: Regs, list: seq<Action>, s: St<D>, f: nat, out: Applied<D>)
    requires r.restart.Some? && r.restart.value.cur != -1 && out == Children(w, r, list, s, f) && out.Stop?
    requires ContinuesChildren(w, out, Children(w, Disarm(r), StripAll(list), s, f))
    ensures Continues(w, RestartLoop(w, r, list, s, f), RestartLoop(w, Disarm(r), StripAll(list), s, f))
  {
    SamePass(w, Disarm(r), StripAll(list), s, f, Disarm(out.q), StripAll(out.mid.list), out.t, out.rest);
    assert RestartLoop(w, r, list, s, f) == out;
  }

  /** A pass that comes to the same leads to the same. */
  lemma {:induction false} SamePass<D(!new)>(w: World<D>, r: Regs, list: seq<Action>, s: St<D>, f: nat, q: Regs, l: seq<Action>, t: St<D>, g: nat)
    requires r.restart.Some? && q.restart.Some? && Children(w, r, list, s, f) == Children(w, q, l, t, g)
    ensures RestartLoop(w, r, list, s, f) == RestartLoop(w, q, l, t, g)
  {
  }

  lemma {:induction false} RestartDone<D(!new)>(w: World<D>, r: Regs, list: seq<Action>, s: St<D>, f: nat, out: Applied<D>)
    requires r.restart.Some? && r.restart.value.cur != -1 && out == Children(w, r, list, s, f) && out.Ok?
    requires ContinuesChildren(w, out, Children(w, Disarm(r), StripAll(list), s, f))
    requires var (r', list', s') := Restarted(w, out.r, out.body.list, out.s);
      Continues(w, RestartLoop(w, r', list', s', out.left), RestartLoop(w, Disarm(r'), StripAll(list'), s', out.left))
    ensures Continues(w, RestartLoop(w, r, list, s, f), RestartLoop(w, Disarm(r), StripAll(list), s, f))
  {
    var clean := Children(w, Disarm(r), StripAll(list), s, f);
    RestartNext(w, r, list, s, f, out);
    RestartNext(w, Disarm(r), StripAll(list), s, f, clean);
    StrippedRestart(w, out.r, out.body.list, out.s);
    var k := r.restart.value;
    if w.pending(out.s.data) && !w.jumptable(out.s.data) && k.cur + 1 <= k.max {
      var (r', list', s') := Restarted(w, out.r, out.body.list, out.s);
      assert RestartLoop(w, r, list, s, f) == RestartLoop(w, r', list', s', out.left);
    }
  }

  lemma {:induction false} StrippedRestart<D(!new)>(w: World<D>, r: Regs, list: seq<Action>, s: St<D>)
    requires r.restart.Some?
    ensures var (r', list', s') := Restarted(w, r, list, s);
      Restarted(w, Disarm(r), StripAll(list), s) == (Disarm(r'), StripAll(list'), s')
  {
    StripResetAll(list);
    StripResetDataAll(w, list, w.clear(s.data));
  }

  /** What follows a pass that was not interrupted. */
  lemma {:induction false} RestartNext<D(!new)>(w: World<D>, r: Regs, list: seq<Action>, s: St<D>, f: nat, out: Applied<D>)
    requires r.restart.Some? && out == Children(w, r, list, s, f) && out.Ok?
    ensures out.r.restart == r.restart && out.body.Group?
    ensures var k := r.restart.value;
      var again := Restarted(w, out.r, out.body.list, out.s);
      RestartLoop(w, r, list, s, f) ==
        if !w.pending(out.s.data) then Ok(out.r.(restart := Some(k.(cur := -1))), out.body, out.s, out.left)
        else if w.jumptable(out.s.data) then out
        else if k.cur + 1 > k.max then Ok(out.r.(restart := Some(k.(cur := -1))), out.body, out.s.(data := w.warn(out.s.data)), out.left)
        else RestartLoop(w, again.0, again.1, again.2, out.left)
  {
  }

  // ----- resuming until completion -----

  lemma {:induction false} StripTwice(a: Action)
    ensures Strip(Strip(a)) == Strip(a)
    decreases a
  {
    if a.body.Group? { StripAllTwice(a.body.list); }
  }

  lemma {:induction false} StripAllTwice(list: seq<Action>)
    ensures StripAll(StripAll(list)) == StripAll(list)
    decreases list
  {
    if list != [] {
      StripTwice(list[0]);
      StripAllTwice(list[1..]);
      assert StripAll(list)[1..] == StripAll(list[1..]);
    }
  }

  /** Without breakpoints a run does not break: it would have to break again with less left. */
  lemma {:induction false} CleanNeverBreaks<D(!new)>(w: World<D>, a: Action, s: St<D>, f: nat)
    ensures !Perform(w, Strip(a), s, f).Broke?
  {
    StripTwice(a);
    PerformFollows(w, Strip(a), s, f);
  }

  /** Performs the action and resumes it after every break; breakpoints may be changed in between. */
  function Drive<D(!new)>(w: World<D>, arm: (nat, Action) -> Action, k: nat, a: Action, s: St<D>, f: nat): Result<D>
    decreases f
  {
    var out := Perform(w, a, s, f);
    if out.Broke? then Drive(w, arm, k + 1, arm(k, out.b), out.t, out.rest) else out
  }

  /**
   Whatever the breakpoints, resuming until completion ends exactly when the run without
   breakpoints does, with the same leaf calls, data, count and action tree.
   */
  lemma {:induction false} ResumingIsTransparent<D(!new)>(w: World<D>, arm: (nat, Action) -> Action, k: nat, a: Action, s: St<D>, f: nat)
    requires forall i: nat, b: Action :: Strip(arm(i, b)) == Strip(b)
    ensures var clean, driven := Perform(w, Strip(a), s, f), Drive(w, arm, k, a, s, f);
      if clean.Spent? then driven.Spent?
      else clean.Done? && driven.Done? && clean == Done(Strip(driven.a), driven.s, driven.count, driven.left)
    decreases f
  {
    PerformFollows(w, a, s, f);
    CleanNeverBreaks(w, a, s, f);
    var out := Perform(w, a, s, f);
    if out.Broke? { ResumingIsTransparent(w, arm, k + 1, arm(k, out.b), out.t, out.rest); }
  }

  // ----- the budget does not matter -----

  function More<D>(out: Result<D>, x: nat): Result<D> {
    match out
    case Spent => Spent
    case Done(a, s, n, g) => Done(a, s, n, g + x)
    case Broke(b, t, g) => Broke(b, t, g + x)
  }

  function MoreApplied<D>(out: Applied<D>, x: nat): Applied<D> {
    match out
    case Out => Out
    case Ok(r, body, s, g) => Ok(r, body, s, g + x)
    case Stop(q, mid, t, g) => Stop(q, mid, t, g + x)
  }

  /** A run that ends within its budget does the same with any larger one. */
  lemma {:induction false} LargerBudget<D(!new)>(w: World<D>, a: Action, s: St<D>, f: nat, x: nat)
    ensures !Perform(w, a, s, f).Spent? ==> Perform(w, a, s, f + x) == More(Perform(w, a, s, f), x)
    decreases f, a, 5
  {
    match a.status
    case Start =>
      if f > 0 && !StartBreaks(a.r) { LargerAttempt(w, false, a.r.(count := 0, lcount := 0), a.body, s, f - 1, x); }
    case BreakStartHit => LargerAttempt(w, false, a.r.(lcount := a.r.count), a.body, s, f, x);
    case Repeat => LargerAttempt(w, false, a.r.(lcount := a.r.count), a.body, s, f, x);
    case Mid => LargerAttempt(w, true, a.r, a.body, s, f, x);
    case End =>
    case ActionBreak => LargerFinish(w, a.r, a.body, s, f, x);
  }

  lemma {:induction false} LargerAttempt<D(!new)>(w: World<D>, mid: bool, r: Regs, body: Body, s: St<D>, f: nat, x: nat)
    ensures !Attempt(w, mid, r, body, s, f).Spent? ==> Attempt(w, mid, r, body, s, f + x) == More(Attempt(w, mid, r, body, s, f), x)
    decreases f, body, 4
  {
    LargerApply(w, mid, r, body, s, f, x);
    var out := Apply(w, mid, r, body, s, f);
    if out.Ok? { LargerFinish(w, out.r, out.body, out.s, out.left, x); }
  }

  lemma {:induction false} LargerFinish<D(!new)>(w: World<D>, r: Regs, body: Body, s: St<D>, f: nat, x: nat)
    ensures !Finish(w, r, body, s, f).Spent? ==> Finish(w, r, body, s, f + x) == More(Finish(w, r, body, s, f), x)
    decreases f, body, 0
  {
    if f > 0 && r.lcount < r.count && r.flags.repeatApply { LargerBudget(w, Action(Repeat, r, body), s, f - 1, x); }
  }

  lemma {:induction false} LargerApply<D(!new)>(w: World<D>, mid: bool, r: Regs, body: Body, s: St<D>, f: nat, x: nat)
    ensures !Apply(w, mid, r, body, s, f).Out? ==> Apply(w, mid, r, body, s, f + x) == MoreApplied(Apply(w, mid, r, body, s, f), x)
    decreases f, body, 3
  {
    if body.Group? {
      if r.restart.None? {
        LargerChildren(w, Entered(mid, r), body.list, s, f, x);
      } else if r.restart.value.cur != -1 {
        LargerRestart(w, Entered(mid, r), body.list, s, f, x);
      }
    }
  }

  lemma {:induction false} LargerChildren<D(!new)>(w: World<D>, r: Regs, list: seq<Action>, s: St<D>, f: nat, x: nat)
    ensures !Children(w, r, list, s, f).Out? ==> Children(w, r, list, s, f + x) == MoreApplied(Children(w, r, list, s, f), x)
    decreases f, list, 1
  {
    if r.state < |list| {
      LargerBudget(w, list[r.state], s, f, x);
      var out := Perform(w, list[r.state], s, f);
      if out.Done? && out.left > 0 {
        LargerChildren(w, r.(state := r.state + 1, count := r.count + out.count), list[r.state := out.a], out.s, out.left - 1, x);
        LargerNext(w, r, list, s, f, x, out);
      }
    }
  }

  lemma {:induction false} LargerNext<D(!new)>(w: World<D>, r: Regs, list: seq<Action>, s: St<D>, f: nat, x: nat, out: Result<D>)
    requires r.state < |list| && out == Perform(w, list[r.state], s, f) && out.Done? && out.left > 0
    requires Perform(w, list[r.state], s, f + x) == Done(out.a, out.s, out.count, out.left + x)
    requires var r', list' := r.(state := r.state + 1, count := r.count + out.count), list[r.state := out.a];
      var next := Children(w, r', list', out.s, out.left - 1);
      !next.Out? ==> Children(w, r', list', out.s, out.left - 1 + x) == MoreApplied(next, x)
    ensures !Children(w, r, list, s, f).Out? ==> Children(w, r, list, s, f + x) == MoreApplied(Children(w, r, list, s, f), x)
  {
    ChildrenNext(w, r, list, s, f, out.a, out.s, out.count, out.left);
    ChildrenNext(w, r, list, s, f + x, out.a, out.s, out.count, out.left + x);
  }

  lemma {:induction false} LargerRestart<D(!new)>(w: World<D>, r: Regs, list: seq<Action>, s: St<D>, f: nat, x: nat)
    requires r.restart.Some?
    ensures !RestartLoop(w, r, list, s, f).Out? ==> RestartLoop(w, r, list, s, f + x) == MoreApplied(RestartLoop(w, r, list, s, f), x)
    decreases f, list, 2
  {
    LargerChildren(w, r, list, s, f, x);
    var out := Children(w, r, list, s, f);
    if out.Ok? {
      var (r', list', s') := Restarted(w, out.r, out.body.list, out.s);
      LargerRestart(w, r', list', s', out.left, x);
      RestartNext(w, r, list, s, f, out);
      RestartNext(w, r, list, s, f + x, MoreApplied(out, x));
    }
  }

  // ----- restarts are bounded -----

  /** How many passes over the children one call of a restart group begins or goes on with. */
  function Passes<D(!new)>(w: World<D>, r: Regs, list: seq<Action>, s: St<D>, f: nat): (n: nat)
    requires r.restart.Some?
    decreases f
  {
    var out := Children(w, r, list, s, f);
    if !out.Ok? || !w.pending(out.s.data) || w.jumptable(out.s.data) || r.restart.value.cur + 1 > r.restart.value.max then 1
    else
      var (r', list', s') := Restarted(w, out.r, out.body.list, out.s);
      1 + Passes(w, r', list', s', out.left)
  }

  /**
   From restart number `cur` on at most `max - cur` more passes are begun; an interrupted
   call is resumed at the restart number it had reached, and with jump-table recovery off
   a completed call leaves the group finished.
   */
  lemma {:induction false} RestartsAreBounded<D(!new)>(w: World<D>, r: Regs, list: seq<Action>, s: St<D>, f: nat)
    requires r.restart.Some? && r.restart.value.cur != -1
    ensures Passes(w, r, list, s, f) <= 1 + (if r.restart.value.max > r.restart.value.cur then r.restart.value.max - r.restart.value.cur else 0)
    ensures var out := RestartLoop(w, r, list, s, f);
      && (out.Stop? ==> out.q.restart == Some(Restarts(r.restart.value.max, r.restart.value.cur + Passes(w, r, list, s, f) - 1)))
      && (out.Ok? && (forall d :: !w.jumptable(d)) ==> out.r.restart == Some(Restarts(r.restart.value.max, -1)))
      && (out.Ok? ==> out.r.restart.Some?)
      && (out.Ok? && out.r.restart.value.cur != -1 ==>
          out.r.restart == Some(Restarts(r.restart.value.max, r.restart.value.cur + Passes(w, r, list, s, f) - 1)))
    decreases f
  {
    var out := Children(w, r, list, s, f);
    if out.Ok? {
      RestartNext(w, r, list, s, f, out);
      var (r', list', s') := Restarted(w, out.r, out.body.list, out.s);
      RestartsAreBounded(w, r', list', s', out.left);
    }
  }

  /** One call of a group: the data, budget and breakpoints it is handed. */
  datatype Handed<D> = Handed(s: St<D>, f: nat, breaks: Breaks)

  /** The passes begun by a series of calls, each continuing where the one before left the group. */
  function Begun<D(!new)>(w: World<D>, mid: bool, r: Regs, list: seq<Action>, calls: seq<Handed<D>>): int
    requires r.restart.Some?
    decreases |calls|
  {
    if calls == [] || r.restart.value.cur == -1 then 0
    else
      var c := calls[0];
      var r' := r.(breaks := c.breaks);
      var n := Passes(w, Entered(mid, r'), list, c.s, c.f) - if mid then 1 else 0;
      match Apply(w, mid, r', Group(list), c.s, c.f)
      case Out => n
      case Ok(q, body, _, _) => if q.restart.Some? && body.Group? then n + Begun(w, false, q, body.list, calls[1..]) else n
      case Stop(q, body, _, _) => if q.restart.Some? && body.Group? then n + Begun(w, true, q, body.list, calls[1..]) else n
  }

  /** The restarts still allowed. */
  function Room(r: Regs): nat
    requires r.restart.Some?
  {
    var k := r.restart.value;
    if k.cur == -1 || k.max <= k.cur then 0 else k.max - k.cur
  }

  /**
   However often a restart group is called, interrupted and resumed between two resets,
   it begins at most one pass and `max` restarts; during jump-table recovery, one pass
   more for each further call.
   */
  lemma {:induction false} AllPassesAreBounded<D(!new)>(w: World<D>, mid: bool, r: Regs, list: seq<Action>, calls: seq<Handed<D>>)
    requires r.restart.Some?
    ensures Begun(w, mid, r, list, calls) <= Room(r) + |calls|
    ensures (forall d :: !w.jumptable(d)) ==> Begun(w, mid, r, list, calls) <= Room(r) + if mid then 0 else 1
    decreases |calls|
  {
    if calls != [] && r.restart.value.cur != -1 {
      var c := calls[0];
      var r' := r.(breaks := c.breaks);
      RestartsAreBounded(w, Entered(mid, r'), list, c.s, c.f);
      var out := Apply(w, mid, r', Group(list), c.s, c.f);
      if out.Ok? && out.r.restart.Some? && out.body.Group? {
        AllPassesAreBounded(w, false, out.r, out.body.list, calls[1..]);
      } else if out.Stop? && out.q.restart.Some? && out.mid.Group? {
        AllPassesAreBounded(w, true, out.q, out.mid.list, calls[1..]);
      }
    }
  }

  /** A restart group that is done, without breakpoints. */
  predicate Idle(a: Action) {
    && a.body.Group? && a.r.restart.Some? && a.r.restart.value.cur == -1 && (a.status.Start? || a.status.End?)
    && !StartBreaks(a.r) && !ActionBreaks(a.r)
  }

  /** Every call of the series hands the data back as they were, and counts nothing. */
  predicate Untouched<D(!new, ==)>(w: World<D>, a: Action, data: seq<St<D>>, f: nat)
    decreases |data|
  {
    data == [] ||
      var out := Perform(w, a, data[0], f);
      out.Done? && out.s == data[0] && out.count == 0 && Untouched(w, out.a, data[1..], f)
  }

  /** A finished restart group does nothing in any number of calls until it is reset. */
  lemma {:induction false} FinishedIsIdle<D(!new)>(w: World<D>, a: Action, data: seq<St<D>>, f: nat)
    requires Idle(a) && f > 2
    ensures Untouched(w, a, data, f)
    decreases |data|
  {
    if data != [] {
      IdleOnce(w, a, data[0], f);
      FinishedIsIdle(w, Perform(w, a, data[0], f).a, data[1..], f);
    }
  }

  lemma {:induction false} IdleOnce<D(!new)>(w: World<D>, a: Action, s: St<D>, f: nat)
    requires Idle(a) && f > 2
    ensures var out := Perform(w, a, s, f);
      out.Done? && out.s == s && out.count == 0 && Idle(out.a)
  {
    if a.status.Start? {
      var r := a.r.(count := 0, lcount := 0);
      assert Apply(w, false, r, a.body, s, f - 1) == Ok(r, a.body, s, f - 2);
      assert Finish(w, r, a.body, s, f - 2) == Done(Action(FinalStatus(r), r, a.body), s, 0, f - 3);
      assert Perform(w, a, s, f) == Attempt(w, false, r, a.body, s, f - 1) == Finish(w, r, a.body, s, f - 2);
    }
  }
}
