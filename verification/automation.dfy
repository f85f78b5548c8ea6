/** The automation scheduler (`AutomationWidget`): a script loads a list
    of steps, each with the delay in seconds since the previous one; start
    turns the delays into absolute deadlines from the current time, and a
    tick fires the step under the cursor once its deadline has passed.
    The wall clock is the integer parameter `now` (seconds), and
    `root.after(ms, _update_tasks)` is the returned delay of the next tick. */
module Automation {
  import opened Outcomes
  import opened PyText
  import opened GenericWidget
  import opened Dashboard

  /** A queued step. `Call` is a function passed to `schedule_function`,
      identified by `fn`; it is called with no argument when it takes none
      and with the dashboard otherwise. `Action` is the closure built by
      `schedule_action`: the target widget was resolved from its nickname
      when the step was scheduled. */
  datatype Step =
    | Call(fn: nat, argCount: nat)
    | Action(target: nat, field: string, value: string, confirm: bool)

  datatype Automation = Automation(
    /** `delay_for_loading`: seconds accumulated since the last step. */
    pending: int,
    /** `delay_list` and `lambda_list`. */
    delays: seq<int>,
    steps: seq<Step>,
    /** `absolute_time_list` and `end_time`, set by start. */
    deadlines: seq<int>,
    endTime: int,
    /** `automation_index`. */
    cursor: nat,
    /** `seconds_to_next_task` and `time_to_go`. */
    secondsToNext: int,
    timeToGo: int,
    /** `pause_tasks`. */
    paused: bool,
    /** The `lines_loaded` readout. */
    progress: string
  )

  /** What every operation keeps: one delay per step, deadlines planned
      for at most the loaded steps, and a cursor on a step (or at 0). */
  ghost predicate Inv(a: Automation) {
    && |a.steps| == |a.delays|
    && |a.deadlines| <= |a.delays|
    && (a.cursor < |a.delays| || a.cursor == 0)
  }

  /** What start establishes and ticks keep while running: a deadline per
      step, each after the cursor its predecessor's deadline plus its own
      delay, and `end_time` the last deadline. */
  ghost predicate Planned(a: Automation) {
    && Inv(a)
    && |a.deadlines| == |a.delays| > a.cursor
    && a.endTime == a.deadlines[|a.deadlines| - 1]
    && forall i :: a.cursor < i < |a.delays| ==> a.deadlines[i] == a.deadlines[i - 1] + a.delays[i]
  }

  /** Running means planned. */
  ghost predicate Running(a: Automation) {
    Inv(a) && (!a.paused ==> Planned(a))
  }

  function Sum(s: seq<int>): int {
    if s == [] then 0 else s[0] + Sum(s[1..])
  }

  lemma {:induction false} SumAppend(s: seq<int>, x: int)
    ensures Sum(s + [x]) == Sum(s) + x
    decreases |s|
  {
    if s != [] {
      assert (s + [x])[1..] == s[1..] + [x];
      SumAppend(s[1..], x);
    }
  }

  /** The `lines_loaded` readout "k/N steps done.". */
  function Progress(k: int, n: int): string {
    ShowInt(k) + "/" + ShowInt(n) + " steps done."
  }

  /** The widget as constructed: nothing loaded, paused. */
  function NewAutomation(): (a: Automation)
    ensures Running(a) && a.paused && a.steps == [] && a.pending == 0
  {
    Automation(0, [], [], [], 0, 0, 0, 0, true, "")
  }

  // ---------------------------------------------------------------------
  // Authoring primitives

  /** `h,m,s = delay.split(":")` then `3600*int(h)+60*int(m)+int(s)`:
      exactly three `:`-separated integers, signs allowed. `None` is the
      `ValueError` of a wrong count or a non-integer part. */
  function ParseDelay(text: string): (r: Option<int>)
    ensures |Fields(text)| != 3 ==> r.None?
    ensures r.Some? <==> |Fields(text)| == 3 && DelayParts(Fields(text))
  {
    var parts := Fields(text);
    if |parts| != 3 then None
    else if DelayParts(parts) then Some(Seconds(Part(parts[0]).value, Part(parts[1]).value, Part(parts[2]).value))
    else None
  }

  /** `delay.split(":")`. */
  function Fields(text: string): (r: seq<string>)
    ensures |r| >= 1 && Join(r, ':') == text
  {
    SplitOn(text, ':')
  }

  /** One `int()` of the three. */
  function Part(s: string): Option<int> {
    ParseInt(s)
  }

  predicate DelayParts(parts: seq<string>)
    requires |parts| == 3
  {
    Part(parts[0]).Some? && Part(parts[1]).Some? && Part(parts[2]).Some?
  }

  /** `3600*h + 60*m + s`. */
  function Seconds(h: int, m: int, s: int): int {
    3600 * h + 60 * m + s
  }

  /** `"h:m:s"` written with `str()` reads back as `3600h + 60m + s`,
      negative parts included: `"0:0:-1"` schedules one second earlier. */
  lemma ParseDelayShow(h: int, m: int, s: int)
    ensures ParseDelay(ShowInt(h) + ":" + ShowInt(m) + ":" + ShowInt(s)) == Some(Seconds(h, m, s))
  {
    NoColonInShowInt(h);
    NoColonInShowInt(m);
    NoColonInShowInt(s);
    var text := ShowInt(h) + ":" + ShowInt(m) + ":" + ShowInt(s);
    FieldsOfThree(ShowInt(h), ShowInt(m), ShowInt(s));
    var parts := Fields(text);
    PartShowInt(h);
    PartShowInt(m);
    PartShowInt(s);
  }

  /** The documented `hh:mm:ss` form, with leading zeros (`"0:00:05"`),
      reads as `3600h + 60m + s` of the digits' values. */
  lemma ParseDelayDigits(hh: string, mm: string, ss: string)
    requires |hh| > 0 && |mm| > 0 && |ss| > 0
    requires AllDigits(hh) && AllDigits(mm) && AllDigits(ss)
    ensures ParseDelay(hh + ":" + mm + ":" + ss) ==
              Some(Seconds(DigitsValue(hh), DigitsValue(mm), DigitsValue(ss)))
  {
    NoColonInDigits(hh);
    NoColonInDigits(mm);
    NoColonInDigits(ss);
    FieldsOfThree(hh, mm, ss);
    ParseAllDigits(hh);
    ParseAllDigits(mm);
    ParseAllDigits(ss);
  }

  /** `"0:00:05"` schedules five seconds. */
  lemma PaddedDelay(text: string)
    requires text == "0:00:05"
    ensures ParseDelay(text) == Some(5)
  {
    var hh, mm, ss := "0", "00", "05";
    assert text == hh + ":" + mm + ":" + ss;
    PaddedDigits(hh, mm, ss);
    ParseDelayDigits(hh, mm, ss);
  }

  lemma PaddedDigits(hh: string, mm: string, ss: string)
    requires hh == "0" && mm == "00" && ss == "05"
    ensures AllDigits(hh) && AllDigits(mm) && AllDigits(ss)
    ensures Seconds(DigitsValue(hh), DigitsValue(mm), DigitsValue(ss)) == 5
  {
    assert mm[..1] == "0" && ss[..1] == "0";
  }

  lemma NoColonInDigits(d: string)
    requires AllDigits(d)
    ensures ':' !in d
  {
    assert forall i :: 0 <= i < |d| ==> IsDigit(d[i]);
  }

  lemma PartShowInt(i: int)
    ensures Part(ShowInt(i)) == Some(i)
  {
    ParseShowInt(i);
  }

  lemma NoColonInShowInt(i: int)
    ensures ':' !in ShowInt(i)
  {
    assert forall c :: c in ShowInt(i) ==> IsDigit(c) || c == '-';
  }

  /** Three pieces without a `:`, joined by `:`, split back into themselves. */
  lemma FieldsOfThree(x: string, y: string, z: string)
    requires ':' !in x && ':' !in y && ':' !in z
    ensures Fields(x + ":" + y + ":" + z) == [x, y, z]
  {
    var parts := [x, y, z];
    assert Join(parts[2..], ':') == z;
    assert Join(parts[1..], ':') == y + ":" + z;
    assert Join(parts, ':') == x + ":" + y + ":" + z;
    SplitOnJoin(parts, ':');
  }

  /** `schedule_delay`: add the parsed delay to the pending accumulator;
      a malformed delay raises and changes nothing. */
  function ScheduleDelay(a: Automation, text: string): (r: Option<Automation>)
    ensures r.Some? <==> ParseDelay(text).Some?
    ensures r.Some? ==> r.value.pending == a.pending + ParseDelay(text).value
    ensures r.Some? ==> r.value == a.(pending := r.value.pending)
  {
    match ParseDelay(text)
    case None => None
    case Some(d) => Some(a.(pending := a.pending + d))
  }

  /** `schedule_function`: queue `step` after the pending delay, which is
      then reset. The first step's delay also becomes the countdown. */
  function ScheduleFunction(a: Automation, step: Step): (r: Automation)
    requires Inv(a)
    ensures Inv(r)
    ensures r.delays == a.delays + [a.pending] && r.steps == a.steps + [step]
    ensures r.pending == 0
    ensures r.timeToGo == Sum(r.delays)
    ensures r.secondsToNext == if a.delays == [] then a.pending else a.secondsToNext
    ensures r == a.(delays := r.delays, steps := r.steps, pending := 0,
                    timeToGo := r.timeToGo, secondsToNext := r.secondsToNext)
  {
    var delays := a.delays + [a.pending];
    a.(secondsToNext := if a.delays == [] then a.pending else a.secondsToNext,
       delays := delays, pending := 0, steps := a.steps + [step], timeToGo := Sum(delays))
  }

  /** Why loading a script stopped. */
  datatype ScriptError = BadDelay | UnknownWidget | UnknownField | ScriptRaised

  /** `schedule_action`: resolve the nickname now (`KeyError` when
      unknown), refuse a field the widget does not have, and queue the
      closure that sets the field and optionally confirms. */
  function ScheduleAction(a: Automation, d: Dash, nick: string, field: string, value: string,
                          confirm: bool): (r: Result<Automation, ScriptError>)
    requires Inv(a) && d.WellFormed()
    ensures r == Err(UnknownWidget) <==> nick !in d.byNickname
    ensures r == Err(UnknownField) <==> nick in d.byNickname && field !in d.Named(nick).attributes
    ensures r.Ok? ==> r.value == ScheduleFunction(a, Action(d.byNickname[nick], field, value, confirm))
  {
    match d.GetWidgetByNickname(nick)
    case None => Err(UnknownWidget)
    case Some(i) =>
      if field !in d.widgets[i].w.attributes then Err(UnknownField)
      else Ok(ScheduleFunction(a, Action(i, field, value, confirm)))
  }

  /** One call an automation script makes while it is being executed;
      `Fail` is any other statement of the script that raises. */
  datatype Primitive =
    | Delay(text: string)
    | Function(fn: nat, argCount: nat)
    | SetAction(nick: string, field: string, value: string, confirm: bool)
    | Fail

  function Perform(a: Automation, d: Dash, p: Primitive): (r: Result<Automation, ScriptError>)
    requires Inv(a) && d.WellFormed()
    ensures r.Ok? ==> Inv(r.value)
  {
    match p
    case Delay(text) =>
      (match ScheduleDelay(a, text) case None => Err(BadDelay) case Some(b) => Ok(b))
    case Function(fn, n) => Ok(ScheduleFunction(a, Call(fn, n)))
    case SetAction(nick, field, value, confirm) => ScheduleAction(a, d, nick, field, value, confirm)
    case Fail => Err(ScriptRaised)
  }

  /** Executing a script: its primitives in order, up to the first that
      raises. Returns the state reached and whether the script finished. */
  function Exec(a: Automation, d: Dash, script: seq<Primitive>): (r: (Automation, bool))
    requires Inv(a) && d.WellFormed()
    ensures Inv(r.0)
    decreases |script|
  {
    if script == [] then (a, true)
    else match Perform(a, d, script[0])
      case Err(_) => (a, false)
      case Ok(b) => Exec(b, d, script[1..])
  }

  /** The reset at the start of `_load_automation_file`. `end_time` is not
      part of it. */
  function Reset(a: Automation): (r: Automation)
    ensures Running(r) && r.paused && r.steps == [] && r.delays == [] && r.pending == 0
    ensures r.endTime == a.endTime
  {
    Automation(0, [], [], [], a.endTime, 0, 0, 0, true, "")
  }

  /** `_load_automation_file` with the script's execution given as its
      sequence of primitive calls. On success the readouts show
      "0/N steps done.", the total time and the first delay; when the script
      raises, the steps queued before the error stay loaded, but the
      readouts are left as the reset made them. */
  function Load(a: Automation, d: Dash, script: seq<Primitive>): (r: Automation)
    requires d.WellFormed()
    ensures Running(r) && r.paused && r.cursor == 0
    ensures Exec(Reset(a), d, script).1 ==>
              && r.progress == Progress(0, |r.delays|)
              && r.timeToGo == Sum(r.delays)
              && r.secondsToNext == (if r.delays == [] then 0 else r.delays[0])
    ensures !Exec(Reset(a), d, script).1 ==> r == Exec(Reset(a), d, script).0 && r.progress == ""
  {
    var e := Exec(Reset(a), d, script);
    ExecKeepsPaused(Reset(a), d, script);
    if !e.1 then e.0
    else
      var b := e.0;
      b.(progress := Progress(0, |b.delays|), timeToGo := Sum(b.delays),
         secondsToNext := if b.delays == [] then 0 else b.delays[0])
  }

  /** Loading only appends: it keeps the pause flag, cursor 0, the readout,
      and no deadlines. */
  lemma {:induction false} ExecKeepsPaused(a: Automation, d: Dash, script: seq<Primitive>)
    requires Inv(a) && d.WellFormed() && a.paused && a.cursor == 0 && a.deadlines == []
    ensures var b := Exec(a, d, script).0;
      b.paused && b.cursor == 0 && b.deadlines == [] && b.progress == a.progress
    decreases |script|
  {
    if script != [] {
      match Perform(a, d, script[0])
      case Err(_) =>
      case Ok(b) => ExecKeepsPaused(b, d, script[1..]);
    }
  }

  /** How many steps a primitive queues, and how many seconds it adds. */
  function Queues(p: Primitive): nat {
    if p.Function? || p.SetAction? then 1 else 0
  }

  function Adds(p: Primitive): int {
    if p.Delay? && ParseDelay(p.text).Some? then ParseDelay(p.text).value else 0
  }

  function StepCount(script: seq<Primitive>): nat {
    if script == [] then 0 else Queues(script[0]) + StepCount(script[1..])
  }

  function TotalDelay(script: seq<Primitive>): int {
    if script == [] then 0 else Adds(script[0]) + TotalDelay(script[1..])
  }

  /** One successful primitive queues `Queues(p)` steps, moves no second
      out of the schedule, and only appends to the delays. */
  lemma PerformConserves(a: Automation, d: Dash, p: Primitive)
    requires Inv(a) && d.WellFormed()
    requires Perform(a, d, p).Ok?
    ensures var b := Perform(a, d, p).value;
      && |b.delays| == |a.delays| + Queues(p)
      && Sum(b.delays) + b.pending == Sum(a.delays) + a.pending + Adds(p)
      && b.delays[..|a.delays|] == a.delays
  {
    if p.Function? || p.SetAction? {
      SumAppend(a.delays, a.pending);
      assert (a.delays + [a.pending])[..|a.delays|] == a.delays;
    }
  }

  lemma PrefixOfPrefix<T>(c: seq<T>, b: seq<T>, a: seq<T>)
    requires |a| <= |b| <= |c| && c[..|b|] == b && b[..|a|] == a
    ensures c[..|a|] == a
  {
    assert c[..|a|] == c[..|b|][..|a|];
  }

  /** A script that runs to its end queues one step per `schedule_function`
      or `schedule_action`, and every scheduled second lands in exactly one
      step's delay or in the pending accumulator. */
  lemma {:induction false} ExecConserves(a: Automation, d: Dash, script: seq<Primitive>)
    requires Inv(a) && d.WellFormed()
    requires Exec(a, d, script).1
    ensures var b := Exec(a, d, script).0;
      && |b.delays| == |a.delays| + StepCount(script)
      && Sum(b.delays) + b.pending == Sum(a.delays) + a.pending + TotalDelay(script)
      && b.delays[..|a.delays|] == a.delays
    decreases |script|
  {
    if script == [] {
      assert Exec(a, d, script) == (a, true);
    } else {
      var p := Perform(a, d, script[0]);
      assert p.Ok?;
      ExecCons(a, d, script);
      PerformConserves(a, d, script[0]);
      ExecConserves(p.value, d, script[1..]);
      var c := Exec(p.value, d, script[1..]).0;
      PrefixOfPrefix(c.delays, p.value.delays, a.delays);
    }
  }

  /** A script that raises after some calls leaves those calls' steps
      loaded: the lists are not cleared, and the partial script can be
      started. */
  lemma FailedLoadKeepsPrefix(a: Automation, d: Dash, pre: seq<Primitive>, post: seq<Primitive>)
    requires d.WellFormed()
    requires Exec(Reset(a), d, pre).1
    ensures Load(a, d, pre + [Fail] + post) == Exec(Reset(a), d, pre).0
    ensures |Load(a, d, pre + [Fail] + post).steps| == StepCount(pre)
  {
    ExecPrefix(Reset(a), d, pre, [Fail] + post);
    assert pre + [Fail] + post == pre + ([Fail] + post);
    ExecConserves(Reset(a), d, pre);
  }

  lemma ExecCons(a: Automation, d: Dash, s: seq<Primitive>)
    requires Inv(a) && d.WellFormed() && s != []
    requires Perform(a, d, s[0]).Ok?
    ensures Exec(a, d, s) == Exec(Perform(a, d, s[0]).value, d, s[1..])
  {
  }

  lemma DropAppend<T>(s: seq<T>, t: seq<T>)
    requires s != []
    ensures (s + t)[0] == s[0] && (s + t)[1..] == s[1..] + t
  {
  }

  /** Running `pre` to its end and then `rest` is running `pre + rest`. */
  lemma {:induction false} ExecPrefix(a: Automation, d: Dash, pre: seq<Primitive>, rest: seq<Primitive>)
    requires Inv(a) && d.WellFormed()
    requires Exec(a, d, pre).1
    ensures Exec(a, d, pre + rest) == Exec(Exec(a, d, pre).0, d, rest)
    decreases |pre|
  {
    if pre != [] {
      var p := Perform(a, d, pre[0]);
      assert p.Ok?;
      ExecCons(a, d, pre);
      DropAppend(pre, rest);
      ExecCons(a, d, pre + rest);
      ExecPrefix(p.value, d, pre[1..], rest);
    } else {
      assert pre + rest == rest;
      assert Exec(a, d, pre) == (a, true);
    }
  }

  // ---------------------------------------------------------------------
  // Start, tick, pause, stop

  /** The relative deadline of step `i` when starting at cursor `c` with
      countdown `first`: steps before the cursor are due at once, the
      cursor step after the countdown, and each later one its own delay
      after its predecessor. */
  function RelDeadline(delays: seq<int>, c: nat, first: int, i: nat): int
    requires c <= i < |delays| || i < c
  {
    if i < c then 0 else first + Sum(delays[c + 1..i + 1])
  }

  /** The deadlines start computes (the `rel_times` list plus `t0`). */
  function Plan(delays: seq<int>, c: nat, first: int, t0: int): (r: seq<int>)
    requires c < |delays|
    ensures |r| == |delays|
  {
    seq(|delays|, i requires 0 <= i < |delays| => t0 + RelDeadline(delays, c, first, i))
  }

  /** The deadline recurrence: `t0` before the cursor, `t0 + first` at the
      cursor, the previous deadline plus the step's delay after it. */
  lemma PlanShape(delays: seq<int>, c: nat, first: int, t0: int)
    requires c < |delays|
    ensures forall i :: 0 <= i < c ==> Plan(delays, c, first, t0)[i] == t0
    ensures Plan(delays, c, first, t0)[c] == t0 + first
    ensures forall i :: c < i < |delays| ==>
              Plan(delays, c, first, t0)[i] == Plan(delays, c, first, t0)[i - 1] + delays[i]
  {
    var p := Plan(delays, c, first, t0);
    assert delays[c + 1..c + 1] == [];
    forall i | c < i < |delays| ensures p[i] == p[i - 1] + delays[i] {
      assert delays[c + 1..i + 1] == delays[c + 1..i] + [delays[i]];
      SumAppend(delays[c + 1..i], delays[i]);
    }
  }

  /** With no negative delay and a non-negative countdown, deadlines never
      decrease. */
  lemma {:induction false} PlanMonotone(delays: seq<int>, c: nat, first: int, t0: int, i: nat, j: nat)
    requires c < |delays| && first >= 0
    requires forall k :: 0 <= k < |delays| ==> delays[k] >= 0
    requires i <= j < |delays|
    ensures Plan(delays, c, first, t0)[i] <= Plan(delays, c, first, t0)[j]
    decreases j - i
  {
    PlanShape(delays, c, first, t0);
    if i < j {
      PlanMonotone(delays, c, first, t0, i, j - 1);
    }
  }

  /** The planning loop of `_start_automated_tasks`, as written: zeros up
      to the cursor, the countdown, then running sums of the delays. */
  method PlanLoop(delays: seq<int>, c: nat, first: int, t0: int) returns (abs: seq<int>)
    requires c < |delays|
    ensures abs == Plan(delays, c, first, t0)
  {
    PlanShape(delays, c, first, t0);
    var rel: seq<int> := [];
    var i := 0;
    while i < c
      invariant 0 <= i <= c && |rel| == i
      invariant forall k :: 0 <= k < i ==> rel[k] == 0
    {
      rel := rel + [0];
      i := i + 1;
    }
    rel := rel + [first];
    i := c + 1;
    while i < |delays|
      invariant c + 1 <= i <= |delays| && |rel| == i
      invariant forall k :: 0 <= k < i ==> t0 + rel[k] == Plan(delays, c, first, t0)[k]
    {
      rel := rel + [delays[i] + rel[i - 1]];
      i := i + 1;
    }
    abs := seq(|rel|, k requires 0 <= k < |rel| => rel[k] + t0);
  }

  /** The result of a tick: the state afterwards, the step it ran, and
      the delay of the next tick (`None`: no further tick). `Crashed` is
      an `IndexError` on the deadline list, which ends the tick chain. */
  datatype Ticked = Ticked(a: Automation, fired: Option<Step>, next: Option<int>) | Crashed

  /** The end of a tick that did not finish the script: due at once when
      the countdown is not positive, otherwise in a second, refreshing
      the time-to-go readout. */
  function Reschedule(a: Automation, fired: Option<Step>, now: int): (r: Ticked)
    ensures r.Ticked? && r.fired == fired && r.next.Some?
    ensures r.next == Some(if a.secondsToNext <= 0 then 0 else 1000)
    ensures r.a == if a.secondsToNext <= 0 then a else a.(timeToGo := a.endTime - now)
  {
    if a.secondsToNext <= 0 then Ticked(a, fired, Some(0))
    else Ticked(a.(timeToGo := a.endTime - now), fired, Some(1000))
  }

  /** The state a finished script resets to: cursor 0, paused, countdown
      the first delay, time to go the sum of the delays. */
  ghost predicate FinishedFrom(r: Automation, a: Automation) {
    && |a.delays| > 0
    && r.cursor == 0 && r.paused
    && r.secondsToNext == a.delays[0]
    && r.timeToGo == Sum(a.delays)
    && r.progress == Progress(0, |a.delays|)
    && r.steps == a.steps && r.delays == a.delays && r.deadlines == a.deadlines
  }

  /** `_update_tasks`. */
  function Tick(a: Automation, now: int): (r: Ticked)
    requires Inv(a)
    ensures a.paused ==> r == Ticked(a, None, None)
    ensures r.Crashed? <==> !a.paused && a.cursor >= |a.deadlines|
    ensures r.Ticked? ==> Inv(r.a) && r.a.steps == a.steps && r.a.delays == a.delays
    ensures r.Ticked? ==> r.a.deadlines == a.deadlines && r.a.endTime == a.endTime
    ensures r.Ticked? && !a.paused ==>
              (r.fired.Some? <==> now > a.deadlines[a.cursor])
              && (r.fired.Some? ==> r.fired.value == a.steps[a.cursor])
    ensures r.Ticked? && !a.paused && r.fired.None? ==>
              r.a.cursor == a.cursor && !r.a.paused && r.a.secondsToNext == a.deadlines[a.cursor] - now
    ensures r.Ticked? && !a.paused && r.fired.Some? && a.cursor + 1 < |a.delays| ==>
              r.a.cursor == a.cursor + 1 && !r.a.paused && r.a.secondsToNext == a.delays[a.cursor + 1]
              && r.a.progress == Progress(a.cursor + 1, |a.delays|)
    ensures r.Ticked? && !a.paused && r.fired.Some? && a.cursor + 1 >= |a.delays| ==>
              FinishedFrom(r.a, a) && r.next.None?
    ensures r.Ticked? && !r.a.paused ==>
              r.next == Some(if r.a.secondsToNext <= 0 then 0 else 1000)
              && r.a.timeToGo == (if r.a.secondsToNext <= 0 then a.timeToGo else a.endTime - now)
  {
    if a.paused then Ticked(a, None, None)
    else if a.cursor >= |a.deadlines| then Crashed
    else if now > a.deadlines[a.cursor] then
      var step := a.steps[a.cursor];
      var k := a.cursor + 1;
      var n := |a.delays|;
      if k >= n then
        Ticked(a.(cursor := 0, secondsToNext := a.delays[0], timeToGo := Sum(a.delays),
                  paused := true, progress := Progress(0, n)), Some(step), None)
      else
        Reschedule(a.(cursor := k, secondsToNext := a.delays[k], progress := Progress(k, n)), Some(step), now)
    else
      Reschedule(a.(secondsToNext := a.deadlines[a.cursor] - now), None, now)
  }

  /** A tick keeps a running script planned, and never crashes one. */
  lemma TickKeepsRunning(a: Automation, now: int)
    requires Running(a)
    ensures Tick(a, now).Ticked? && Running(Tick(a, now).a)
  {
  }

  /** After a step fires, the countdown is the next step's own delay, so
      a zero (or negative) delay fires the next step on an immediate
      tick: steps with no delay between them run back to back. */
  lemma ZeroDelayCascades(a: Automation, now: int)
    requires Running(a) && !a.paused
    requires now > a.deadlines[a.cursor] && a.cursor + 1 < |a.delays|
    requires a.delays[a.cursor + 1] <= 0
    ensures Tick(a, now).next == Some(0)
    ensures now > Tick(a, now).a.deadlines[Tick(a, now).a.cursor]
  {
  }

  /** `_start_automated_tasks`: refuse with no script or with serial
      communication off (no state change); otherwise plan the deadlines
      from `now`, unpause and tick at once. */
  datatype Started = NoScript | NotConnected | Started(planned: Automation, tick: Ticked)

  function Start(a: Automation, connected: bool, now: int): (r: Started)
    requires Inv(a)
    ensures r == NoScript <==> a.delays == []
    ensures r == NotConnected <==> a.delays != [] && !connected
    ensures r.Started? ==> Planned(r.planned) && !r.planned.paused
    ensures r.Started? ==> r.planned.deadlines == Plan(a.delays, a.cursor, a.secondsToNext, now)
    ensures r.Started? ==> r.planned == a.(deadlines := r.planned.deadlines, endTime := r.planned.endTime, paused := false)
    ensures r.Started? ==> r.tick == Tick(r.planned, now)
  {
    if a.delays == [] then NoScript
    else if !connected then NotConnected
    else
      var deadlines := Plan(a.delays, a.cursor, a.secondsToNext, now);
      PlanShape(a.delays, a.cursor, a.secondsToNext, now);
      var p := a.(deadlines := deadlines, endTime := deadlines[|deadlines| - 1], paused := false);
      Started(p, Tick(p, now))
  }

  /** `_pause_automated_tasks`: only the flag changes. */
  function Pause(a: Automation): (r: Automation)
    ensures r.paused && r == a.(paused := true)
  {
    a.(paused := true)
  }

  /** After a pause every tick is idle: nothing fires, nothing moves, and
      no further tick is scheduled. */
  lemma PausedTickIdle(a: Automation, now: int)
    requires Inv(a)
    ensures Inv(Pause(a))
    ensures Tick(Pause(a), now) == Ticked(Pause(a), None, None)
  {
  }

  /** Pausing after a tick that found the step not yet due and starting
      again at `later` shifts the whole remaining schedule by the paused
      time: every deadline from the cursor on moves by `later - now`. */
  lemma ResumeShiftsSchedule(a: Automation, now: int, later: int, i: nat)
    requires Running(a) && !a.paused && now <= a.deadlines[a.cursor]
    requires a.cursor <= i < |a.delays|
    ensures var b := Pause(Tick(a, now).a);
      Start(b, true, later).Started? &&
      Start(b, true, later).planned.deadlines[i] == a.deadlines[i] + (later - now)
  {
    var b := Pause(Tick(a, now).a);
    ShiftFrom(a, b, now, later, i);
  }

  lemma {:induction false} ShiftFrom(a: Automation, b: Automation, now: int, later: int, i: nat)
    requires Running(a) && !a.paused && now <= a.deadlines[a.cursor]
    requires b == Pause(Tick(a, now).a)
    requires a.cursor <= i < |a.delays|
    ensures Plan(b.delays, b.cursor, b.secondsToNext, later)[i] == a.deadlines[i] + (later - now)
    decreases i
  {
    PlanShape(b.delays, b.cursor, b.secondsToNext, later);
    if i > a.cursor {
      ShiftFrom(a, b, now, later, i - 1);
    }
  }

  /** `_stop_automated_tasks`: pause, rewind to the first step and reset
      the readouts. With nothing loaded `delay_list[0]` raises after the
      pause, the rewind and the time-to-go reset have happened. */
  datatype Stopped = Stopped(a: Automation, raised: bool)

  function Stop(a: Automation): (r: Stopped)
    requires Inv(a)
    ensures Inv(r.a) && r.a.paused && r.a.cursor == 0 && r.a.timeToGo == Sum(a.delays)
    ensures r.raised <==> a.delays == []
    ensures !r.raised ==> r.a.secondsToNext == a.delays[0] && r.a.progress == Progress(0, |a.delays|)
    ensures r.raised ==> r.a.secondsToNext == a.secondsToNext && r.a.progress == a.progress
    ensures r.a.steps == a.steps && r.a.delays == a.delays && r.a.deadlines == a.deadlines
  {
    var b := a.(paused := true, cursor := 0, timeToGo := Sum(a.delays));
    if a.delays == [] then Stopped(b, true)
    else Stopped(b.(secondsToNext := a.delays[0], progress := Progress(0, |a.delays|)), false)
  }

  /** Stopping and then starting plans the whole script afresh from the
      first step, the first deadline one first-delay after `now`. */
  lemma StopThenStart(a: Automation, now: int)
    requires Inv(a) && a.delays != []
    ensures Start(Stop(a).a, true, now).Started?
    ensures Start(Stop(a).a, true, now).planned.deadlines[0] == now + a.delays[0]
  {
    PlanShape(a.delays, 0, a.delays[0], now);
  }

  // ---------------------------------------------------------------------
  // Running a script to its end

  /** Ticking at a time later than every remaining deadline: the steps
      fired until the script finishes, and the final state. */
  function RunOut(a: Automation, now: int): (r: (seq<Step>, Automation))
    requires Running(a) && !a.paused
    requires forall k :: a.cursor <= k < |a.delays| ==> a.deadlines[k] < now
    decreases |a.delays| - a.cursor
  {
    var t := Tick(a, now);
    if t.a.paused then ([t.fired.value], t.a)
    else
      var rest := RunOut(t.a, now);
      ([t.fired.value] + rest.0, rest.1)
  }

  /** A started script whose deadlines have all passed fires each remaining
      step exactly once, in order, and ends finished: cursor 0, paused,
      "0/N steps done.". */
  lemma {:induction false} RunOutFiresRest(a: Automation, now: int)
    requires Running(a) && !a.paused
    requires forall k :: a.cursor <= k < |a.delays| ==> a.deadlines[k] < now
    ensures RunOut(a, now).0 == a.steps[a.cursor..]
    ensures FinishedFrom(RunOut(a, now).1, a)
    decreases |a.delays| - a.cursor
  {
    var t := Tick(a, now);
    if !t.a.paused {
      RunOutFiresRest(t.a, now);
      assert a.steps[a.cursor..] == [a.steps[a.cursor]] + a.steps[a.cursor + 1..];
    }
  }

  // ---------------------------------------------------------------------
  // What a fired step does

  /** The effect of a fired step on the dashboard: an action sets its
      field and, when asked, calls the widget's confirm (`confirmed` tells
      whether that reached `on_confirm`); an exception (here a field the
      widget lacks) is swallowed by the tick. A `Call` runs user code,
      whose effect is not modelled. */
  datatype Effect = Effect(d: Dash, confirmed: bool, raised: bool)

  function RunStep(d: Dash, step: Step): (r: Effect)
    requires d.WellFormed()
    requires step.Action? ==> step.target < |d.widgets| && d.widgets[step.target].Device?
    ensures r.d.WellFormed()
    ensures step.Call? ==> r == Effect(d, false, false)
  {
    match step
    case Call(_, _) => Effect(d, false, false)
    case Action(i, field, value, confirm) =>
      match SetFieldAt(d, i, field, value, confirm)
      case None => Effect(d, false, true)
      case Some(o) => Effect(o.d, o.confirmed, false)
  }

  /** A scheduled action, when it fires, leaves its field holding the new
      value and calls confirm exactly when it was scheduled with
      `confirm=True` (and the widget can confirm). */
  lemma ScheduledActionEffect(a: Automation, d: Dash, nick: string, field: string, value: string, confirm: bool)
    requires Inv(a) && d.WellFormed()
    requires ScheduleAction(a, d, nick, field, value, confirm).Ok?
    ensures var step := ScheduleAction(a, d, nick, field, value, confirm).value.steps[|a.steps|];
      && step.Action?
      && step.target < |d.widgets| && d.widgets[step.target].Device?
      && !RunStep(d, step).raised
      && RunStep(d, step).d.GetField(nick, field) == Some(value)
      && (RunStep(d, step).confirmed <==> confirm && d.Named(nick).Connected())
  {
  }
}
