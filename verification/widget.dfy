/** The framework half of a device widget (`GenericWidget`): its named
    fields, the update-cycle counter that gates serial queries and reads,
    and the outgoing serial queue. Tkinter objects are not modelled; a
    field's `StringVar` is a slot in the widget's variable store, so two
    names bound to one `StringVar` share a slot exactly as in Python. */
module GenericWidget {
  import opened Outcomes
  import opened PyMath

  /** The three accepted values of `add_field`'s `field_type`. */
  datatype FieldType = TextOutput | TextInput | Dropdown

  /** The exceptions `add_field` raises. */
  datatype FieldError = BadFieldType | MissingOptions

  function ParseFieldType(s: string): (r: Option<FieldType>)
    ensures r == Some(TextOutput) <==> s == "text output"
    ensures r == Some(TextInput) <==> s == "text input"
    ensures r == Some(Dropdown) <==> s == "dropdown"
  {
    if s == "text output" then Some(TextOutput)
    else if s == "text input" then Some(TextInput)
    else if s == "dropdown" then Some(Dropdown)
    else None
  }

  /** Where a new field's `StringVar` comes from: a fresh one holding the
      default value, or (`custom_stringvar`) one already in the store. */
  datatype FieldVar = Fresh | Existing(slot: nat)

  datatype Widget = Widget(
    name: string,
    nickname: string,
    /** Contents of every `StringVar` the widget's fields are bound to. */
    vars: seq<string>,
    /** `attributes`: field name to its `StringVar`. */
    attributes: map<string, nat>,
    /** `values_to_log`: logged name to the `StringVar` bound when logged. */
    toLog: map<string, nat>,
    /** `default_values` of the text-output fields, and their dict order. */
    defaults: map<string, string>,
    defaultOrder: seq<string>,
    confirmButton: bool,
    noSerial: bool,
    serialShared: bool,
    /** `serial_object is not None`. */
    serialOpen: bool,
    /** `update_every_n_cycles` and `_update_cycle_counter`. */
    everyN: int,
    counter: int,
    /** `sending_queue` and `queue_delays`. */
    queue: seq<string>,
    queueDelays: seq<int>
  )
  {
    /** Every name is bound to a slot of the store and the default order
        lists exactly the defaulted names, once each. */
    ghost predicate WellFormed() {
      && (forall f :: f in attributes ==> attributes[f] < |vars|)
      && (forall f :: f in toLog ==> toLog[f] < |vars|)
      && (forall f :: f in defaults ==> f in attributes)
      && Tracks(defaults, defaultOrder)
      && |queue| == |queueDelays|
    }

    /** `get_field`; an unknown name raises `KeyError` (here `None`). */
    function GetField(f: string): (r: Option<string>)
      requires WellFormed()
      ensures r.Some? <==> f in attributes
      ensures r.Some? ==> r.value == vars[attributes[f]]
    {
      if f in attributes then Some(vars[attributes[f]]) else None
    }

    /** `set_field`; an unknown name raises `KeyError` (here `None`). */
    function SetField(f: string, v: string): (r: Option<Widget>)
      requires WellFormed()
      ensures r.Some? <==> f in attributes
      ensures r.Some? ==> r.value.WellFormed()
      ensures r.Some? ==> r.value.GetField(f) == Some(v)
      ensures r.Some? ==> forall g :: g in attributes ==>
                          r.value.GetField(g) == (if attributes[g] == attributes[f] then Some(v) else GetField(g))
      ensures r.Some? ==> r.value.attributes == attributes && r.value.toLog == toLog
    {
      if f in attributes then Some(this.(vars := vars[attributes[f] := v])) else None
    }

    /** `log_data`: the current contents of every logged `StringVar`. */
    function LogData(): (r: map<string, string>)
      requires WellFormed()
      ensures r.Keys == toLog.Keys
      ensures forall k :: k in r ==> r[k] == vars[toLog[k]]
    {
      map k | k in toLog :: vars[toLog[k]]
    }

    /** A connection exists, or the widget needs none (`no_serial`): the
        gate of `confirm`, `query_serial`, `read_serial` and the handshake. */
    predicate Connected() {
      serialOpen || noSerial
    }

    /** What `log_data` returns after `set_field(f, v)`: every name logged
        from the slot of `f` now logs `v`, and every other logged name logs
        what it logged before. */
    lemma LogDataAfterSet(f: string, v: string)
      requires WellFormed() && f in attributes
      ensures SetField(f, v).Some?
      ensures var after := SetField(f, v).value;
        && after.LogData().Keys == LogData().Keys
        && forall k :: k in toLog ==>
             after.LogData()[k] == (if toLog[k] == attributes[f] then v else LogData()[k])
    {
    }

    /** `int(update_every_n_cycles*4/5)`: the counter value at which
        `read_serial` lets a read through. */
    function ReadPhase(): (r: int)
      ensures everyN >= 1 ==> 0 <= r < everyN
      ensures everyN >= 5 ==> r >= 1
    {
      TruncDiv(4 * everyN, 5)
    }
  }

  /** `GenericWidget.__init__`; `update_every_n_cycles` defaults to 1. */
  function NewWidget(name: string, nickname: string, noSerial: bool, shared: bool, everyN: int): (w: Widget)
    ensures w.WellFormed()
    ensures w.attributes == map[] && w.toLog == map[] && w.defaults == map[]
    ensures !w.serialOpen && !w.confirmButton
    ensures w.counter == -1 && w.everyN == everyN
  {
    Widget(name, nickname, [], map[], map[], map[], [], false, noSerial, shared, false,
           everyN, -1, [], [])
  }

  /** `add_field`. A text output records its default for `close_serial`;
      an input field adds the confirm button; `log=False` leaves an
      existing `values_to_log` entry for the same name in place. */
  function AddField(w: Widget, fieldType: string, name: string, default: string,
                    hasOptions: bool, log: bool, source: FieldVar): (r: Result<Widget, FieldError>)
    requires w.WellFormed()
    requires source.Existing? ==> source.slot < |w.vars|
    ensures r.Err? <==> ParseFieldType(fieldType).None? || (fieldType == "dropdown" && !hasOptions)
    ensures r == Err(MissingOptions) <==> fieldType == "dropdown" && !hasOptions
    ensures r.Ok? ==> r.value.WellFormed()
    ensures r.Ok? ==> r.value.GetField(name) == Some(if source.Existing? then w.vars[source.slot] else default)
    ensures r.Ok? ==> forall g :: g in w.attributes && g != name ==> r.value.GetField(g) == w.GetField(g)
    ensures r.Ok? ==> r.value.attributes.Keys == w.attributes.Keys + {name}
    ensures r.Ok? ==> (name in r.value.toLog <==> log || name in w.toLog)
    ensures r.Ok? && log ==> r.value.toLog[name] == r.value.attributes[name]
    ensures r.Ok? && !log ==> r.value.toLog == w.toLog
    ensures r.Ok? ==> (r.value.confirmButton <==> w.confirmButton || fieldType != "text output")
    ensures r.Ok? && fieldType == "text output" ==> r.value.defaults == w.defaults[name := default]
    ensures r.Ok? && fieldType != "text output" ==> r.value.defaults == w.defaults
  {
    match ParseFieldType(fieldType)
    case None => Err(BadFieldType)
    case Some(kind) =>
      if kind == Dropdown && !hasOptions then Err(MissingOptions)
      else
        Ok(Bound(w, kind, name, default, log, source))
  }

  /** The widget with `name` bound: to the existing slot, or to a fresh
      one appended to the store. */
  function Bound(w: Widget, kind: FieldType, name: string, default: string, log: bool, source: FieldVar): (r: Widget)
    requires w.WellFormed()
    requires source.Existing? ==> source.slot < |w.vars|
    ensures r.WellFormed()
    ensures |r.vars| >= |w.vars| && r.vars[..|w.vars|] == w.vars
    ensures name in r.attributes && r.vars[r.attributes[name]] == (if source.Existing? then w.vars[source.slot] else default)
    ensures r.attributes == w.attributes[name := r.attributes[name]]
    ensures r.toLog == (if log then w.toLog[name := r.attributes[name]] else w.toLog)
    ensures r.defaults == (if kind == TextOutput then w.defaults[name := default] else w.defaults)
    ensures r.confirmButton == (w.confirmButton || kind != TextOutput)
  {
    var slot := if source.Existing? then source.slot else |w.vars|;
    var vars := if source.Existing? then w.vars else w.vars + [default];
    var order := if kind == TextOutput && name !in w.defaults then w.defaultOrder + [name]
                 else w.defaultOrder;
    assert Tracks(if kind == TextOutput then w.defaults[name := default] else w.defaults, order) by {
      if kind == TextOutput {
        TracksAdded(w.defaults, w.defaultOrder, name, default);
      }
    }
    var w' := w.(vars := vars,
                 attributes := w.attributes[name := slot],
                 toLog := if log then w.toLog[name := slot] else w.toLog,
                 defaults := if kind == TextOutput then w.defaults[name := default] else w.defaults,
                 defaultOrder := order,
                 confirmButton := w.confirmButton || kind != TextOutput);
    w'
  }

  /** `order` lists the keys of `defaults`, once each: the order in which
      the dict `default_values` holds them. */
  ghost predicate Tracks(defaults: map<string, string>, order: seq<string>) {
    && (forall f :: f in defaults <==> f in order)
    && (forall i, j :: 0 <= i < j < |order| ==> order[i] != order[j])
  }

  /** A dict assignment appends a new key and keeps an existing one's place. */
  lemma TracksAdded(defaults: map<string, string>, order: seq<string>, name: string, default: string)
    requires Tracks(defaults, order)
    ensures Tracks(defaults[name := default], if name !in defaults then order + [name] else order)
  {
    if name !in defaults {
      var order' := order + [name];
      forall i, j | 0 <= i < j < |order'| ensures order'[i] != order'[j] {
        if j == |order| {
          assert order[i] in order;
        }
      }
    }
  }

  // ---------------------------------------------------------------------
  // The update cycle

  /** `query_serial`: advance the cycle counter modulo `n`; `on_serial_query`
      runs when it wraps to 0 and a connection (or `no_serial`) exists.
      With `n == 0` the increment is stored and then `%=` raises
      `ZeroDivisionError`, which `query_serial` does not catch. */
  datatype QueryStep = QueryStep(w: Widget, queried: bool, raised: bool)

  function QuerySerial(w: Widget): (r: QueryStep)
    ensures r.raised <==> w.everyN == 0
    ensures r.raised ==> r.w == w.(counter := w.counter + 1) && !r.queried
    ensures !r.raised ==> r.w == w.(counter := PyMod(w.counter + 1, w.everyN).value)
    ensures r.queried <==> !r.raised && r.w.counter == 0 && w.Connected()
  {
    match PyMod(w.counter + 1, w.everyN)
    case None => QueryStep(w.(counter := w.counter + 1), false, true)
    case Some(c) => QueryStep(w.(counter := c), c == 0 && (w.serialOpen || w.noSerial), false)
  }

  /** What a device's `on_serial_read` does when the framework calls it. */
  datatype DeviceRead = Returns(value: ReadValue) | Raises

  /** `read_serial`: `None` when the counter is not at the read phase or no
      connection exists; otherwise the device's verdict, with a raised
      exception turned into `False`. */
  function ReadSerial(w: Widget, device: DeviceRead): (r: Option<ReadValue>)
    ensures r.Some? <==> w.counter == w.ReadPhase() && w.Connected()
    ensures r.Some? && device.Raises? ==> r.value == ReadFalse
    ensures r.Some? && device.Returns? ==> r.value == device.value
  {
    if w.counter != w.ReadPhase() then None
    else if !(w.serialOpen || w.noSerial) then None
    else match device
      case Returns(v) => Some(v)
      case Raises => Some(ReadFalse)
  }

  /** How opening the port turned out inside `_open_serial_query`: it
      raised, or it left `serial_object` set or `None` (a shared widget
      whose partner is not open, an emulator that returns `None`). */
  datatype PortOpening = OpenRaised | Opened(connected: bool)

  /** The result of `open_serial`: the widget afterwards, whether the
      handshake query reached the device, whether `on_serial_open(False)`
      ran at once, and the delay before `_open_serial_read` (`None` when
      a `ZeroDivisionError` skipped the scheduling). */
  datatype OpenStep = OpenStep(w: Widget, handshakeQueried: bool, failedAtOnce: bool, readAfter: Option<int>)

  /** `open_serial` with `_open_serial_query` inlined: empty the queue,
      set the counter to -1 so the handshake query goes out, open the
      port, query, then force the counter to the read phase and schedule
      the handshake read `int(wait*(phase+0.5))` milliseconds later. */
  function OpenSerial(w: Widget, opening: PortOpening, pollingWait: int): (r: OpenStep)
    requires w.WellFormed()
    ensures r.w.WellFormed()
    ensures r.w.queue == [] && r.w.queueDelays == []
    ensures r.w.serialOpen <==> opening == Opened(true) && !w.noSerial
    ensures r.failedAtOnce <==> opening.OpenRaised?
    ensures r.readAfter.None? <==> w.everyN == 0 && !opening.OpenRaised?
    ensures r.readAfter.Some? ==> r.w.counter == r.w.ReadPhase()
    ensures r.handshakeQueried <==> !opening.OpenRaised? && w.everyN != 0 && r.w.Connected()
    ensures r.w.vars == w.vars && r.w.attributes == w.attributes && r.w.toLog == w.toLog
  {
    var w0 := w.(queue := [], queueDelays := [], counter := -1, serialOpen := false);
    var phase := w.ReadPhase();
    var wait := TruncDiv(pollingWait * (2 * phase + 1), 2);
    match opening
    case OpenRaised =>
      OpenStep(w0.(counter := phase), false, true, Some(wait))
    case Opened(connected) =>
      var w1 := w0.(serialOpen := connected && !w.noSerial);
      var q := QuerySerial(w1);
      if q.raised then OpenStep(q.w, false, false, None)
      else OpenStep(q.w.(counter := phase), q.queried, false, Some(wait))
  }

  /** `_open_serial_read`: `None` when there is no connection to read (the
      call returns early); otherwise the value handed to `on_serial_open`.
      A handshake that is not `True` closes a real connection. */
  datatype HandshakeStep = HandshakeStep(w: Widget, reported: Option<Option<ReadValue>>)

  function OpenSerialRead(w: Widget, device: DeviceRead): (r: HandshakeStep)
    ensures r.reported.None? <==> !w.Connected()
    ensures r.reported.Some? ==> r.reported.value == ReadSerial(w, device)
    ensures r.w.serialOpen <==> w.serialOpen && (w.noSerial || r.reported == Some(Some(ReadTrue)))
    ensures r.w == w.(serialOpen := r.w.serialOpen)
  {
    if !(w.serialOpen || w.noSerial) then HandshakeStep(w, None)
    else
      var hs := ReadSerial(w, device);
      if hs == Some(ReadTrue) || w.noSerial then HandshakeStep(w, Some(hs))
      else HandshakeStep(w.(serialOpen := false), Some(hs))
  }

  /** A handshake that did not come back `True` on a widget that needs a
      port leaves it without a connection: later cycles neither query nor
      read it, and a second handshake read returns early. */
  lemma FailedHandshakeSilences(w: Widget, device: DeviceRead, later: DeviceRead)
    requires !w.noSerial
    requires OpenSerialRead(w, device).reported.Some?
    requires OpenSerialRead(w, device).reported.value != Some(ReadTrue)
    ensures var after := OpenSerialRead(w, device).w;
      && !after.Connected()
      && ReadSerial(after, later).None?
      && !QuerySerial(after).queried
      && OpenSerialRead(after, later).reported.None?
  {
  }

  /** Overwrite slot `attributes[k]` with `defaults[k]`, for each `k` of
      `keys` in order. */
  function RestoreDefaults(vars: seq<string>, attributes: map<string, nat>,
                           defaults: map<string, string>, keys: seq<string>): (r: seq<string>)
    requires forall k :: k in keys ==> k in defaults && k in attributes && attributes[k] < |vars|
    ensures |r| == |vars|
    decreases |keys|
  {
    if keys == [] then vars
    else
      var k := keys[0];
      RestoreDefaults(vars[attributes[k] := defaults[k]], attributes, defaults, keys[1..])
  }

  /** `close_serial`: drop an unshared connection and put every text output
      back to its default. */
  function CloseSerial(w: Widget): (r: Widget)
    requires w.WellFormed()
    ensures r.WellFormed()
    ensures r.serialOpen <==> w.serialOpen && w.serialShared
    ensures r == w.(vars := r.vars, serialOpen := r.serialOpen)
  {
    w.(vars := RestoreDefaults(w.vars, w.attributes, w.defaults, w.defaultOrder),
       serialOpen := w.serialOpen && w.serialShared)
  }

  /** A slot that none of `keys` is bound to keeps its contents. */
  lemma {:induction false} RestoreKeepsOthers(vars: seq<string>, attributes: map<string, nat>,
                                              defaults: map<string, string>, keys: seq<string>, s: nat)
    requires forall k :: k in keys ==> k in defaults && k in attributes && attributes[k] < |vars|
    requires s < |vars|
    requires forall k :: k in keys ==> attributes[k] != s
    ensures RestoreDefaults(vars, attributes, defaults, keys)[s] == vars[s]
    decreases |keys|
  {
    if keys != [] {
      var k := keys[0];
      assert k in keys;
      RestoreKeepsOthers(vars[attributes[k] := defaults[k]], attributes, defaults, keys[1..], s);
    }
  }

  /** A slot that only `keys[i]` is bound to ends up holding its default. */
  lemma {:induction false} RestoreSetsOwn(vars: seq<string>, attributes: map<string, nat>,
                                          defaults: map<string, string>, keys: seq<string>, i: nat)
    requires forall k :: k in keys ==> k in defaults && k in attributes && attributes[k] < |vars|
    requires i < |keys|
    requires forall j :: 0 <= j < |keys| && j != i ==> attributes[keys[j]] != attributes[keys[i]]
    ensures RestoreDefaults(vars, attributes, defaults, keys)[attributes[keys[i]]] == defaults[keys[i]]
    decreases |keys|
  {
    var k := keys[0];
    var rest := keys[1..];
    assert k in keys;
    var vars' := vars[attributes[k] := defaults[k]];
    if i == 0 {
      forall k' | k' in rest ensures attributes[k'] != attributes[k] {
        var j :| 0 <= j < |rest| && rest[j] == k';
        assert keys[j + 1] == k';
      }
      RestoreKeepsOthers(vars', attributes, defaults, rest, attributes[k]);
    } else {
      forall j | 0 <= j < |rest| && j != i - 1 ensures attributes[rest[j]] != attributes[rest[i - 1]] {
        assert rest[j] == keys[j + 1];
      }
      RestoreSetsOwn(vars', attributes, defaults, rest, i - 1);
    }
  }

  /** After `close_serial`, every text output whose `StringVar` no other
      text output shares reads back its default value, and every field
      bound to no text output's `StringVar` keeps its value. */
  lemma CloseSerialRestores(w: Widget, f: string)
    requires w.WellFormed()
    requires f in w.attributes
    ensures f in w.defaults && (forall g :: g in w.defaults && g != f ==> w.attributes[g] != w.attributes[f])
            ==> CloseSerial(w).GetField(f) == Some(w.defaults[f])
    ensures (forall g :: g in w.defaults ==> w.attributes[g] != w.attributes[f])
            ==> CloseSerial(w).GetField(f) == w.GetField(f)
  {
    var keys := w.defaultOrder;
    if f in w.defaults && (forall g :: g in w.defaults && g != f ==> w.attributes[g] != w.attributes[f]) {
      var i :| 0 <= i < |keys| && keys[i] == f;
      forall j | 0 <= j < |keys| && j != i ensures w.attributes[keys[j]] != w.attributes[keys[i]] {
        assert keys[j] in w.defaults && keys[j] != f;
      }
      RestoreSetsOwn(w.vars, w.attributes, w.defaults, keys, i);
    }
    if forall g :: g in w.defaults ==> w.attributes[g] != w.attributes[f] {
      RestoreKeepsOthers(w.vars, w.attributes, w.defaults, keys, w.attributes[f]);
    }
  }

  // ---------------------------------------------------------------------
  // The outgoing queue

  /** `send_via_queue` on this widget's own queue: append the message; the
      first message in an empty queue starts the `_update_queue` timer. */
  datatype Enqueued = Enqueued(w: Widget, timer: Option<int>)

  function Enqueue(w: Widget, text: string, delay: int): (r: Enqueued)
    requires w.WellFormed()
    ensures r.w.WellFormed()
    ensures r.w.queue == w.queue + [text]
    ensures r.w.queueDelays == w.queueDelays + [delay]
    ensures r.timer.Some? <==> w.queue == []
    ensures r.timer.Some? ==> r.timer.value == delay
    ensures r.w == w.(queue := r.w.queue, queueDelays := r.w.queueDelays)
  {
    var w' := w.(queue := w.queue + [text], queueDelays := w.queueDelays + [delay]);
    Enqueued(w', if |w'.queue| == 1 then Some(delay) else None)
  }

  /** `_update_queue`: write the head of the queue, or, when the write
      raises (closed port, empty queue), discard the whole queue. The
      next call is scheduled after the new head's delay. */
  datatype QueueStep = QueueStep(w: Widget, written: Option<string>, timer: Option<int>)

  function UpdateQueue(w: Widget, writeOk: bool): (r: QueueStep)
    requires w.WellFormed()
    ensures r.w.WellFormed()
    ensures r.written.Some? <==> writeOk && w.queue != []
    ensures r.written.Some? ==> r.written.value == w.queue[0]
    ensures r.written.Some? ==> r.w.queue == w.queue[1..] && r.w.queueDelays == w.queueDelays[1..]
    ensures r.written.None? ==> r.w.queue == [] && r.w.queueDelays == []
    ensures r.timer.Some? <==> r.w.queue != []
    ensures r.timer.Some? ==> r.timer.value == r.w.queueDelays[0]
    ensures r.w == w.(queue := r.w.queue, queueDelays := r.w.queueDelays)
  {
    if !writeOk || w.queue == [] then QueueStep(w.(queue := [], queueDelays := []), None, None)
    else
      var w' := w.(queue := w.queue[1..], queueDelays := w.queueDelays[1..]);
      QueueStep(w', Some(w.queue[0]), if w'.queue != [] then Some(w'.queueDelays[0]) else None)
  }

  /** Running `_update_queue` each time its timer fires, with every write
      succeeding: the messages written, and the delays the timers wait. */
  function Drain(w: Widget): (r: (seq<string>, seq<int>))
    requires w.WellFormed()
    decreases |w.queue|
  {
    var step := UpdateQueue(w, true);
    if step.written.None? then ([], [])
    else
      var rest := Drain(step.w);
      ([step.written.value] + rest.0, (if step.timer.Some? then [step.timer.value] else []) + rest.1)
  }

  /** The queue is first in, first out: draining it writes exactly the
      queued messages in order, each later message after its own delay. */
  lemma {:induction false} DrainIsFifo(w: Widget)
    requires w.WellFormed()
    ensures Drain(w).0 == w.queue
    ensures w.queue != [] ==> Drain(w).1 == w.queueDelays[1..]
    decreases |w.queue|
  {
    if w.queue != [] {
      var step := UpdateQueue(w, true);
      DrainIsFifo(step.w);
    }
  }

  // ---------------------------------------------------------------------
  // Cycle gating

  /** The widget after `j` polling cycles of `query_serial`. */
  function QueryTimes(w: Widget, j: nat): (r: Widget)
    requires w.everyN != 0
    ensures r.everyN == w.everyN
    ensures r == w.(counter := r.counter)
    decreases j
  {
    if j == 0 then w else QueryTimes(QuerySerial(w).w, j - 1)
  }

  /** With `n >= 1` and the counter `c` in `0..n-1`, the counter after
      `j <= n` cycles is `c + j`, wrapped once past `n`. */
  lemma {:induction false} QueryTimesCounter(w: Widget, j: nat)
    requires w.everyN >= 1
    requires 0 <= w.counter < w.everyN
    requires j <= w.everyN
    ensures QueryTimes(w, j).counter ==
      (if w.counter + j < w.everyN then w.counter + j else w.counter + j - w.everyN)
    decreases j
  {
    if j > 0 {
      var w1 := QuerySerial(w).w;
      assert QueryTimes(w, j) == QueryTimes(w1, j - 1);
      CounterStep(w.counter, w.everyN);
      QueryTimesCounter(w1, j - 1);
    }
  }

  /** One `query_serial` step on an in-range counter. */
  lemma CounterStep(c: int, n: int)
    requires 0 <= c < n
    ensures PyMod(c + 1, n) == Some(if c + 1 < n then c + 1 else 0)
  {
    if c + 1 < n {
      assert (c + 1) % n == c + 1;
    } else {
      assert c + 1 == n;
      assert n % n == 0;
    }
  }

  /** The gating repeats with period `n`: `n` cycles bring the widget
      back to the same state. */
  lemma QueryPeriod(w: Widget)
    requires w.everyN >= 1
    requires 0 <= w.counter < w.everyN
    ensures QueryTimes(w, w.everyN) == w
  {
    QueryTimesCounter(w, w.everyN);
  }

  /** After `open_serial` sets the counter to the read phase `p`, among
      the next `n` cycles (and so, by `QueryPeriod`, in every later block
      of `n`) the device is queried only on cycle `n-1-p` and read only on
      cycle `n-1`: a read trails its query by `p` cycles plus the half
      cycle between query and read. */
  lemma CycleGating(w: Widget, j: nat)
    requires w.everyN >= 1 && w.counter == w.ReadPhase()
    requires w.Connected()
    requires j < w.everyN
    ensures QuerySerial(QueryTimes(w, j)).queried <==> j == w.everyN - 1 - w.ReadPhase()
    ensures ReadSerial(QuerySerial(QueryTimes(w, j)).w, Returns(ReadTrue)).Some?
            <==> j == w.everyN - 1
  {
    QueryTimesCounter(w, j + 1);
    QueryTimesUnfold(w, j);
  }

  lemma {:induction false} QueryTimesUnfold(w: Widget, j: nat)
    requires w.everyN != 0
    ensures QueryTimes(w, j + 1) == QuerySerial(QueryTimes(w, j)).w
    decreases j
  {
    if j > 0 {
      QueryTimesUnfold(QuerySerial(w).w, j - 1);
    }
  }
}
