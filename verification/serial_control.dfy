/** The serial control widget (`SerialWidget`): the connect/disconnect
    toggle, the polling cycle that prompts every widget to query and then
    read, the failure flag for widgets whose query raises, and the port
    list refresh that orders `COMn` names by number. */
module SerialControl {
  import opened Outcomes
  import opened PyMath
  import opened PyText
  import opened GenericWidget
  import opened Dashboard

  // ---------------------------------------------------------------------
  // Toggle

  /** `max_interval`: the largest `update_every_n_cycles` of any widget
      that has one, and at least 1. */
  function MaxInterval(ws: seq<Entry>): (m: int)
    ensures m >= 1
    ensures forall i :: 0 <= i < |ws| && ws[i].Device? ==> ws[i].w.everyN <= m
    ensures m == 1 || exists i :: 0 <= i < |ws| && ws[i].Device? && ws[i].w.everyN == m
  {
    if ws == [] then 1
    else
      var m := MaxInterval(ws[..|ws| - 1]);
      var last := ws[|ws| - 1];
      assert forall i :: 0 <= i < |ws| - 1 ==> ws[..|ws| - 1][i] == ws[i];
      if last.Device? && last.w.everyN > m then last.w.everyN else m
  }

  /** The result of `_toggle_serial_connected`: the dashboard afterwards,
      each widget's `open_serial` result when turning on, and the delay
      before the first `_poll_serial_ports` (`None` when turning off). */
  datatype ToggleStep = ToggleStep(d: Dash, opens: seq<Option<OpenStep>>, pollAfter: Option<int>)

  /** `open_serial` on one entry, with how its port opening turned out; a
      minimal widget has no serial side. */
  function OpenEntry(e: Entry, opening: PortOpening, wait: int): (r: (Entry, Option<OpenStep>))
    requires e.Device? ==> e.w.WellFormed()
    ensures e.Minimal? ==> r == (e, None)
    ensures e.Device? ==> r.1 == Some(OpenSerial(e.w, opening, wait)) && r.0 == Device(r.1.value.w, e.failureFlag)
    ensures e.Device? ==> r.0.w.WellFormed()
  {
    match e
    case Minimal(_) => (e, None)
    case Device(w, flag) =>
      var o := OpenSerial(w, opening, wait);
      (Device(o.w, flag), Some(o))
  }

  function OpenAll(ws: seq<Entry>, openings: seq<PortOpening>, wait: int): (r: seq<(Entry, Option<OpenStep>)>)
    requires |openings| == |ws|
    requires forall i :: 0 <= i < |ws| && ws[i].Device? ==> ws[i].w.WellFormed()
    ensures |r| == |ws|
    ensures forall i :: 0 <= i < |ws| ==> r[i] == OpenEntry(ws[i], openings[i], wait)
  {
    if ws == [] then []
    else [OpenEntry(ws[0], openings[0], wait)] + OpenAll(ws[1..], openings[1..], wait)
  }

  /** `close_serial` on one entry; a minimal widget has no serial side. */
  function CloseEntry(e: Entry): Entry
    requires e.Device? ==> e.w.WellFormed()
  {
    match e
    case Minimal(_) => e
    case Device(w, flag) => Device(CloseSerial(w), flag)
  }

  function CloseAll(ws: seq<Entry>): (r: seq<Entry>)
    requires forall i :: 0 <= i < |ws| && ws[i].Device? ==> ws[i].w.WellFormed()
    ensures |r| == |ws|
    ensures forall i :: 0 <= i < |ws| ==> r[i] == CloseEntry(ws[i])
  {
    if ws == [] then []
    else [CloseEntry(ws[0])] + CloseAll(ws[1..])
  }

  /** The widgets' kinds, registry and partners are untouched when every
      widget is replaced by a well-formed widget of the same kind. */
  lemma SameShapeWellFormed(d: Dash, ws: seq<Entry>)
    requires d.WellFormed() && |ws| == |d.widgets|
    requires forall i :: 0 <= i < |ws| ==> (ws[i].Device? <==> d.widgets[i].Device?)
    requires forall i :: 0 <= i < |ws| && ws[i].Device? ==> ws[i].w.WellFormed()
    ensures d.(widgets := ws).WellFormed()
  {
  }

  /** Turning serial off: every widget runs `close_serial`. */
  function ToggleOff(d: Dash): (r: Dash)
    requires d.WellFormed()
    ensures r.WellFormed() && !r.serialConnected
    ensures |r.widgets| == |d.widgets| && r.byNickname == d.byNickname
    ensures forall i :: 0 <= i < |d.widgets| && d.widgets[i].Device? ==>
              r.widgets[i] == Device(CloseSerial(d.widgets[i].w), d.widgets[i].failureFlag)
    ensures forall i :: 0 <= i < |d.widgets| && d.widgets[i].Minimal? ==> r.widgets[i] == d.widgets[i]
  {
    var ws := CloseAll(d.widgets);
    SameShapeWellFormed(d, ws);
    d.(serialConnected := false, widgets := ws)
  }

  /** Turning serial on: every widget runs `open_serial`, `openings[i]`
      saying how the port of widget `i` turned out. */
  function ToggleOn(d: Dash, openings: seq<PortOpening>): (r: (Dash, seq<Option<OpenStep>>))
    requires d.WellFormed()
    requires |openings| == |d.widgets|
    ensures r.0.WellFormed() && r.0.serialConnected
    ensures |r.0.widgets| == |d.widgets| == |r.1| && r.0.byNickname == d.byNickname
    ensures forall i :: 0 <= i < |d.widgets| && d.widgets[i].Device? ==>
              r.1[i] == Some(OpenSerial(d.widgets[i].w, openings[i], d.pollingWait))
    ensures forall i :: 0 <= i < |d.widgets| && d.widgets[i].Device? ==>
              r.0.widgets[i] == Device(r.1[i].value.w, d.widgets[i].failureFlag)
    ensures forall i :: 0 <= i < |d.widgets| && d.widgets[i].Minimal? ==>
              r.0.widgets[i] == d.widgets[i] && r.1[i].None?
  {
    var pairs := OpenAll(d.widgets, openings, d.pollingWait);
    var ws := seq(|pairs|, i requires 0 <= i < |pairs| => pairs[i].0);
    var opens := seq(|pairs|, i requires 0 <= i < |pairs| => pairs[i].1);
    assert forall i :: 0 <= i < |ws| ==> ws[i] == pairs[i].0 && opens[i] == pairs[i].1;
    SameShapeWellFormed(d, ws);
    (d.(serialConnected := true, widgets := ws), opens)
  }

  /** `_toggle_serial_connected`: flip `serial_connected`; turning on also
      schedules the first poll `polling × max_interval` ms later, the
      longest handshake any widget needs. */
  function Toggle(d: Dash, openings: seq<PortOpening>): (r: ToggleStep)
    requires d.WellFormed()
    requires |openings| == |d.widgets|
    ensures r.d.WellFormed()
    ensures r.d.serialConnected == !d.serialConnected
    ensures d.serialConnected ==> r.d == ToggleOff(d) && r.pollAfter.None? && r.opens == []
    ensures !d.serialConnected ==> (r.d, r.opens) == ToggleOn(d, openings)
    ensures !d.serialConnected ==> r.pollAfter == Some(d.pollingWait * MaxInterval(d.widgets))
  {
    if d.serialConnected then ToggleStep(ToggleOff(d), [], None)
    else
      var on := ToggleOn(d, openings);
      ToggleStep(on.0, on.1, Some(d.pollingWait * MaxInterval(d.widgets)))
  }

  // ---------------------------------------------------------------------
  // Polling

  /** What `_query_serial_ports` did to one widget: whether the device was
      queried, and whether the "Serial error" message was printed. */
  datatype QueryReport = QueryReport(queried: bool, reported: bool)

  /** One widget in `_query_serial_ports`. A query that raises sets the
      failure flag and closes the widget; the message is printed only when
      the flag was already there and `False`. A query that returns clears
      the flag. */
  function QueryOne(e: Entry): (r: (Entry, QueryReport))
    requires e.Device? ==> e.w.WellFormed()
    ensures r.0.Device? <==> e.Device?
    ensures r.0.Device? ==> r.0.w.WellFormed()
    ensures e.Minimal? ==> r.0 == Minimal(Some(false)) && r.1 == QueryReport(false, false)
    ensures e.Device? && e.w.everyN != 0 ==>
              r.0 == Device(QuerySerial(e.w).w, Some(false)) && r.1.queried == QuerySerial(e.w).queried && !r.1.reported
    ensures e.Device? && e.w.everyN == 0 ==>
              r.0.failureFlag == Some(true) && !r.1.queried && (r.1.reported <==> e.failureFlag == Some(false))
  {
    match e
    case Minimal(_) => (Minimal(Some(false)), QueryReport(false, false))
    case Device(w, flag) =>
      var q := QuerySerial(w);
      if !q.raised then (Device(q.w, Some(false)), QueryReport(q.queried, false))
      else (Device(CloseSerial(q.w), Some(true)), QueryReport(false, flag == Some(false)))
  }

  function QueryAll(ws: seq<Entry>): (r: seq<(Entry, QueryReport)>)
    requires forall i :: 0 <= i < |ws| && ws[i].Device? ==> ws[i].w.WellFormed()
    ensures |r| == |ws|
    ensures forall i :: 0 <= i < |ws| ==> r[i] == QueryOne(ws[i])
  {
    if ws == [] then [] else [QueryOne(ws[0])] + QueryAll(ws[1..])
  }

  /** `_query_serial_ports`: nothing happens unless serial is connected. */
  function QueryPorts(d: Dash): (r: (Dash, seq<QueryReport>))
    requires d.WellFormed()
    ensures r.0.WellFormed()
    ensures !d.serialConnected ==> r == (d, [])
    ensures d.serialConnected ==> |r.1| == |d.widgets| == |r.0.widgets|
    ensures d.serialConnected ==> forall i :: 0 <= i < |d.widgets| ==>
              (r.0.widgets[i], r.1[i]) == QueryOne(d.widgets[i])
    ensures r.0 == d.(widgets := r.0.widgets)
  {
    if !d.serialConnected then (d, [])
    else
      var pairs := QueryAll(d.widgets);
      var ws := seq(|pairs|, i requires 0 <= i < |pairs| => pairs[i].0);
      var reports := seq(|pairs|, i requires 0 <= i < |pairs| => pairs[i].1);
      (d.(widgets := ws), reports)
  }

  /** A widget whose query keeps raising prints its error at most once
      after its last good query: the second failure in a row is silent. */
  lemma FailureReportedOnce(e: Entry)
    requires e.Device? && e.w.WellFormed() && e.w.everyN == 0
    ensures !QueryOne(QueryOne(e).0).1.reported
  {
  }

  /** `_read_serial_ports`: each widget's `read_serial` result (`None` for
      a minimal widget, which reads nothing), given how each device's
      `on_serial_read` behaves; nothing when not connected. */
  function ReadPorts(d: Dash, devices: seq<DeviceRead>): (r: seq<Option<ReadValue>>)
    requires |devices| == |d.widgets|
    ensures !d.serialConnected ==> r == []
    ensures d.serialConnected ==> |r| == |d.widgets|
    ensures d.serialConnected ==> forall i :: 0 <= i < |d.widgets| ==>
              r[i] == if d.widgets[i].Device? then ReadSerial(d.widgets[i].w, devices[i]) else None
  {
    if !d.serialConnected then []
    else seq(|d.widgets|, i requires 0 <= i < |d.widgets| =>
               if d.widgets[i].Device? then ReadSerial(d.widgets[i].w, devices[i]) else None)
  }

  /** The result of one `_poll_serial_ports`: the dashboard after the
      queries, the delay before the reads, the delay before the next poll
      (`None` once disconnected), and whether the interlocks ran. */
  datatype PollStep = PollStep(d: Dash, reports: seq<QueryReport>, readAfter: int,
                               nextPoll: Option<int>, interlocks: bool)

  /** `_poll_serial_ports`: query, schedule the read half a polling wait
      later (always), and while connected reschedule itself after a full
      wait and run the interlocks. */
  function Poll(d: Dash): (r: PollStep)
    requires d.WellFormed()
    ensures r.d.WellFormed()
    ensures (r.d, r.reports) == QueryPorts(d)
    ensures r.readAfter == TruncDiv(d.pollingWait, 2)
    ensures r.nextPoll.Some? <==> d.serialConnected
    ensures r.nextPoll.Some? ==> r.nextPoll.value == d.pollingWait
    ensures r.interlocks <==> d.serialConnected
  {
    var q := QueryPorts(d);
    PollStep(q.0, q.1, TruncDiv(d.pollingWait, 2),
             if d.serialConnected then Some(d.pollingWait) else None, d.serialConnected)
  }

  /** Once disconnected, a poll changes nothing and does not reschedule,
      so the polling chain ends. */
  lemma PollStopsWhenDisconnected(d: Dash)
    requires d.WellFormed() && !d.serialConnected
    ensures Poll(d).d == d && Poll(d).nextPoll.None? && !Poll(d).interlocks
    ensures ReadPorts(d, seq(|d.widgets|, i => Raises)) == []
  {
  }

  /** Toggling a connected dashboard off ends the polling chain: the poll
      already scheduled finds it disconnected, changes nothing, runs no
      interlocks, schedules no further poll, and nothing is read. */
  lemma ToggleOffEndsPolling(d: Dash, openings: seq<PortOpening>)
    requires d.WellFormed() && d.serialConnected
    requires |openings| == |d.widgets|
    ensures var off := Toggle(d, openings).d;
      && Poll(off).d == off && Poll(off).nextPoll.None? && !Poll(off).interlocks
      && ReadPorts(off, seq(|off.widgets|, i => Raises)) == []
  {
    PollStopsWhenDisconnected(Toggle(d, openings).d);
  }

  // ---------------------------------------------------------------------
  // Port list

  predicate Sorted(s: seq<int>) {
    forall i, j :: 0 <= i < j < |s| ==> s[i] <= s[j]
  }

  function Insert(x: int, s: seq<int>): (r: seq<int>)
    requires Sorted(s)
    ensures Sorted(r)
    ensures multiset(r) == multiset(s) + multiset{x}
    ensures forall k :: 0 <= k < |r| ==> r[k] == x || r[k] in s
  {
    if s == [] then [x]
    else if x <= s[0] then [x] + s
    else
      var t := Insert(x, s[1..]);
      assert s == [s[0]] + s[1..];
      InsertAbove(x, s, t);
      InsertHead(s[0], t);
      [s[0]] + t
  }

  /** What is inserted after the head of a sorted list stays above it. */
  lemma InsertAbove(x: int, s: seq<int>, t: seq<int>)
    requires Sorted(s) && |s| > 0 && s[0] < x
    requires forall k :: 0 <= k < |t| ==> t[k] == x || t[k] in s[1..]
    ensures forall k :: 0 <= k < |t| ==> s[0] <= t[k]
  {
    forall k | 0 <= k < |t| ensures s[0] <= t[k] {
      if t[k] != x {
        var m :| 0 <= m < |s[1..]| && s[1..][m] == t[k];
        assert s[m + 1] == t[k];
      }
    }
  }

  lemma InsertHead(h: int, t: seq<int>)
    requires Sorted(t)
    requires forall k :: 0 <= k < |t| ==> h <= t[k]
    ensures Sorted([h] + t)
  {
    var r := [h] + t;
    forall i, j | 0 <= i < j < |r| ensures r[i] <= r[j] {
      if i > 0 { assert r[i] == t[i - 1] && r[j] == t[j - 1]; }
      else { assert r[j] == t[j - 1]; }
    }
  }

  /** `list.sort()` on the port numbers. */
  function SortInts(s: seq<int>): (r: seq<int>)
    ensures Sorted(r)
    ensures multiset(r) == multiset(s)
  {
    if s == [] then []
    else
      assert s == [s[0]] + s[1..];
      Insert(s[0], SortInts(s[1..]))
  }

  /** Why `_update_serial_ports` stopped: refused while connected, or
      raised (no ports, so `ports[0]` fails; or a port name that is not
      `COM` and a number). */
  datatype PortUpdate = Refused | Raised | Updated(names: seq<string>)

  /** `int(name.replace("COM",""))`; `None` is a `ValueError`. */
  function ComNumber(name: string): Option<int> {
    ParseInt(RemoveAll(name, "COM"))
  }

  /** Every name read by `parse`, in order; `None` as soon as one raises. */
  function ParseAll(parse: string -> Option<int>, names: seq<string>): (r: Option<seq<int>>)
    ensures r.Some? ==> |r.value| == |names|
    ensures r.Some? ==> forall i :: 0 <= i < |names| ==> parse(names[i]) == Some(r.value[i])
    ensures r.None? ==> exists i :: 0 <= i < |names| && parse(names[i]).None?
  {
    if names == [] then Some([])
    else
      var head := parse(names[0]);
      var rest := ParseAll(parse, names[1..]);
      if head.None? then None
      else if rest.None? then
        var i :| 0 <= i < |names[1..]| && parse(names[1..][i]).None?;
        assert names[i + 1] == names[1..][i];
        None
      else
        var r := [head.value] + rest.value;
        assert forall i :: 1 <= i < |names| ==> names[i] == names[1..][i - 1];
        Some(r)
  }

  /** The port numbers of all names. */
  function ComNumbers(names: seq<string>): Option<seq<int>> {
    ParseAll(ComNumber, names)
  }

  /** `_update_serial_ports` on the names of the listed ports. When the
      first name contains `COM`, every name loses each `COM` and is read as
      an integer, and the list is rebuilt as `"COM" + str(n)` in numeric
      order; otherwise the list is passed on. */
  function UpdatePorts(d: Dash, ports: seq<string>): (r: PortUpdate)
    ensures d.serialConnected ==> r == Refused
    ensures !d.serialConnected && ports == [] ==> r == Raised
    ensures !d.serialConnected && ports != [] && !Contains(ports[0], "COM") ==> r == Updated(ports)
    ensures !d.serialConnected && ports != [] && Contains(ports[0], "COM") ==>
              match ComNumbers(ports)
              case None => r == Raised
              case Some(ns) => r == Updated(ComNames(SortInts(ns)))
  {
    if d.serialConnected then Refused
    else if ports == [] then Raised
    else if !Contains(ports[0], "COM") then Updated(ports)
    else match ComNumbers(ports)
      case None => Raised
      case Some(ns) => Updated(ComNames(SortInts(ns)))
  }

  function ComNames(ns: seq<int>): (r: seq<string>)
    ensures |r| == |ns|
    ensures forall i :: 0 <= i < |ns| ==> r[i] == "COM" + ShowInt(ns[i])
  {
    seq(|ns|, i requires 0 <= i < |ns| => "COM" + ShowInt(ns[i]))
  }

  /** `"COM" + str(n)` loses exactly its `COM` prefix to `replace`. */
  lemma RemoveComPrefix(n: int)
    ensures RemoveAll("COM" + ShowInt(n), "COM") == ShowInt(n)
  {
    var s := "COM" + ShowInt(n);
    assert s[..3] == "COM";
    assert s[3..] == ShowInt(n);
    NoComInNumber(ShowInt(n));
  }

  lemma {:induction false} NoComInNumber(t: string)
    requires forall k :: 0 <= k < |t| ==> IsDigit(t[k]) || t[k] == '-'
    ensures RemoveAll(t, "COM") == t
  {
    forall j ensures !OccursAt(t, "COM", j) {
      if 0 <= j && j + 3 <= |t| {
        assert t[j..j + 3][0] == t[j];
      }
    }
  }

  /** `"COM" + str(n)` reads back as `n`. */
  lemma ComNumberOfName(n: int)
    ensures ComNumber("COM" + ShowInt(n)) == Some(n)
  {
    RemoveComPrefix(n);
    ParseShowInt(n);
  }

  lemma ComNumbersOfNames(ns: seq<int>)
    ensures ComNumbers(ComNames(ns)) == Some(ns)
  {
    var names := ComNames(ns);
    forall i | 0 <= i < |ns| ensures ComNumber(names[i]) == Some(ns[i]) {
      ComNumberOfName(ns[i]);
    }
    ParseAllBack(ComNumber, names, ns);
  }

  /** Names that each read as the matching number read as the numbers. */
  lemma {:induction false} ParseAllBack(parse: string -> Option<int>, names: seq<string>, ns: seq<int>)
    requires |names| == |ns|
    requires forall i :: 0 <= i < |ns| ==> parse(names[i]) == Some(ns[i])
    ensures ParseAll(parse, names) == Some(ns)
    decreases |ns|
  {
    if ns != [] {
      ParseAllBack(parse, names[1..], ns[1..]);
      assert ns == [ns[0]] + ns[1..];
    }
  }

  /** Port names of the form `COMn` come back as the same set of names
      ordered by their numbers: `COM10` after `COM9`, not between `COM1`
      and `COM2`. */
  lemma ComPortsSortNumerically(d: Dash, ns: seq<int>)
    requires !d.serialConnected && ns != []
    ensures UpdatePorts(d, ComNames(ns)) == Updated(ComNames(SortInts(ns)))
  {
    var ports := ComNames(ns);
    assert OccursAt(ports[0], "COM", 0) by {
      assert ports[0][..3] == "COM";
    }
    ComNumbersOfNames(ns);
  }
}
