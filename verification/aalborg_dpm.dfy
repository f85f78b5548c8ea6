/** The Aalborg DPM mass flow meter (`AalborgDPMWidget`): two queries (gas
    and flow) sent through the widget's queue, two reply lines sliced as
    raw bytes, and a gas command on confirm. */
module AalborgDpm {
  import opened Outcomes
  import opened PyText
  import opened DeviceCommon
  import GenericWidget

  /** The widget's `update_every_n_cycles`. */
  const UpdateEveryNCycles: nat := 2

  /** The generic part of the constructor: every second poll, the query
      goes out when the counter wraps to 0 and the read comes at 1. */
  function NewDpmWidget(name: string, nickname: string, shared: bool): (w: GenericWidget.Widget)
    ensures w.WellFormed() && w.everyN == 2 && w.ReadPhase() == 1
    ensures !w.noSerial && !w.serialOpen && w.serialShared == shared
  {
    GenericWidget.NewWidget(name, nickname, false, shared, UpdateEveryNCycles)
  }

  const DefaultGasOptions: seq<string> := ["Ar", "H2", "CH4"]
  const DefaultGasNumbers: seq<int> := [1, 13, 15]

  /** The gas names offered and the device's number for each. */
  datatype GasConfig = GasConfig(options: seq<string>, numbers: seq<int>)

  /** The constructor's `gas_options` / `gas_numbers` keywords (`None`:
      not passed). Options without numbers raise (here `None`); numbers
      without options are ignored and the defaults apply. */
  function ConfigureGases(gasOptions: Option<seq<string>>, gasNumbers: Option<seq<int>>): (r: Option<GasConfig>)
    ensures r.None? <==> gasOptions.Some? && gasNumbers.None?
    ensures r.Some? && gasOptions.Some? ==> r.value == GasConfig(gasOptions.value, gasNumbers.value)
    ensures gasOptions.None? ==> r == Some(GasConfig(DefaultGasOptions, DefaultGasNumbers))
  {
    match gasOptions
    case None => Some(GasConfig(DefaultGasOptions, DefaultGasNumbers))
    case Some(options) =>
      match gasNumbers
      case None => None
      case Some(numbers) => Some(GasConfig(options, numbers))
  }

  /** The queue calls a query makes: `reset_input_buffer()` first, then the
      `send_via_queue` calls in order. */
  datatype QueuedQuery = QueuedQuery(resetFirst: bool, sends: seq<Send>)

  const GasQuery: string := "G\r"
  const FlowQuery: string := "FM\r"

  /** `on_serial_query`: clear the input, then queue the gas query (50 ms)
      and the flow query (350 ms). */
  function OnSerialQuery(): (r: QueuedQuery)
    ensures r.resetFirst && r.sends == [Send("G\r", 50), Send("FM\r", 350)]
  {
    QueuedQuery(true, [Send(GasQuery, 50), Send(FlowQuery, 350)])
  }

  /** Queued on an idle widget, the two queries start the queue timer with
      the gas query's delay and drain gas first, then flow, the flow query
      written 350 ms after the gas query. */
  lemma QueryDrainsInOrder(w: GenericWidget.Widget)
    requires w.WellFormed() && w.queue == []
    ensures var s := OnSerialQuery().sends;
      var e1 := GenericWidget.Enqueue(w, s[0].text, s[0].delayMs);
      var e2 := GenericWidget.Enqueue(e1.w, s[1].text, s[1].delayMs);
      && e1.timer == Some(50)
      && e2.timer.None?
      && GenericWidget.Drain(e2.w) == ([GasQuery, FlowQuery], [350])
  {
    var s := OnSerialQuery().sends;
    var e1 := GenericWidget.Enqueue(w, s[0].text, s[0].delayMs);
    var e2 := GenericWidget.Enqueue(e1.w, s[1].text, s[1].delayMs);
    GenericWidget.DrainIsFifo(e2.w);
    assert e2.w.queue == [GasQuery, FlowQuery];
    assert e2.w.queueDelays[1..] == [350];
  }

  // ---------------------------------------------------------------------
  // The two reply parsers, on the raw bytes `readlines()` returns; `None`
  // is an exception inside the `try`.

  /** Gas reply: after the first `:`, the bytes from past the next `,` up
      to the next CR, which must decode as ASCII. */
  function GasField(line: string): (r: Option<string>)
    ensures r.Some? ==> IsAscii(r.value)
  {
    match IndexOf(line, ':')
    case None => None
    case Some(i) =>
      var g := SliceFrom(line, i + 1);
      match IndexOf(g, ',')
      case None => None
      case Some(c) =>
        match IndexOf(g, '\r')
        case None => None
        case Some(e) =>
          var t := Slice(g, c + 1, e);
          if IsAscii(t) then Some(t) else None
  }

  /** Flow reply: the bytes between the first `>` and the first CR, which
      `float()` must accept as bytes (so only ASCII whitespace around the
      number is ignored); `show(t)` stands for
      `"{:.1f}".format(max(0, float(t)))`. */
  function FlowField(show: string -> string, line: string): Option<string> {
    match IndexOf(line, '>')
    case None => None
    case Some(s) =>
      match IndexOf(line, '\r')
      case None => None
      case Some(e) =>
        var t := Slice(line, s + 1, e);
        if IsBytesFloat(t) then Some(show(t)) else None
  }

  /** `Device Gas` and `Actual Flow`. */
  datatype DpmReadouts = DpmReadouts(gas: string, flow: string)

  datatype DpmRead = DpmRead(shown: DpmReadouts, result: ReadValue)

  const BadReply: string := "Bad response in Aalborg MFM, in one of: "

  /** `repr` of each line, as `str(list)` of bytes objects shows them. */
  function ReprAll(lines: seq<string>): (r: seq<string>)
    ensures |r| == |lines|
    ensures forall k :: 0 <= k < |lines| ==> r[k] == BytesRepr(lines[k])
  {
    if |lines| == 0 then [] else [BytesRepr(lines[0])] + ReprAll(lines[1..])
  }

  /** `on_serial_read` on the lines `readlines()` returns: the gas from the
      first, the flow from the second; any failure shows "Read Error" in
      both readouts and returns a message quoting all the lines. */
  function OnSerialRead(show: string -> string, lines: seq<string>): (r: DpmRead)
    ensures r.result == ReadTrue <==>
              |lines| >= 2 && GasField(lines[0]).Some? && FlowField(show, lines[1]).Some?
    ensures r.result == ReadTrue ==>
              r.shown == DpmReadouts(GasField(lines[0]).value, FlowField(show, lines[1]).value)
    ensures r.result != ReadTrue ==>
              r == DpmRead(DpmReadouts(ReadError, ReadError), ReadMessage(BadReply + ListRepr(ReprAll(lines))))
  {
    var failed := DpmRead(DpmReadouts(ReadError, ReadError), ReadMessage(BadReply + ListRepr(ReprAll(lines))));
    if |lines| < 2 then failed
    else
      var gas := GasField(lines[0]);
      var flow := FlowField(show, lines[1]);
      if gas.Some? && flow.Some? then DpmRead(DpmReadouts(gas.value, flow.value), ReadTrue)
      else failed
  }

  /** `on_serial_close` shows "None". */
  function OnSerialClose(): (r: DpmReadouts)
    ensures r == DpmReadouts("None", "None")
    ensures r != OnSerialOpen(Some(ReadFalse), [], DpmFields("", r)).readouts
  {
    DpmReadouts("None", "None")
  }

  /** The gas selection and the two readouts. */
  datatype DpmFields = DpmFields(selection: string, readouts: DpmReadouts)

  /** `on_serial_open`: a handshake that is not `True` shows "No Reading";
      a successful one adopts the device's gas as the selection when it is
      one of the options, and otherwise changes nothing. */
  function OnSerialOpen(success: Option<ReadValue>, gasOptions: seq<string>, fields: DpmFields): (r: DpmFields)
    ensures NotTrue(success) ==> r == DpmFields(fields.selection, DpmReadouts(NoReading, NoReading))
    ensures !NotTrue(success) ==> r.readouts == fields.readouts
    ensures !NotTrue(success) ==>
              r.selection == (if fields.readouts.gas in gasOptions then fields.readouts.gas else fields.selection)
  {
    if NotTrue(success) then fields.(readouts := DpmReadouts(NoReading, NoReading))
    else if fields.readouts.gas in gasOptions then fields.(selection := fields.readouts.gas)
    else fields
  }

  /** What `on_confirm` queues, and whether it raised. */
  datatype DpmConfirm = DpmConfirm(sends: seq<Send>, raised: bool)

  /** `on_confirm`: an unknown gas queues nothing; a gas whose number is
      missing raises `IndexError`; otherwise the gas command `G,<number>`
      CR is queued with a 100 ms delay. */
  function OnConfirm(config: GasConfig, gas: string): (r: DpmConfirm)
    ensures r.raised <==> gas in config.options && ListIndex(config.options, gas).value >= |config.numbers|
    ensures r.sends == [] <==> gas !in config.options || r.raised
    ensures r.sends != [] ==> var i := ListIndex(config.options, gas).value;
      r.sends == [Send("G," + ShowInt(config.numbers[i]) + "\r", 100)]
  {
    match ListIndex(config.options, gas)
    case None => DpmConfirm([], false)
    case Some(i) =>
      if i >= |config.numbers| then DpmConfirm([], true)
      else DpmConfirm([Send("G," + ShowInt(config.numbers[i]) + "\r", 100)], false)
  }

  /** The gas command carries the number listed for the first option of
      that name: `int()` of the text between `G,` and CR gives it back. */
  lemma ConfirmCarriesNumber(config: GasConfig, gas: string)
    requires gas in config.options && ListIndex(config.options, gas).value < |config.numbers|
    ensures var cmd := OnConfirm(config, gas).sends[0].text;
      && |cmd| >= 3 && cmd[..2] == "G," && cmd[|cmd| - 1] == '\r'
      && ParseInt(cmd[2..|cmd| - 1]) == Some(config.numbers[ListIndex(config.options, gas).value])
  {
    var n := config.numbers[ListIndex(config.options, gas).value];
    var cmd := OnConfirm(config, gas).sends[0].text;
    assert cmd == "G," + ShowInt(n) + "\r";
    assert cmd[2..|cmd| - 1] == ShowInt(n);
    ParseShowInt(n);
  }

  /** With the default configuration the three gases are commanded as
      `G,1`, `G,13` and `G,15`. */
  lemma DefaultGasCommands()
    ensures var c := ConfigureGases(None, None).value;
      && OnConfirm(c, "Ar") == DpmConfirm([Send("G,1\r", 100)], false)
      && OnConfirm(c, "H2") == DpmConfirm([Send("G,13\r", 100)], false)
      && OnConfirm(c, "CH4") == DpmConfirm([Send("G,15\r", 100)], false)
  {
    var c := ConfigureGases(None, None).value;
    assert ListIndex(c.options, "Ar") == Some(0);
    assert ListIndex(c.options, "H2") == Some(1) by {
      assert c.options[0] != "H2";
    }
    assert ListIndex(c.options, "CH4") == Some(2) by {
      assert c.options[0] != "CH4" && c.options[1] != "CH4";
      assert c.options[..2] == ["Ar", "H2"];
    }
    GasCommandAt(c, "Ar", 0, "G,1\r");
    GasCommandAt(c, "H2", 1, "G,13\r");
    GasCommandAt(c, "CH4", 2, "G,15\r");
  }

  lemma GasCommandAt(c: GasConfig, gas: string, i: nat, cmd: string)
    requires ListIndex(c.options, gas) == Some(i) && i < |c.numbers|
    requires cmd == "G," + ShowInt(c.numbers[i]) + "\r"
    ensures OnConfirm(c, gas) == DpmConfirm([Send(cmd, 100)], false)
  {
  }

  // ---------------------------------------------------------------------
  // What the parsers make of well-formed replies

  /** A gas reply `G:<number>,<name>` CR shows the name, for any ASCII name
      without a CR. */
  lemma GasReplyRead(num: string, name: string, line: string)
    requires AllDigits(num) && IsAscii(name) && '\r' !in name
    requires line == "G:" + num + "," + name + "\r"
    ensures GasField(line) == Some(name)
  {
    var g := num + "," + name + "\r";
    GasAfterColon(line, g);
    GasSlices(num, name, g);
  }

  lemma GasAfterColon(line: string, g: string)
    requires line == "G:" + g
    ensures IndexOf(line, ':') == Some(1) && SliceFrom(line, 2) == g
  {
    assert line == "G" + [':'] + g;
    IndexOfFirst("G", ':', g);
    assert line[2..] == g;
  }

  lemma GasSlices(num: string, name: string, g: string)
    requires AllDigits(num) && '\r' !in name && g == num + "," + name + "\r"
    ensures IndexOf(g, ',') == Some(|num|)
    ensures IndexOf(g, '\r') == Some(|num| + 1 + |name|)
    ensures Slice(g, |num| + 1, |num| + 1 + |name|) == name
  {
    assert ',' !in num;
    assert g == num + [','] + (name + "\r");
    IndexOfFirst(num, ',', name + "\r");
    var pre := num + "," + name;
    assert '\r' !in pre by {
      assert '\r' !in num;
    }
    assert g == pre + ['\r'] + [];
    IndexOfFirst(pre, '\r', []);
    assert g[|num| + 1..|pre|] == name;
  }

  /** A flow reply `><t>` CR, with `t` a number, shows `t` formatted. */
  lemma FlowReplyRead(show: string -> string, t: string, line: string)
    requires '>' !in t && '\r' !in t && IsBytesFloat(t) && line == ">" + t + "\r"
    ensures FlowField(show, line) == Some(show(t))
  {
    FlowSlice(t, line);
  }

  lemma FlowSlice(t: string, line: string)
    requires '\r' !in t && line == ">" + t + "\r"
    ensures IndexOf(line, '>') == Some(0)
    ensures IndexOf(line, '\r') == Some(|t| + 1)
    ensures Slice(line, 1, |t| + 1) == t
  {
    IndexOfHead('>', t + "\r");
    assert line == [] + ['>'] + (t + "\r");
    assert line == ">" + t + ['\r'] + [];
    IndexOfFirst(">" + t, '\r', []);
    assert line[1..|t| + 1] == t;
  }

  /** A flow reply `><t>` CR whose `t` `float()` rejects as bytes shows
      nothing. */
  lemma FlowReplyRejected(show: string -> string, t: string, line: string)
    requires '>' !in t && '\r' !in t && !IsBytesFloat(t) && line == ">" + t + "\r"
    ensures FlowField(show, line) == None
  {
    FlowSlice(t, line);
  }

  /** A flow number padded with a byte that only `str` counts as
      whitespace is rejected, so the read shows "Read Error". */
  lemma PaddedFlowRejected(show: string -> string, lines: seq<string>, t: string)
    requires t == [28 as char, '5'] && |lines| == 2 && lines[1] == ">" + t + "\r"
    ensures OnSerialRead(show, lines).shown == DpmReadouts(ReadError, ReadError)
  {
    BytesFloatPadded(t);
    assert '>' !in t && '\r' !in t;
    FlowReplyRejected(show, t, lines[1]);
  }

  /** After a successful read, a successful open selects the gas read, if
      it is one of the options. */
  lemma OpenAdoptsReadGas(show: string -> string, lines: seq<string>, gasOptions: seq<string>, selection: string)
    requires OnSerialRead(show, lines).result == ReadTrue
    ensures var read := OnSerialRead(show, lines);
      var after := OnSerialOpen(Some(ReadTrue), gasOptions, DpmFields(selection, read.shown));
      after.selection == (if GasField(lines[0]).value in gasOptions then GasField(lines[0]).value else selection)
  {
  }
}

/** `AalborgDPMSerialEmulator`, the offline stand-in for the meter: it
    answers the same four queries as the controller's emulator, but keeps
    raw bytes, and a write that is no query raises. */
module AalborgDpmEmulator {
  import opened Outcomes
  import opened PyText
  import opened DeviceCommon
  import opened AalborgDpm
  import AalborgDpc
  import AalborgDpcEmulator

  /** The reply to the query at index `k` of the controller's four
      queries; `draw` is the `randint(0,5)` every write makes. */
  function Reply(k: nat, draw: nat): string
    requires k < |AalborgDpc.Queries|
  {
    if k == 0 then "G:1,AR\r"
    else if k == 1 then "VM:A\r"
    else if k == 2 then "SP:" + ShowNat(AalborgDpcEmulator.Setpoint) + "\r"
    else ">" + ShowNat(AalborgDpcEmulator.Setpoint + draw) + "\r"
  }

  /** The buffer after a write, and whether the write raised. */
  datatype EmulatorWrite = EmulatorWrite(buffer: seq<string>, raised: bool)

  /** `write`: a query appends its reply; anything else appends `IDK` CR
      and then raises `ValueError` in `queries.index`. */
  function Write(buffer: seq<string>, value: string, draw: nat): (r: EmulatorWrite)
    ensures r.raised <==> value !in AalborgDpc.Queries
    ensures |r.buffer| == |buffer| + 1 && r.buffer[..|buffer|] == buffer
    ensures r.raised ==> r.buffer[|buffer|] == "IDK\r"
  {
    match ListIndex(AalborgDpc.Queries, value)
    case None => EmulatorWrite(buffer + ["IDK\r"], true)
    case Some(k) => EmulatorWrite(buffer + [Reply(k, draw)], false)
  }

  /** The lines `readlines()` returns after a query: reset, then the gas
      and flow queries as the queue writes them. */
  function Queried(gasDraw: nat, flowDraw: nat): seq<string> {
    var q := OnSerialQuery().sends;
    Write(Write([], q[0].text, gasDraw).buffer, q[1].text, flowDraw).buffer
  }

  /** Both queries are answered, gas first. */
  lemma QueriedLines(gasDraw: nat, flowDraw: nat)
    ensures Queried(gasDraw, flowDraw) == ["G:1,AR\r", ">" + ShowNat(AalborgDpcEmulator.Setpoint + flowDraw) + "\r"]
  {
    AalborgDpcEmulator.QueryIndex(0);
    AalborgDpcEmulator.QueryIndex(3);
  }

  /** Offline, a query followed by a read shows gas `AR` and the flow the
      emulator drew. */
  lemma EmulatorRoundTrip(show: string -> string, gasDraw: nat, flowDraw: nat)
    ensures OnSerialRead(show, Queried(gasDraw, flowDraw)) ==
              DpmRead(DpmReadouts("AR", show(ShowNat(AalborgDpcEmulator.Setpoint + flowDraw))), ReadTrue)
  {
    var n := AalborgDpcEmulator.Setpoint + flowDraw;
    QueriedLines(gasDraw, flowDraw);
    EmulatorGasRead();
    EmulatorFlowRead(show, n);
    ReadOfTwo(show, Queried(gasDraw, flowDraw), "G:1,AR\r", ">" + ShowNat(n) + "\r", "AR", show(ShowNat(n)));
  }

  /** Two lines whose fields both parse read as those fields. */
  lemma ReadOfTwo(show: string -> string, lines: seq<string>, g: string, f: string, gas: string, flow: string)
    requires lines == [g, f] && GasField(g) == Some(gas) && FlowField(show, f) == Some(flow)
    ensures OnSerialRead(show, lines) == DpmRead(DpmReadouts(gas, flow), ReadTrue)
  {
  }

  lemma EmulatorGasRead()
    ensures GasField("G:1,AR\r") == Some("AR")
  {
    GasReplyRead("1", "AR", "G:1,AR\r");
  }

  lemma EmulatorFlowRead(show: string -> string, n: nat)
    ensures FlowField(show, ">" + ShowNat(n) + "\r") == Some(show(ShowNat(n)))
  {
    var t := ShowNat(n);
    assert '>' !in t && '\r' !in t;
    FlowSlice(t, ">" + t + "\r");
    NatIsBytesFloat(n);
  }

  /** The emulator names argon `AR`, which is not among the default
      options, so after an offline read a successful open keeps the
      selection as it was. */
  lemma EmulatorGasNotSelected(show: string -> string, gasDraw: nat, flowDraw: nat, selection: string)
    ensures var read := OnSerialRead(show, Queried(gasDraw, flowDraw));
      OnSerialOpen(Some(ReadTrue), DefaultGasOptions, DpmFields(selection, read.shown)).selection == selection
  {
    EmulatorRoundTrip(show, gasDraw, flowDraw);
    assert "AR" !in DefaultGasOptions;
  }

  /** A gas command sent to the emulator is no query: it leaves `IDK` CR
      in the buffer and raises. */
  lemma ConfirmRaisesOffline(config: GasConfig, gas: string, buffer: seq<string>, draw: nat)
    requires OnConfirm(config, gas).sends != []
    ensures Write(buffer, OnConfirm(config, gas).sends[0].text, draw) == EmulatorWrite(buffer + ["IDK\r"], true)
  {
    var cmd := OnConfirm(config, gas).sends[0].text;
    assert cmd[0] == 'G' && cmd[1] == ',';
    assert cmd !in AalborgDpc.Queries;
  }
}
