/** The Aalborg DPC mass flow controller (`AalborgDPCWidget`): four
    queries (gas, valve mode, setpoint, flow), four reply lines sliced
    between fixed markers, and gas / mode / setpoint commands on confirm.
    The parser works on the `str()` text of each reply line. */
module AalborgDpc {
  import opened Outcomes
  import opened PyText
  import opened DeviceCommon

  /** Gas, mode, setpoint and flow queries, in the order they are written. */
  const Queries: seq<string> := ["G\r", "V,M\r", "SP\r", "FM\r"]

  /** `on_serial_query`: clear the input, then write the four queries. */
  function OnSerialQuery(): (r: SerialCalls)
    ensures r.resetFirst && r.writes == ["G\r", "V,M\r", "SP\r", "FM\r"]
  {
    SerialCalls(true, Queries)
  }

  const ModeOptions: seq<string> := ["Closed", "Setpoint", "Open"]

  /** The device's letter for each mode option. */
  function ModeLetter(mode: string): (r: string)
    requires mode in ModeOptions
  {
    if mode == "Closed" then "C" else if mode == "Setpoint" then "A" else "O"
  }

  /** The readout for a mode reply: the three letters are spelled out, any
      other text is shown as it came. */
  function ModeName(m: string): (r: string)
    ensures m !in {"C", "A", "O"} ==> r == m
    ensures m in {"C", "A", "O"} ==> r in ModeOptions
  {
    if m == "C" then "Closed"
    else if m == "A" then "Setpoint"
    else if m == "O" then "Open"
    else m
  }

  /** Every mode option's letter reads back as that option. */
  lemma ModeLetterReadsBack(mode: string)
    requires mode in ModeOptions
    ensures ModeName(ModeLetter(mode)) == mode
  {
  }

  // ---------------------------------------------------------------------
  // The four reply parsers; `None` is an exception inside the `try`.

  /** Gas reply: after the first `:`, the text between the next `,` and
      one character before the next `r`. */
  function GasField(line: string): Option<string> {
    match IndexOf(line, ':')
    case None => None
    case Some(i) => GasTail(SliceFrom(line, i + 1))
  }

  /** The gas reply past its first `:`. */
  function GasTail(g: string): Option<string> {
    match IndexOf(g, ',')
    case None => None
    case Some(c) =>
      match IndexOf(g, 'r')
      case None => None
      case Some(e) => Some(Slice(g, c + 1, e - 1))
  }

  /** Mode reply: from three past `VM` to one before the first `r`. */
  function ModeField(line: string): Option<string> {
    match Find(line, "VM")
    case None => None
    case Some(s) =>
      match IndexOf(line, 'r')
      case None => None
      case Some(e) => Some(ModeName(Slice(line, s + 3, e - 1)))
  }

  /** Setpoint reply: from three past `SP` to one before the first `r`;
      `float()` must accept it, but the readout is the text itself. */
  function SetpointField(line: string): Option<string> {
    match Find(line, "SP")
    case None => None
    case Some(s) =>
      match IndexOf(line, 'r')
      case None => None
      case Some(e) =>
        var t := Slice(line, s + 3, e - 1);
        if IsPyFloat(t) then Some(t) else None
  }

  /** Flow reply: from past `>` to one before the first `r`; `show(t)`
      stands for `"{:.1f}".format(max(0, float(t)))`. */
  function FlowField(show: string -> string, line: string): Option<string> {
    match IndexOf(line, '>')
    case None => None
    case Some(s) =>
      match IndexOf(line, 'r')
      case None => None
      case Some(e) =>
        var t := Slice(line, s + 1, e - 1);
        if IsPyFloat(t) then Some(show(t)) else None
  }

  /** `Device Gas`, `Device Mode`, `Device Setpoint`, `Actual Flow`. */
  datatype DpcReadouts = DpcReadouts(gas: string, mode: string, setpoint: string, flow: string)

  function AllReadouts(v: string): DpcReadouts { DpcReadouts(v, v, v, v) }

  datatype DpcRead = DpcRead(shown: DpcReadouts, ok: bool)

  /** `on_serial_read` on the lines the four `readline` calls return
      (fewer than four: the next `readline` raised). Either all four
      readouts are parsed, or all four show "Read Error". */
  function OnSerialRead(show: string -> string, lines: seq<string>): (r: DpcRead)
    ensures r.ok <==>
              && |lines| >= 4
              && GasField(lines[0]).Some?
              && ModeField(lines[1]).Some?
              && SetpointField(lines[2]).Some?
              && FlowField(show, lines[3]).Some?
    ensures r.ok ==> r.shown == DpcReadouts(GasField(lines[0]).value, ModeField(lines[1]).value,
                                           SetpointField(lines[2]).value, FlowField(show, lines[3]).value)
    ensures !r.ok ==> r.shown == AllReadouts(ReadError)
  {
    if |lines| < 4 then DpcRead(AllReadouts(ReadError), false)
    else
      var gas := GasField(lines[0]);
      var mode := ModeField(lines[1]);
      var setpoint := SetpointField(lines[2]);
      var flow := FlowField(show, lines[3]);
      if gas.Some? && mode.Some? && setpoint.Some? && flow.Some? then
        DpcRead(DpcReadouts(gas.value, mode.value, setpoint.value, flow.value), true)
      else DpcRead(AllReadouts(ReadError), false)
  }

  /** `on_serial_close` shows "None"; a falsy handshake shows "No Reading". */
  function OnSerialClose(): (r: DpcReadouts)
    ensures r == DpcReadouts("None", "None", "None", "None")
    ensures Some(r) != OnSerialOpen(Some(ReadFalse))
  {
    AllReadouts("None")
  }

  function OnSerialOpen(success: Option<ReadValue>): (r: Option<DpcReadouts>)
    ensures r.Some? <==> Falsy(success)
    ensures r.Some? ==> r.value == AllReadouts(NoReading)
  {
    if Falsy(success) then Some(AllReadouts(NoReading)) else None
  }

  // ---------------------------------------------------------------------
  // Confirm

  /** The writes `on_confirm` makes, and whether it raised. */
  datatype DpcConfirm = DpcConfirm(writes: seq<string>, raised: bool)

  /** `on_confirm`. An unknown gas writes nothing; a gas whose number is
      missing raises `IndexError`; the gas command is written before the
      mode is checked, so an unknown mode leaves it alone; the setpoint is
      sent only in `Setpoint` mode and only when `float()` accepts it.
      `sci(t)` stands for `'{:.2e}'.format(float(t))`. */
  function OnConfirm(sci: string -> string, gasOptions: seq<string>, gasNumbers: seq<int>,
                     gas: string, mode: string, setpoint: string): (r: DpcConfirm)
    ensures r.raised <==> gas in gasOptions && ListIndex(gasOptions, gas).value >= |gasNumbers|
    ensures r.writes == [] <==> gas !in gasOptions || r.raised
    ensures |r.writes| >= 1 ==>
              r.writes[0] == "G," + ShowInt(gasNumbers[ListIndex(gasOptions, gas).value]) + "\r"
    ensures |r.writes| >= 2 <==> |r.writes| >= 1 && mode in ModeOptions
    ensures |r.writes| >= 2 ==> mode in ModeOptions && r.writes[1] == "V,M," + ModeLetter(mode) + "\r"
    ensures |r.writes| == 3 <==> |r.writes| >= 2 && mode == "Setpoint" && IsPyFloat(setpoint)
    ensures |r.writes| == 3 ==> r.writes[2] == "SP," + sci(setpoint) + "\r"
    ensures |r.writes| <= 3
  {
    match ListIndex(gasOptions, gas)
    case None => DpcConfirm([], false)
    case Some(i) =>
      if i >= |gasNumbers| then DpcConfirm([], true)
      else
        var gasCmd := "G," + ShowInt(gasNumbers[i]) + "\r";
        if mode !in ModeOptions then DpcConfirm([gasCmd], false)
        else
          var modeCmd := "V,M," + ModeLetter(mode) + "\r";
          if mode != "Setpoint" || !IsPyFloat(setpoint) then DpcConfirm([gasCmd, modeCmd], false)
          else DpcConfirm([gasCmd, modeCmd, "SP," + sci(setpoint) + "\r"], false)
  }

  // ---------------------------------------------------------------------
  // What the parsers make of well-formed replies

  /** A gas reply `G:<number>,<name>` CR shows the name, provided the name
      holds no lower-case `r`. */
  lemma GasReplyRead(num: string, name: string, line: string)
    requires AllDigits(num) && Plain(name) && 'r' !in name
    requires line == "G:" + num + "," + name + "\r"
    ensures GasField(BytesRepr(line)) == Some(name)
  {
    var g := GasAfterColon(num, name, line);
    GasSlices(num, name, g);
  }

  /** With a lower-case `r` in the gas name, the slice stops one character
      before that `r`: a reply naming `Ar` shows an empty gas. */
  lemma GasReplyCut(num: string, name: string, line: string)
    requires AllDigits(num) && Plain(name) && 'r' in name
    requires line == "G:" + num + "," + name + "\r"
    ensures var i := IndexOf(name, 'r').value;
      GasField(BytesRepr(line)) == Some(if i == 0 then "" else name[..i - 1])
  {
    var g := GasAfterColon(num, name, line);
    GasCutTail(num, name, g);
  }

  /** The device's own gas reply for argon, `Ar`, shows an empty gas. */
  lemma LowerCaseGasCut()
    ensures GasField(BytesRepr("G:1,Ar\r")) == Some("")
  {
    var name := "Ar";
    assert IndexOf(name, 'r') == Some(1) by {
      assert name == ['A'] + ['r'];
      IndexOfAfter(['A'], ['r'], 'r');
      IndexOfHead('r', []);
      assert ['r'] + [] == ['r'];
    }
    GasReplyCut("1", name, "G:1,Ar\r");
  }

  /** How `str()` shows a gas reply, and the text after its first `:`. */
  lemma GasAfterColon(num: string, name: string, line: string) returns (g: string)
    requires AllDigits(num) && Plain(name)
    requires line == "G:" + num + "," + name + "\r"
    ensures g == num + "," + name + "\\r'"
    ensures var s := BytesRepr(line); IndexOf(s, ':') == Some(3) && SliceFrom(s, 4) == g
  {
    var head := "G:" + num + "," + name;
    PlainDigits(num);
    PlainAppend("G:", num);
    PlainAppend("G:" + num, ",");
    PlainAppend("G:" + num + ",", name);
    ReprPlainCr(head);
    var s := "b'" + head + "\\r'";
    g := num + "," + name + "\\r'";
    assert s == "b'G" + (":" + g);
    IndexOfAfter("b'G", ":" + g, ':');
    assert s[4..] == g;
  }

  lemma GasSlices(num: string, name: string, g: string)
    requires AllDigits(num) && 'r' !in name && g == num + "," + name + "\\r'"
    ensures GasTail(g) == Some(name)
  {
    CommaAfterDigits(num, name + "\\r'");
    assert g == num + "," + (name + "\\r'");
    var pre := num + "," + name + "\\";
    assert 'r' !in pre by {
      assert 'r' !in num;
    }
    assert g == pre + "r'";
    IndexOfAfter(pre, "r'", 'r');
    IndexOfHead('r', "'");
    assert g[|num| + 1..|num| + |name| + 1] == name;
  }

  lemma GasCutTail(num: string, name: string, g: string)
    requires AllDigits(num) && 'r' in name && g == num + "," + name + "\\r'"
    ensures var i := IndexOf(name, 'r').value;
      GasTail(g) == Some(if i == 0 then "" else name[..i - 1])
  {
    var i := IndexOf(name, 'r').value;
    GasCutSlices(num, name, g);
    if i > 0 {
      assert g[|num| + 1..|num| + i] == name[..i - 1];
    }
  }

  lemma GasCutSlices(num: string, name: string, g: string)
    requires AllDigits(num) && 'r' in name && g == num + "," + name + "\\r'"
    ensures IndexOf(g, ',') == Some(|num|)
    ensures IndexOf(g, 'r') == Some(|num| + 1 + IndexOf(name, 'r').value)
  {
    CommaAfterDigits(num, name + "\\r'");
    assert g == num + "," + (name + "\\r'");
    FirstRInName(num, name);
  }

  /** The first `r` after the digits and the comma is the name's first. */
  lemma FirstRInName(num: string, name: string)
    requires AllDigits(num) && 'r' in name
    ensures IndexOf(num + "," + name + "\\r'", 'r') == Some(|num| + 1 + IndexOf(name, 'r').value)
  {
    var i := IndexOf(name, 'r').value;
    var pre := num + "," + name[..i];
    assert 'r' !in pre by {
      assert 'r' !in num;
    }
    CutAt(num + ",", name, i, "\\r'");
    IndexOfFirst(pre, 'r', name[i + 1..] + "\\r'");
  }

  /** `a + name + b` with `name` cut around position `i`. */
  lemma CutAt(a: string, name: string, i: nat, b: string)
    requires i < |name|
    ensures a + name + b == a + name[..i] + [name[i]] + (name[i + 1..] + b)
  {
    assert name == name[..i] + [name[i]] + name[i + 1..];
  }

  lemma CommaAfterDigits(num: string, rest: string)
    requires AllDigits(num)
    ensures IndexOf(num + "," + rest, ',') == Some(|num|)
  {
    assert ',' !in num;
    assert num + "," + rest == num + ([','] + rest);
    IndexOfAfter(num, [','] + rest, ',');
    IndexOfHead(',', rest);
  }

  /** A mode reply `VM:<m>` CR shows `m` spelled out. */
  lemma ModeReplyRead(m: string, line: string)
    requires Plain(m) && 'r' !in m && line == "VM:" + m + "\r"
    ensures ModeField(BytesRepr(line)) == Some(ModeName(m))
  {
    var head := "VM:" + m;
    PlainAppend("VM:", m);
    CrReply(head);
    var s := "b'" + head + "\\r'";
    FindAtTwo(s, "VM");
    assert s[5..|m| + 5] == m;
  }

  /** A setpoint reply `SP:<t>` CR, with `t` a number, shows `t`. */
  lemma SetpointReplyRead(t: string, line: string)
    requires Plain(t) && 'r' !in t && IsPyFloat(t) && line == "SP:" + t + "\r"
    ensures SetpointField(BytesRepr(line)) == Some(t)
  {
    SetpointSlice(t, line);
  }

  lemma SetpointSlice(t: string, line: string)
    requires Plain(t) && 'r' !in t && line == "SP:" + t + "\r"
    ensures var s := BytesRepr(line);
      && Find(s, "SP") == Some(2)
      && IndexOf(s, 'r') == Some(|t| + 6)
      && Slice(s, 5, |t| + 5) == t
  {
    var head := "SP:" + t;
    PlainAppend("SP:", t);
    CrReply(head);
    var s := "b'" + head + "\\r'";
    FindAtTwo(s, "SP");
    assert s[5..|t| + 5] == t;
  }

  /** A flow reply `><t>` CR, with `t` a number, shows `t` formatted. */
  lemma FlowReplyRead(show: string -> string, t: string, line: string)
    requires Plain(t) && 'r' !in t && IsPyFloat(t) && line == ">" + t + "\r"
    ensures FlowField(show, BytesRepr(line)) == Some(show(t))
  {
    FlowSlice(t, line);
  }

  lemma FlowSlice(t: string, line: string)
    requires Plain(t) && 'r' !in t && line == ">" + t + "\r"
    ensures var s := BytesRepr(line);
      && IndexOf(s, '>') == Some(2)
      && IndexOf(s, 'r') == Some(|t| + 4)
      && Slice(s, 3, |t| + 3) == t
  {
    var head := ">" + t;
    PlainAppend(">", t);
    CrReply(head);
    FlowMarker(t, "b'" + head + "\\r'");
  }

  lemma FlowMarker(t: string, s: string)
    requires s == "b'" + (">" + t) + "\\r'"
    ensures IndexOf(s, '>') == Some(2) && s[3..|t| + 3] == t
  {
    assert s == "b'" + (['>'] + (t + "\\r'"));
    IndexOfAfter("b'", ['>'] + (t + "\\r'"), '>');
    IndexOfHead('>', t + "\\r'");
  }

  /** A two-letter marker that starts right after `b'` is found there. */
  lemma FindAtTwo(s: string, pat: string)
    requires |pat| == 2 && |s| >= 4 && s[..2] == "b'" && s[2..4] == pat
    requires pat[0] != 'b' && pat[0] != '\''
    ensures Find(s, pat) == Some(2)
  {
    assert OccursAt(s, pat, 2);
    assert !OccursAt(s, pat, 0) by {
      assert s[0..2] == "b'";
    }
    assert !OccursAt(s, pat, 1) by {
      assert s[1] == '\'';
    }
  }

  /** Commanding a mode and reading back the device's letter for it shows
      the selected mode. */
  lemma ConfirmedModeReadsBack(mode: string)
    requires mode in ModeOptions
    ensures ModeField(BytesRepr("VM:" + ModeLetter(mode) + "\r")) == Some(mode)
  {
    ModeReplyRead(ModeLetter(mode), "VM:" + ModeLetter(mode) + "\r");
  }
}

/** `AalborgDPCSerialEmulator`, the offline stand-in for the controller, and
    what the widget makes of it. */
module AalborgDpcEmulator {
  import opened Outcomes
  import opened PyText
  import opened AalborgDpc

  /** The emulator's fixed setpoint. */
  const Setpoint: nat := 100

  /** The reply to the query at index `k` of `Queries`: a fixed gas `AR`,
      mode `Setpoint`, setpoint 100, and a flow of the setpoint plus
      `draw`, the `randint(0,5)` every write makes. */
  function Reply(k: nat, draw: nat): string
    requires k < |Queries|
  {
    if k == 0 then "G:1,AR\r"
    else if k == 1 then "VM:Setpoint\r"
    else if k == 2 then "SP:" + ShowNat(Setpoint) + "\r"
    else ">" + ShowNat(Setpoint + draw) + "\r"
  }

  /** `write`: a query appends the `str()` of its reply to the buffer;
      anything else is answered with nonsense that is returned, not
      buffered. */
  function Write(buffer: seq<string>, value: string, draw: nat): (r: seq<string>)
    ensures value !in Queries ==> r == buffer
    ensures value in Queries ==> |r| == |buffer| + 1 && r[..|buffer|] == buffer
  {
    match ListIndex(Queries, value)
    case None => buffer
    case Some(k) => buffer + [BytesRepr(Reply(k, draw))]
  }

  /** The buffer after `writes` in order, the `k`-th drawing `draws[k]`. */
  function AfterWrites(buffer: seq<string>, writes: seq<string>, draws: seq<nat>): seq<string>
    requires |draws| == |writes|
    decreases |writes|
  {
    if |writes| == 0 then buffer
    else
      var n := |writes| - 1;
      Write(AfterWrites(buffer, writes[..n], draws[..n]), writes[n], draws[n])
  }

  /** The buffer after `on_serial_query`: reset, then the four queries. */
  function Queried(draws: seq<nat>): seq<string>
    requires |draws| == |Queries|
  {
    AfterWrites([], OnSerialQuery().writes, draws)
  }

  /** The four queries are distinct, so each finds its own reply. */
  lemma QueryIndex(k: nat)
    requires k < |Queries|
    ensures ListIndex(Queries, Queries[k]) == Some(k)
  {
    var r := ListIndex(Queries, Queries[k]).value;
    if k == 0 {
      assert Queries[0][0] == 'G';
    } else if k == 1 {
      assert Queries[1][1] == ',';
      assert Queries[..1] == ["G\r"];
    } else if k == 2 {
      assert Queries[2][0] == 'S';
      assert Queries[..2] == ["G\r", "V,M\r"];
    } else {
      assert Queries[3][0] == 'F';
      assert Queries[..3] == ["G\r", "V,M\r", "SP\r"];
    }
  }

  /** After the first `n` queries, the buffer holds their replies in the
      order they were asked. */
  lemma {:induction false} QueriesBuffered(n: nat, draws: seq<nat>)
    requires n <= |Queries| && |draws| == n
    ensures var b := AfterWrites([], Queries[..n], draws);
      |b| == n && forall k :: 0 <= k < n ==> b[k] == BytesRepr(Reply(k, draws[k]))
  {
    if n > 0 {
      var m := n - 1;
      QueriesBuffered(m, draws[..m]);
      var before := AfterWrites([], Queries[..m], draws[..m]);
      var b := AfterWrites([], Queries[..n], draws);
      BufferedStep(n, draws);
      forall k | 0 <= k < n ensures b[k] == BytesRepr(Reply(k, draws[k])) {
        if k < m {
          assert b[k] == before[k];
          assert draws[..m][k] == draws[k];
        }
      }
    }
  }

  /** The `n`-th query appends its own reply. */
  lemma BufferedStep(n: nat, draws: seq<nat>)
    requires 0 < n <= |Queries| && |draws| == n
    ensures AfterWrites([], Queries[..n], draws) ==
              AfterWrites([], Queries[..n - 1], draws[..n - 1]) + [BytesRepr(Reply(n - 1, draws[n - 1]))]
  {
    var m := n - 1;
    assert Queries[..n][..m] == Queries[..m];
    QueryIndex(m);
  }

  /** Writes that are not queries leave the buffer as it is. */
  lemma {:induction false} NonQueriesNotBuffered(buffer: seq<string>, writes: seq<string>, draws: seq<nat>)
    requires |draws| == |writes|
    requires forall k :: 0 <= k < |writes| ==> writes[k] !in Queries
    ensures AfterWrites(buffer, writes, draws) == buffer
    decreases |writes|
  {
    if |writes| > 0 {
      var n := |writes| - 1;
      NonQueriesNotBuffered(buffer, writes[..n], draws[..n]);
    }
  }

  /** Offline, a query followed by a read shows gas `AR`, mode `Setpoint`,
      setpoint `100` and a flow of 100 plus the last draw. */
  lemma EmulatorRoundTrip(show: string -> string, draws: seq<nat>)
    requires |draws| == |Queries|
    ensures OnSerialRead(show, Queried(draws)) ==
              DpcRead(DpcReadouts("AR", "Setpoint", "100", show(ShowNat(Setpoint + draws[3]))), true)
  {
    var lines := Queried(draws);
    QueriesBuffered(4, draws);
    assert Queries[..4] == Queries;
    GasLineRead(lines[0], draws[0]);
    ModeLineRead(lines[1], draws[1]);
    SetpointLineRead(lines[2], draws[2]);
    FlowLineRead(show, lines[3], draws[3]);
  }

  lemma GasLineRead(line: string, draw: nat)
    requires line == BytesRepr(Reply(0, draw))
    ensures GasField(line) == Some("AR")
  {
    GasReplyRead("1", "AR", Reply(0, draw));
  }

  lemma ModeLineRead(line: string, draw: nat)
    requires line == BytesRepr(Reply(1, draw))
    ensures ModeField(line) == Some("Setpoint")
  {
    assert ModeName("Setpoint") == "Setpoint";
    ModeReplyRead("Setpoint", Reply(1, draw));
  }

  lemma SetpointLineRead(line: string, draw: nat)
    requires line == BytesRepr(Reply(2, draw))
    ensures SetpointField(line) == Some("100")
  {
    var t := ShowNat(Setpoint);
    PlainDigits(t);
    assert 'r' !in t;
    SetpointSlice(t, Reply(2, draw));
    NatIsFloat(Setpoint);
    SetpointText();
  }

  lemma SetpointText()
    ensures ShowNat(Setpoint) == "100"
  {
  }

  lemma FlowLineRead(show: string -> string, line: string, draw: nat)
    requires line == BytesRepr(Reply(3, draw))
    ensures FlowField(show, line) == Some(show(ShowNat(Setpoint + draw)))
  {
    var t := ShowNat(Setpoint + draw);
    PlainDigits(t);
    assert 'r' !in t;
    FlowSlice(t, Reply(3, draw));
    NatIsFloat(Setpoint + draw);
  }

  /** None of the confirm commands is a query, so offline they leave the
      buffer, and with it the emulator's setpoint, as they were. */
  lemma ConfirmNotBuffered(sci: string -> string, gasOptions: seq<string>, gasNumbers: seq<int>,
                           gas: string, mode: string, setpoint: string, buffer: seq<string>, draws: seq<nat>)
    requires |draws| == |OnConfirm(sci, gasOptions, gasNumbers, gas, mode, setpoint).writes|
    ensures AfterWrites(buffer, OnConfirm(sci, gasOptions, gasNumbers, gas, mode, setpoint).writes, draws) == buffer
  {
    var w := OnConfirm(sci, gasOptions, gasNumbers, gas, mode, setpoint).writes;
    forall k | 0 <= k < |w| ensures w[k] !in Queries {
      if k == 0 {
        CommandNotQuery("G,", w[k]);
      } else if k == 1 {
        CommandNotQuery("V,M,", w[k]);
      } else {
        CommandNotQuery("SP,", w[k]);
      }
    }
    NonQueriesNotBuffered(buffer, w, draws);
  }

  /** A command starting with one of the three command prefixes is none
      of the four queries. */
  lemma CommandNotQuery(prefix: string, cmd: string)
    requires prefix in ["G,", "V,M,", "SP,"] && |cmd| >= |prefix| && cmd[..|prefix|] == prefix
    ensures cmd !in Queries
  {
    if prefix == "G," {
      assert cmd[0] == 'G' && cmd[1] == ',';
    } else if prefix == "V,M," {
      assert cmd[3] == ',';
    } else {
      assert cmd[2] == ',';
    }
  }

  /** Offline, the handshake (`True` from the read) succeeds, so opening
      leaves the four readouts alone. */
  lemma OfflineOpenKeepsReadouts(show: string -> string, draws: seq<nat>)
    requires |draws| == |Queries|
    ensures var read := OnSerialRead(show, Queried(draws));
      OnSerialOpen(Some(if read.ok then ReadTrue else ReadFalse)) == None
  {
    EmulatorRoundTrip(show, draws);
  }
}
