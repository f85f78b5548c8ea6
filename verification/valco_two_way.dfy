/** The VICI Valco two-position valve (`Valco2WayValveWidget`): positions
    `A` and `B` carry user labels; the valve reports its position as the
    letter after a double quote, and is moved with `GOA` / `GOB`. */
module ValcoTwoWay {
  import opened Outcomes
  import opened PyText
  import opened DeviceCommon

  /** `on_serial_query`: clear the input, then ask for the current position. */
  function OnSerialQuery(valveId: string): (r: SerialCalls)
    ensures r.resetFirst && |r.writes| == 1 && |r.writes[0]| == |valveId| + 3
    ensures r.writes[0][..|valveId|] == valveId && r.writes[0][|valveId|..] == "CP\r"
  {
    SerialCalls(true, [valveId + "CP\r"])
  }

  /** The character right after the first double quote of the reply;
      `None` where `index` or the indexing raises. */
  function Marker(status: string): (r: Option<char>)
    ensures r.None? <==> '"' !in status || IndexOf(status, '"').value + 1 == |status|
    ensures r.Some? ==> var i := IndexOf(status, '"').value; i + 1 < |status| && r.value == status[i + 1]
  {
    match IndexOf(status, '"')
    case None => None
    case Some(i) => PyIndex(status, i + 1)
  }

  /** The `Actual Position` readout after a read, and the verdict. */
  datatype ValveRead = ValveRead(readout: string, result: ReadValue)

  /** `on_serial_read` on `status = str(readline())`: `A` after the quote
      shows the first label, any other character the second; a reply
      without a marker, or a label list too short, is a read error. */
  function OnSerialRead(positions: seq<string>, status: string): (r: ValveRead)
    ensures r.result == ReadTrue <==>
              Marker(status).Some? && |positions| > (if Marker(status) == Some('A') then 0 else 1)
    ensures r.result != ReadTrue ==> r == ValveRead(ReadError, ReadFalse)
    ensures r.result == ReadTrue && Marker(status) == Some('A') ==> r.readout == positions[0]
    ensures r.result == ReadTrue && Marker(status) != Some('A') ==> r.readout == positions[1]
  {
    match Marker(status)
    case None => ValveRead(ReadError, ReadFalse)
    case Some(c) =>
      match PyIndex(positions, if c == 'A' then 0 else 1)
      case None => ValveRead(ReadError, ReadFalse)
      case Some(p) => ValveRead(p, ReadTrue)
  }

  /** `on_confirm`: a selection that is not a label writes nothing; the
      first label's position is `A`, every other label's `B`. */
  function OnConfirm(valveId: string, positions: seq<string>, selected: string): (r: Option<string>)
    ensures r.Some? <==> selected in positions
    ensures r.Some? ==> r.value == valveId + "GO" + [if positions[0] == selected then 'A' else 'B'] + "\r"
  {
    match ListIndex(positions, selected)
    case None => None
    case Some(i) => Some(valveId + (if i == 0 then "GOA\r" else "GOB\r"))
  }

  /** `on_serial_close`, and `on_serial_open` with a falsy handshake. */
  function OnSerialClose(): (r: string)
    ensures r == NoReading && OnSerialOpen(Some(ReadFalse)) == Some(r)
  {
    NoReading
  }

  function OnSerialOpen(success: Option<ReadValue>): (r: Option<string>)
    ensures r.Some? <==> Falsy(success)
    ensures r.Some? ==> r.value == NoReading
  {
    if Falsy(success) then Some(NoReading) else None
  }

  /** A position reply in the shape the emulator produces: `dd"Xdd` CR LF. */
  function ReplyLine(letter: char): string {
    "dd\"" + [letter] + "dd\r\n"
  }

  /** How `str()` shows such a reply, and the marker found in it. */
  lemma ReplyRepr(letter: char)
    requires letter == 'A' || letter == 'B'
    ensures BytesRepr(ReplyLine(letter)) == "b'dd\"" + [letter] + "dd\\r\\n'"
    ensures Marker(BytesRepr(ReplyLine(letter))) == Some(letter)
  {
    var b := ReplyLine(letter);
    var head := "dd\"" + [letter] + "dd";
    assert b == head + "\r\n";
    assert '\'' !in b by {
      assert forall i :: 0 <= i < |b| ==> b[i] != '\'';
    }
    var q := ReprQuote(b);
    assert q == '\'';
    EscapeBytesAppend(head, "\r\n", q);
    EscapeBytesPlain(head, q);
    assert EscapeBytes("\r\n", q) == "\\r\\n" by {
      assert EscapeBytes("\r\n"[1..], q) == "\\n";
    }
    var s := "b'dd\"" + [letter] + "dd\\r\\n'";
    assert s[4] == '"' && s[5] == letter;
    assert '"' !in s[..4] by {
      assert s[..4] == "b'dd";
    }
  }

  /** Commanding a position and then reading the valve's report of that
      position shows the selected label, for two distinct labels. */
  lemma ConfirmReadsBack(valveId: string, positions: seq<string>, selected: string)
    requires |positions| == 2 && positions[0] != positions[1] && selected in positions
    ensures var letter := OnConfirm(valveId, positions, selected).value[|valveId| + 2];
      OnSerialRead(positions, BytesRepr(ReplyLine(letter))) == ValveRead(selected, ReadTrue)
  {
    var cmd := OnConfirm(valveId, positions, selected).value;
    var letter := cmd[|valveId| + 2];
    assert letter == (if positions[0] == selected then 'A' else 'B');
    ReplyRepr(letter);
  }

  /** With more than two labels, a third label is commanded as `B` and so
      reads back as the second label. */
  lemma ThirdLabelReadsAsSecond(valveId: string, positions: seq<string>)
    requires |positions| == 3 && positions[0] != positions[2] && positions[1] != positions[2]
    ensures OnConfirm(valveId, positions, positions[2]) == Some(valveId + "GOB\r")
    ensures OnSerialRead(positions, BytesRepr(ReplyLine('B'))) == ValveRead(positions[1], ReadTrue)
  {
    ReplyRepr('B');
  }

  // ---------------------------------------------------------------------
  // `Valco2WayValveSerialEmulator`: `readline` reports a random position;
  // `draw` is `randint(0,20)`.

  function EmulatorReadline(draw: nat): (r: string)
    requires draw < 20
  {
    ReplyLine(if draw > 10 then 'A' else 'B')
  }

  /** Offline, with two labels, every read is accepted and shows the first
      label exactly when the draw is above 10. */
  lemma EmulatorReadAccepted(positions: seq<string>, draw: nat)
    requires draw < 20 && |positions| == 2
    ensures OnSerialRead(positions, BytesRepr(EmulatorReadline(draw))) ==
              ValveRead(if draw > 10 then positions[0] else positions[1], ReadTrue)
  {
    ReplyRepr(if draw > 10 then 'A' else 'B');
  }

  /** Offline, with two labels, the handshake succeeds, so opening leaves
      the readout alone. */
  lemma OfflineOpenKeepsReadout(positions: seq<string>, draw: nat)
    requires draw < 20 && |positions| == 2
    ensures var read := OnSerialRead(positions, BytesRepr(EmulatorReadline(draw)));
      OnSerialOpen(Some(read.result)) == None
  {
    EmulatorReadAccepted(positions, draw);
  }
}
