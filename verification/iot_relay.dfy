/** The Digital Loggers IoT relay (`IoTRelayWidget`): a query byte, an
    "On"/"Off" status line, on/off commands, and an emulator that answers
    any query with a random status. */
module IotRelay {
  import opened Outcomes
  import opened PyText
  import opened GenericWidget
  import opened DeviceCommon

  const Query: string := "Q\n"

  /** `on_serial_query`: clear the input, then ask for the status. */
  function OnSerialQuery(): (r: SerialCalls)
    ensures r.resetFirst && r.writes == ["Q\n"]
  {
    SerialCalls(true, [Query])
  }

  /** What `on_serial_read` does with one line: the new `Actual Status`
      readout (`None`: untouched) and the verdict. A line that is not ASCII
      makes `decode` raise before any readout changes. */
  datatype RelayRead = RelayRead(readout: Option<string>, result: DeviceRead)

  /** The line without any `\n` or `\r`. */
  function Stripped(line: string): (r: string)
    ensures '\n' !in r && '\r' !in r
    ensures forall c :: c != '\n' && c != '\r' ==> (c in r <==> c in line)
  {
    RemoveChar(RemoveChar(line, '\n'), '\r')
  }

  function OnSerialRead(line: string): (r: RelayRead)
    ensures !IsAscii(line) <==> r.result.Raises?
    ensures r.result.Raises? ==> r.readout.None?
    ensures r.result == Returns(ReadTrue) <==> IsAscii(line) && Stripped(line) in {"On", "Off"}
    ensures r.result == Returns(ReadTrue) ==> r.readout == Some(Stripped(line))
    ensures r.result.Returns? && r.result != Returns(ReadTrue) ==>
              r.result == Returns(ReadFalse) && r.readout == Some(ReadError)
  {
    if !IsAscii(line) then RelayRead(None, Raises)
    else
      var status := Stripped(line);
      if status == "On" then RelayRead(Some("On"), Returns(ReadTrue))
      else if status == "Off" then RelayRead(Some("Off"), Returns(ReadTrue))
      else RelayRead(Some(ReadError), Returns(ReadFalse))
  }

  /** `on_confirm`: the command for the selected status; any other
      selection writes nothing. */
  function OnConfirm(selected: string): (r: Option<string>)
    ensures r.Some? <==> selected in {"On", "Off"}
    ensures r.Some? ==> r.value == selected + "\r\n"
  {
    if selected == "On" then Some("On\r\n")
    else if selected == "Off" then Some("Off\r\n")
    else None
  }

  /** The status a confirm command names reads back as that status: the
      command, seen as a status line, is accepted with the selection as
      readout. */
  lemma ConfirmReadsBack(selected: string)
    requires OnConfirm(selected).Some?
    ensures OnSerialRead(OnConfirm(selected).value) == RelayRead(Some(selected), Returns(ReadTrue))
  {
    assert selected == "On" || selected == "Off";
    StatusLineRead(selected);
  }

  /** A status line of "On" or "Off" reads as that status. */
  lemma StatusLineRead(t: string)
    requires t == "On" || t == "Off"
    ensures OnSerialRead(t + "\r\n") == RelayRead(Some(t), Returns(ReadTrue))
  {
    StripsLineEnd(t);
    var line := t + "\r\n";
    assert IsAscii(line) by {
      assert forall i :: 0 <= i < |line| ==> line[i] in "Onf\r\n";
    }
  }

  /** A status followed by CR LF strips back to the status. */
  lemma StripsLineEnd(t: string)
    requires '\n' !in t && '\r' !in t
    ensures Stripped(t + "\r\n") == t
  {
    RemoveCharAppend(t, "\r\n", '\n');
    assert RemoveChar("\r\n", '\n') == "\r";
    RemoveCharAppend(t, "\r", '\r');
    assert RemoveChar("\r", '\r') == "";
  }

  /** `on_serial_close` and a falsy handshake show "No Reading". */
  function OnSerialClose(): (r: string)
    ensures r == NoReading && OnSerialOpen(Some(ReadFalse)) == Some(r)
  {
    NoReading
  }

  function OnSerialOpen(success: Option<ReadValue>): (r: Option<string>)
    ensures r.Some? <==> Falsy(success)
    ensures r.Some? ==> r.value == NoReading
  {
    if Falsy(success) then Some(NoReading) else None
  }

  // ---------------------------------------------------------------------
  // `IoTRelaySerialEmulator`. `on` is the random draw (`randint(0,20) > 10`).

  /** `write` ignores anything whose `str()` contains a `Q`; other writes
      are only reported on the console. */
  predicate EmulatorIgnores(value: string) {
    Contains(BytesRepr(value), "Q")
  }

  function EmulatorReadline(on: bool): string
  {
    (if on then "On" else "Off") + "\r\n"
  }

  /** Every write a query makes is one the emulator ignores. */
  lemma EmulatorIgnoresQuery()
    ensures forall w :: w in OnSerialQuery().writes ==> EmulatorIgnores(w)
  {
    var r := BytesRepr(Query);
    assert r == "b'Q\\n'" by {
      assert EscapeBytes(Query, '\'') == "Q\\n" by {
        assert EscapeBytes(Query[1..], '\'') == "\\n";
      }
    }
    assert OccursAt(r, "Q", 2) by {
      assert r[2..3] == "Q";
    }
  }

  /** Whatever the emulator draws, a read accepts its line and shows the
      drawn status. */
  lemma EmulatorReadAccepted(on: bool)
    ensures OnSerialRead(EmulatorReadline(on)) ==
              RelayRead(Some(if on then "On" else "Off"), Returns(ReadTrue))
  {
    StatusLineRead(if on then "On" else "Off");
  }

  /** Offline, the handshake read of a connected widget succeeds, so
      opening leaves the readout alone. */
  lemma OfflineOpenKeepsReadout(w: Widget, on: bool)
    requires w.counter == w.ReadPhase() && w.Connected()
    ensures OnSerialOpen(ReadSerial(w, OnSerialRead(EmulatorReadline(on)).result)) == None
  {
    EmulatorReadAccepted(on);
  }

  /** A handshake line that is not ASCII makes `on_serial_read` raise;
      `read_serial` turns that into `False`, so opening shows "No Reading". */
  lemma NonAsciiHandshakeShowsNoReading(w: Widget, line: string)
    requires !IsAscii(line)
    requires w.counter == w.ReadPhase() && w.Connected()
    ensures OnSerialOpen(ReadSerial(w, OnSerialRead(line).result)) == Some(NoReading)
  {
  }
}
