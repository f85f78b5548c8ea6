/** The VICI Valco eight-position valve (`Valco8WayValveWidget`): positions
    1 to 8 carry user labels; the valve reports its position as the digit
    after the first `0` of its reply, and is moved with `GO<n>`. */
module ValcoEightWay {
  import opened Outcomes
  import opened PyText
  import opened DeviceCommon
  import ValcoTwoWay

  /** `on_serial_query`: clear the input, then ask for the current position. */
  function OnSerialQuery(valveId: string): (r: SerialCalls)
    ensures r.resetFirst && |r.writes| == 1 && |r.writes[0]| == |valveId| + 3
    ensures r.writes[0][..|valveId|] == valveId && r.writes[0][|valveId|..] == "CP\r"
  {
    SerialCalls(true, [valveId + "CP\r"])
  }

  /** `int(c)` of one character: a digit gives its value, anything else
      (a space, a sign, a letter) raises. */
  lemma ParseOneChar(c: char)
    ensures ParseInt([c]) == (if IsDigit(c) then Some((c as int) - ('0' as int)) else None)
  {
    if IsDigit(c) {
      var d := (c as int) - ('0' as int);
      assert ShowInt(d) == [c];
      ParseShowInt(d);
    } else {
      ParseNonDigit(c);
    }
  }

  lemma ParseNonDigit(c: char)
    requires !IsDigit(c)
    ensures ParseInt([c]).None?
  {
    if IsSpace(c) {
      SpaceStrips(c);
    } else {
      assert Strip([c]) == [c];
      NonDigitSigned(c);
    }
  }

  lemma SpaceStrips(c: char)
    requires IsSpace(c)
    ensures Strip([c]) == []
  {
    assert [c][1..] == [];
    assert StripLeft([c]) == StripLeft([]);
  }

  lemma NonDigitSigned(c: char)
    requires !IsDigit(c)
    ensures ParseSigned([c]).None?
  {
    assert !WellGrouped([c]);
    if c == '+' || c == '-' {
      assert [c][1..] == [];
      assert !WellGrouped([]);
    }
  }

  /** The position number the reply reports: the digit after the first
      `0`; `None` where there is none. */
  function Position(status: string): (r: Option<int>)
    ensures r.None? <==>
              '0' !in status
              || IndexOf(status, '0').value + 1 == |status|
              || !IsDigit(status[IndexOf(status, '0').value + 1])
    ensures r.Some? ==> 0 <= r.value <= 9
    ensures r.Some? ==> var c := status[IndexOf(status, '0').value + 1];
      r.value == (c as int) - ('0' as int)
  {
    match IndexOf(status, '0')
    case None => None
    case Some(i) =>
      if i + 1 < |status| && IsDigit(status[i + 1]) then Some((status[i + 1] as int) - ('0' as int))
      else None
  }

  /** Where a character follows the first `0`, `Position` is what the
      widget computes from it: `int()` of that one character. */
  lemma PositionIsInt(status: string, i: nat)
    requires IndexOf(status, '0') == Some(i) && i + 1 < |status|
    ensures Position(status) == ParseInt([status[i + 1]])
  {
    ParseOneChar(status[i + 1]);
  }

  /** The `Actual Position` readout after a read, and the verdict. */
  datatype EightRead = EightRead(readout: string, result: ReadValue)

  const BadReply: string := "Unexpected response received from 8-way valve: "

  /** `on_serial_read` on `status = str(readline())`: position `n` shows
      label `n`; position 0 shows the last label, through Python's negative
      index; anything else is an error message quoting the reply. */
  function OnSerialRead(positions: seq<string>, status: string): (r: EightRead)
    ensures r.result == ReadTrue <==>
              Position(status).Some? && -|positions| < Position(status).value <= |positions|
    ensures r.result != ReadTrue ==> r == EightRead(ReadError, ReadMessage(BadReply + status))
    ensures r.result == ReadTrue && Position(status).value > 0 ==>
              r.readout == positions[Position(status).value - 1]
    ensures r.result == ReadTrue && Position(status).value == 0 ==>
              r.readout == positions[|positions| - 1]
  {
    var n := Position(status);
    if n.None? then EightRead(ReadError, ReadMessage(BadReply + status))
    else
      var shown := PyIndex(positions, n.value - 1);
      if shown.None? then EightRead(ReadError, ReadMessage(BadReply + status))
      else EightRead(shown.value, ReadTrue)
  }

  /** `on_confirm`: a selection that is not a label writes nothing; label
      `k` (counting from 1, first occurrence) is commanded as `GO<k>`. */
  function OnConfirm(valveId: string, positions: seq<string>, selected: string): (r: Option<string>)
    ensures r.Some? <==> selected in positions
    ensures r.Some? ==> exists k ::
      && 0 <= k < |positions|
      && positions[k] == selected
      && selected !in positions[..k]
      && r.value == valveId + "GO" + ShowInt(k + 1) + "\r"
  {
    match ListIndex(positions, selected)
    case None => None
    case Some(i) => Some(valveId + "GO" + ShowInt(i + 1) + "\r")
  }

  /** `on_serial_close`, and `on_serial_open` with anything but `True`. */
  function OnSerialClose(): (r: string)
    ensures r == NoReading && OnSerialOpen(Some(ReadFalse)) == Some(r)
  {
    NoReading
  }

  function OnSerialOpen(success: Option<ReadValue>): (r: Option<string>)
    ensures r.Some? <==> NotTrue(success)
    ensures r.Some? ==> r.value == NoReading
  {
    if NotTrue(success) then Some(NoReading) else None
  }

  /** A reply whose first `0` is followed by a digit reports that digit. */
  lemma PositionAfterFirstZero(pre: string, c: char, post: string)
    requires '0' !in pre && IsDigit(c)
    ensures Position(pre + ['0'] + ([c] + post)) == Some((c as int) - ('0' as int))
  {
    var status := pre + ['0'] + ([c] + post);
    IndexOfFirst(pre, '0', [c] + post);
    assert status[|pre| + 1] == c;
  }

  /** Commanding one of the first nine labels, then reading a reply that
      reports that position number after its first `0`, shows the selected
      label. */
  lemma ConfirmReadsBack(valveId: string, positions: seq<string>, selected: string, pre: string, post: string)
    requires selected in positions && ListIndex(positions, selected).value < 9
    requires '0' !in pre
    ensures var k := ListIndex(positions, selected).value + 1;
      && OnConfirm(valveId, positions, selected) == Some(valveId + "GO" + [DigitChar(k)] + "\r")
      && OnSerialRead(positions, pre + ['0'] + ([DigitChar(k)] + post)) == EightRead(selected, ReadTrue)
  {
    var k := ListIndex(positions, selected).value + 1;
    assert ShowInt(k) == [DigitChar(k)];
    PositionAfterFirstZero(pre, DigitChar(k), post);
  }

  /** A reply with `00` before any other `0` reads as the last label. */
  lemma ZeroReadsLast(positions: seq<string>, pre: string, post: string)
    requires |positions| > 0 && '0' !in pre
    ensures OnSerialRead(positions, pre + ['0'] + (['0'] + post)) == EightRead(positions[|positions| - 1], ReadTrue)
  {
    PositionAfterFirstZero(pre, '0', post);
  }

  /** A reply names at most position 9, so a tenth label that is neither
      among the first nine nor the last is commanded (`GO10`) but never
      shown. */
  lemma TenthLabelNeverShown(positions: seq<string>, status: string)
    requires |positions| >= 10
    requires positions[9] !in positions[..9] && positions[9] != positions[|positions| - 1]
    requires positions[9] != ReadError
    ensures OnSerialRead(positions, status).readout != positions[9]
  {
    var r := OnSerialRead(positions, status);
    if r.result == ReadTrue {
      var n := Position(status).value;
      if n > 0 {
        assert positions[n - 1] == positions[..9][n - 1];
      }
    }
  }

  // ---------------------------------------------------------------------
  // The widget is given the two-way valve's emulator, whose replies hold
  // no `0`: offline, every read is an error.

  lemma EmulatorReadsFail(positions: seq<string>, draw: nat)
    requires draw < 20
    ensures var status := BytesRepr(ValcoTwoWay.EmulatorReadline(draw));
      OnSerialRead(positions, status) == EightRead(ReadError, ReadMessage(BadReply + status))
  {
    var letter := if draw > 10 then 'A' else 'B';
    ValcoTwoWay.ReplyRepr(letter);
    var s := "b'dd\"" + [letter] + "dd\\r\\n'";
    assert forall i :: 0 <= i < |s| ==> s[i] != '0';
    assert '0' !in s;
  }

  /** Offline the handshake always fails, so opening shows "No Reading". */
  lemma OfflineOpenShowsNoReading(positions: seq<string>, draw: nat)
    requires draw < 20
    ensures var read := OnSerialRead(positions, BytesRepr(ValcoTwoWay.EmulatorReadline(draw)));
      OnSerialOpen(Some(read.result)) == Some(NoReading)
  {
    EmulatorReadsFail(positions, draw);
  }
}
