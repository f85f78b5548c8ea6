/** The Picarro cavity ring-down spectrometer (`PicarroCRDWidget`): the
    analyser streams a line of measurements every second, so the widget
    sends nothing and only parses; the readouts turn into "Read Error" only
    after more than three failed reads in a row. */
module PicarroCrd {
  import opened Outcomes
  import opened PyText
  import opened DeviceCommon
  import GenericWidget

  /** The widget's `update_every_n_cycles`. */
  const UpdateEveryNCycles: nat := 3

  /** The generic part of the constructor: every third poll, with the
      (empty) query when the counter wraps to 0 and the read at 2. */
  function NewPicarroWidget(name: string, nickname: string, shared: bool): (w: GenericWidget.Widget)
    ensures w.WellFormed() && w.everyN == 3 && w.ReadPhase() == 2
    ensures !w.noSerial && !w.serialOpen && w.serialShared == shared
  {
    GenericWidget.NewWidget(name, nickname, false, shared, UpdateEveryNCycles)
  }

  /** `on_serial_query` does nothing. */
  function OnSerialQuery(): (r: SerialCalls)
    ensures !r.resetFirst && r.writes == []
  {
    SerialCalls(false, [])
  }

  /** The three readouts: `CH4 (ppm)`, `CO2 (ppm)`, `H2O (vol %)`. */
  datatype Readouts = Readouts(ch4: string, co2: string, h2o: string)

  const Errors: Readouts := Readouts(ReadError, ReadError, ReadError)
  const NoReadings: Readouts := Readouts(NoReading, NoReading, NoReading)

  /** What a read leaves behind: the readouts it sets (`None`: untouched),
      the new `num_fails`, and the verdict. */
  datatype PicarroRead = PicarroRead(shown: Option<Readouts>, numFails: nat, result: ReadValue)

  const BadReply: string := "Unexpected response received from Picarro CRD: "

  /** A reply, read through `str(bytes)`, splits into exactly seven words
      whose third to fifth `float()` accepts. */
  predicate Accepted(line: string) {
    var values := Words(BytesRepr(line));
    |values| == 7 && IsPyFloat(values[2]) && IsPyFloat(values[3]) && IsPyFloat(values[4])
  }

  /** `on_serial_read` on the second of two lines read (the first is
      discarded). `render(t, n)` stands for `str(round(float(t), n))`.
      Success shows CH4 from the third word, CO2 from the fifth and H2O
      from the fourth, and clears the failure count; a failure counts one
      more and shows "Read Error" once the count passes three. */
  function OnSerialRead(render: (string, nat) -> string, numFails: nat, line: string): (r: PicarroRead)
    ensures r.result == ReadTrue <==> Accepted(line)
    ensures r.result == ReadTrue ==> r.numFails == 0
    ensures r.result == ReadTrue ==> var v := Words(BytesRepr(line));
      r.shown == Some(Readouts(render(v[2], 2), render(v[4], 2), render(v[3], 4)))
    ensures r.result != ReadTrue ==> r.numFails == numFails + 1
    ensures r.result != ReadTrue ==> r.result == ReadMessage(BadReply + BytesRepr(line))
    ensures r.result != ReadTrue ==> (r.shown == Some(Errors) <==> numFails >= 3)
    ensures r.result != ReadTrue && numFails < 3 ==> r.shown.None?
  {
    var resp := BytesRepr(line);
    var values := Words(resp);
    if Accepted(line) then
      PicarroRead(Some(Readouts(render(values[2], 2), render(values[4], 2), render(values[3], 4))), 0, ReadTrue)
    else
      var fails := numFails + 1;
      PicarroRead(if fails > 3 then Some(Errors) else None, fails, ReadMessage(BadReply + resp))
  }

  /** `on_serial_close`, and `on_serial_open` with anything but `True`. */
  function OnSerialClose(): (r: Readouts)
    ensures r == Readouts(NoReading, NoReading, NoReading)
    ensures OnSerialOpen(Some(ReadFalse)) == Some(r)
  {
    NoReadings
  }

  function OnSerialOpen(success: Option<ReadValue>): (r: Option<Readouts>)
    ensures r.Some? <==> NotTrue(success)
    ensures r.Some? ==> r.value == NoReadings
  {
    if NotTrue(success) then Some(NoReadings) else None
  }

  // ---------------------------------------------------------------------
  // The failure count over a run of reads

  /** `num_fails` after reading `lines` in order, starting from `n`. */
  function FailsAfter(n: nat, lines: seq<string>): nat {
    if |lines| == 0 then n
    else
      var before := FailsAfter(n, lines[..|lines| - 1]);
      if Accepted(lines[|lines| - 1]) then 0 else before + 1
  }

  /** How many failed reads end the run. */
  function TrailingFailures(lines: seq<string>): (k: nat)
    ensures k <= |lines|
  {
    if |lines| == 0 || Accepted(lines[|lines| - 1]) then 0
    else 1 + TrailingFailures(lines[..|lines| - 1])
  }

  /** The failure count is the number of failed reads since the last
      success, plus the starting count when there was none. */
  lemma {:induction false} FailsAfterCounts(n: nat, lines: seq<string>)
    ensures FailsAfter(n, lines) ==
              if TrailingFailures(lines) == |lines| then n + |lines| else TrailingFailures(lines)
    decreases |lines|
  {
    if |lines| > 0 {
      FailsAfterCounts(n, lines[..|lines| - 1]);
    }
  }

  /** Along a run started from a fresh widget, the last read fails and
      shows "Read Error" exactly when it ends more than three failures in
      a row. */
  lemma ErrorShownAfterFourFailures(render: (string, nat) -> string, lines: seq<string>)
    requires |lines| > 0
    ensures var r := OnSerialRead(render, FailsAfter(0, lines[..|lines| - 1]), lines[|lines| - 1]);
      r.result != ReadTrue && r.shown == Some(Errors) <==> TrailingFailures(lines) > 3
  {
    var prefix := lines[..|lines| - 1];
    FailsAfterCounts(0, prefix);
    var last := lines[|lines| - 1];
    if !Accepted(last) {
      assert FailsAfter(0, prefix) == TrailingFailures(prefix);
      assert TrailingFailures(lines) == 1 + TrailingFailures(prefix);
      var r := OnSerialRead(render, FailsAfter(0, prefix), last);
      assert r.result != ReadTrue;
    }
  }

  // ---------------------------------------------------------------------
  // `PicarroCRDSerialEmulator`: `readline` draws CH4 from 2 to 99, CO2
  // from 400 to 599 and a water text `h2o` (`str()` of a float from 0.1
  // to 9.99, plain digits and a point).

  function EmulatorReadline(ch4: nat, h2o: string, co2: nat): string {
    " < " + ShowNat(ch4) + " " + h2o + " " + ShowNat(co2) + " > \r"
  }

  predicate PlainFloatText(t: string) {
    |t| > 0 && IsPyFloat(t) && DigitsOrPoint(t)
  }

  /** How `str()` shows an emulator line: seven words. */
  lemma EmulatorRepr(ch4: nat, h2o: string, co2: nat)
    requires |h2o| > 0 && DigitsOrPoint(h2o)
    ensures Words(BytesRepr(EmulatorReadline(ch4, h2o, co2))) ==
              ["b'", "<", ShowNat(ch4), h2o, ShowNat(co2), ">", "\\r'"]
  {
    var a := ShowNat(ch4);
    var c := ShowNat(co2);
    var ws := ["b'", "<", a, h2o, c, ">", "\\r'"];
    EmulatorReprJoin(a, h2o, c);
    assert NoSpace(a) && NoSpace(c) by {
      assert forall i :: 0 <= i < |a| ==> IsDigit(a[i]);
      assert forall i :: 0 <= i < |c| ==> IsDigit(c[i]);
    }
    assert NoSpace(h2o) by {
      assert forall i :: 0 <= i < |h2o| ==> IsDigit(h2o[i]) || h2o[i] == '.';
    }
    assert NoSpace("b'") && NoSpace("<") && NoSpace(">") && NoSpace("\\r'");
    assert forall k :: 0 <= k < |ws| ==> |ws[k]| > 0 && NoSpace(ws[k]);
    WordsOfJoin(ws);
  }

  lemma EmulatorReprJoin(a: string, h2o: string, c: string)
    requires AllDigits(a) && AllDigits(c) && DigitsOrPoint(h2o)
    ensures BytesRepr(" < " + a + " " + h2o + " " + c + " > \r") ==
              Join(["b'", "<", a, h2o, c, ">", "\\r'"], ' ')
  {
    PlainDigits(a);
    PlainDigits(c);
    PlainDigits(h2o);
    var p1 := " < " + a;
    PlainAppend(" < ", a);
    var p2 := p1 + " ";
    PlainAppend(p1, " ");
    var p3 := p2 + h2o;
    PlainAppend(p2, h2o);
    var p4 := p3 + " ";
    PlainAppend(p3, " ");
    var p5 := p4 + c;
    PlainAppend(p4, c);
    var head := p5 + " > ";
    PlainAppend(p5, " > ");
    var b := head + "\r";
    assert b == " < " + a + " " + h2o + " " + c + " > \r";
    ReprPlainCr(head);
    JoinSeven(a, h2o, c);
  }

  lemma JoinSeven(a: string, h2o: string, c: string)
    ensures "b'" + (" < " + a + " " + h2o + " " + c + " > ") + "\\r'" ==
              Join(["b'", "<", a, h2o, c, ">", "\\r'"], ' ')
  {
    var ws := ["b'", "<", a, h2o, c, ">", "\\r'"];
    assert ws[6..] == [ws[6]];
    assert Join(ws[6..], ' ') == ws[6];
    var j5 := Join(ws[5..], ' ');
    assert ws[5..][1..] == ws[6..];
    assert j5 == ">" + " " + "\\r'";
    var j4 := Join(ws[4..], ' ');
    assert ws[4..][1..] == ws[5..];
    assert j4 == c + " " + j5;
    var j3 := Join(ws[3..], ' ');
    assert ws[3..][1..] == ws[4..];
    assert j3 == h2o + " " + j4;
    var j2 := Join(ws[2..], ' ');
    assert ws[2..][1..] == ws[3..];
    assert j2 == a + " " + j3;
    var j1 := Join(ws[1..], ' ');
    assert ws[1..][1..] == ws[2..];
    assert j1 == "<" + " " + j2;
    assert Join(ws, ' ') == "b'" + " " + j1;
  }

  /** Offline, every read is accepted: the readouts show the drawn
      concentrations and the failure count is cleared. */
  lemma EmulatorReadAccepted(render: (string, nat) -> string, numFails: nat, ch4: nat, h2o: string, co2: nat)
    requires PlainFloatText(h2o)
    ensures OnSerialRead(render, numFails, EmulatorReadline(ch4, h2o, co2)) ==
              PicarroRead(Some(Readouts(render(ShowNat(ch4), 2), render(ShowNat(co2), 2), render(h2o, 4))), 0, ReadTrue)
  {
    var line := EmulatorReadline(ch4, h2o, co2);
    EmulatorRepr(ch4, h2o, co2);
    var v := Words(BytesRepr(line));
    assert v[2] == ShowNat(ch4) && v[3] == h2o && v[4] == ShowNat(co2);
    NatIsFloat(ch4);
    NatIsFloat(co2);
    assert Accepted(line);
  }

  /** Offline, the handshake succeeds, so opening leaves the readouts alone. */
  lemma OfflineOpenKeepsReadouts(render: (string, nat) -> string, numFails: nat, ch4: nat, h2o: string, co2: nat)
    requires PlainFloatText(h2o)
    ensures OnSerialOpen(Some(OnSerialRead(render, numFails, EmulatorReadline(ch4, h2o, co2)).result)) == None
  {
    EmulatorReadAccepted(render, numFails, ch4, h2o, co2);
  }
}
