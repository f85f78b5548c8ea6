/** The Omega USB-UTC thermocouple reader (`OmegaUSBUTCWidget`): one query,
    a reply judged by the length of its `str()` and reduced to its digits. */
module OmegaUtc {
  import opened Outcomes
  import opened PyText
  import opened DeviceCommon

  const Query: string := "C\r"

  /** `on_serial_query`: no buffer reset, one write. */
  function OnSerialQuery(): (r: SerialCalls)
    ensures !r.resetFirst && r.writes == ["C\r"]
  {
    SerialCalls(false, [Query])
  }

  /** The `Temperature` readout after a read and the verdict. */
  datatype ThermoRead = ThermoRead(readout: string, result: ReadValue)

  const BadReply: string := "Unexpected response received from thermocouple reader: "

  /** `on_serial_read` on `status = str(readline())`: the text must be 6 to
      11 characters long; the readout is then the text's digits, and a
      text without digits is still an error. The message quotes `status`
      as it stands when the error is raised: the whole text for a bad
      length, the (empty) digit string otherwise. */
  function OnSerialRead(status: string): (r: ThermoRead)
    ensures r.result == ReadTrue <==> 6 <= |status| <= 11 && FilterDigits(status) != ""
    ensures r.result == ReadTrue ==> r.readout == FilterDigits(status) && AllDigits(r.readout)
    ensures r.result != ReadTrue ==> r.readout == ReadError && r.result.ReadMessage?
    ensures !(6 <= |status| <= 11) ==> r.result == ReadMessage(BadReply + status)
  {
    if |status| < 6 || |status| > 11 then ThermoRead(ReadError, ReadMessage(BadReply + status))
    else
      var digits := FilterDigits(status);
      if |digits| == 0 then ThermoRead(ReadError, ReadMessage(BadReply + digits))
      else ThermoRead(digits, ReadTrue)
  }

  /** `on_serial_close`, and `on_serial_open` with anything but `True`. */
  function OnSerialClose(): (r: string)
    ensures r == NoReading && OnSerialOpen(Some(ReadFalse)) == Some(r)
  {
    NoReading
  }

  function OnSerialOpen(success: Option<ReadValue>): (r: Option<string>)
    ensures r.Some? <==> NotTrue(success)
    ensures r.Some? ==> r.value == NoReading
  {
    if NotTrue(success) then Some(NoReading) else None
  }

  /** A reply `>` + digits + CR LF from the device, read through
      `str(bytes)`, is accepted exactly when it has one to three digits,
      and the readout is those digits. */
  lemma DeviceReplyRead(digits: string)
    requires |digits| > 0 && AllDigits(digits)
    ensures var status := BytesRepr(">" + digits + "\r\n");
      && |status| == 8 + |digits|
      && (OnSerialRead(status).result == ReadTrue <==> |digits| <= 3)
      && (|digits| <= 3 ==> OnSerialRead(status).readout == digits)
  {
    ReplyRepr(digits);
    ReplyReprDigits(digits);
  }

  /** The digits of the shown reply are the device's digits. */
  lemma ReplyReprDigits(digits: string)
    requires AllDigits(digits)
    ensures FilterDigits("b'>" + digits + "\\r\\n'") == digits
  {
    var pre, post := "b'>", "\\r\\n'";
    FramesHaveNoDigits(pre, post);
    FilterDigitsAppend(pre, digits);
    FilterDigitsAppend(pre + digits, post);
    FilterAllDigits(digits);
  }

  /** The framing of the shown reply carries no digits. */
  lemma FramesHaveNoDigits(pre: string, post: string)
    requires pre == "b'>" && post == "\\r\\n'"
    ensures FilterDigits(pre) == "" && FilterDigits(post) == ""
  {
    NoDigitKept(pre);
    NoDigitKept(post);
  }

  /** Text without digits filters to nothing. */
  lemma NoDigitKept(s: string)
    requires forall i :: 0 <= i < |s| ==> !IsDigit(s[i])
    ensures FilterDigits(s) == ""
  {
  }

  /** How `str()` shows such a reply. */
  lemma ReplyRepr(digits: string)
    requires AllDigits(digits)
    ensures BytesRepr(">" + digits + "\r\n") == "b'>" + digits + "\\r\\n'"
  {
    var b := ">" + digits + "\r\n";
    assert '\'' !in b;
    var q := ReprQuote(b);
    assert q == '\'';
    var head := ">" + digits;
    assert b == head + "\r\n";
    EscapeBytesAppend(head, "\r\n", q);
    forall i | 0 <= i < |head| ensures Printable(head[i]) && head[i] != '\\' && head[i] != q {
      if i > 0 {
        assert head[i] == digits[i - 1];
      }
    }
    EscapeBytesPlain(head, q);
    assert EscapeBytes("\r\n", q) == "\\r\\n" by {
      assert EscapeBytes("\r\n"[1..], q) == "\\n";
    }
  }

  lemma {:induction false} FilterDigitsAppend(a: string, b: string)
    ensures FilterDigits(a + b) == FilterDigits(a) + FilterDigits(b)
    decreases |a|
  {
    if |a| == 0 {
      assert a + b == b;
    } else {
      assert (a + b)[0] == a[0];
      assert (a + b)[1..] == a[1..] + b;
      FilterDigitsAppend(a[1..], b);
    }
  }

  lemma {:induction false} FilterAllDigits(d: string)
    requires AllDigits(d)
    ensures FilterDigits(d) == d
    decreases |d|
  {
    if |d| > 0 {
      FilterAllDigits(d[1..]);
    }
  }

  /** A sign or a decimal point in the reply is dropped from the readout:
      `-5` reads as `5`. */
  lemma SignDropped()
    ensures OnSerialRead("b'>-5\\r\\n'") == ThermoRead("5", ReadTrue)
  {
    FilterDigitsAppend("b'>-", "5\\r\\n'");
    FilterDigitsAppend("5", "\\r\\n'");
    assert FilterDigits("b'>-") == "";
    assert FilterDigits("\\r\\n'") == "";
  }

  // ---------------------------------------------------------------------
  // `OmegaUSBUTCSerialEmulator`: `readline` already returns a `str`, with
  // a real CR LF inside; `k` is the random draw `randint(0,5)`.

  function EmulatorReadline(k: nat): string
    requires k < 5
  {
    "b'>3" + [DigitChar(k)] + "\r\n'"
  }

  /** Every emulator reply is accepted and reads as a temperature from 30
      to 34. */
  lemma EmulatorReadAccepted(k: nat)
    requires k < 5
    ensures OnSerialRead(EmulatorReadline(k)) == ThermoRead("3" + [DigitChar(k)], ReadTrue)
  {
    EmulatorDigits(k);
  }

  /** An emulator reply is eight characters long and its digits are `3`
      and the drawn digit. */
  lemma EmulatorDigits(k: nat)
    requires k < 5
    ensures |EmulatorReadline(k)| == 8
    ensures FilterDigits(EmulatorReadline(k)) == "3" + [DigitChar(k)]
  {
    var d := [DigitChar(k)];
    assert EmulatorReadline(k) == "b'>" + ("3" + d) + "\r\n'";
    FilterDigitsAppend("b'>", "3" + d);
    FilterDigitsAppend("b'>" + ("3" + d), "\r\n'");
    FilterAllDigits("3" + d);
    assert FilterDigits("b'>") == "";
    assert FilterDigits("\r\n'") == "";
  }

  /** Offline, the handshake succeeds, so opening leaves the readout alone. */
  lemma OfflineOpenKeepsReadout(k: nat)
    requires k < 5
    ensures OnSerialOpen(Some(OnSerialRead(EmulatorReadline(k)).result)) == None
  {
    EmulatorReadAccepted(k);
  }
}
