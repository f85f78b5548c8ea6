/** What the device widgets share: the serial calls an operation makes,
    the readout texts they show, how `on_serial_open` judges the handshake
    result it is handed, and Python's `repr` of the texts their error
    messages embed. */
module DeviceCommon {
  import opened Outcomes
  import opened PyText

  const ReadError: string := "Read Error"
  const NoReading: string := "No Reading"

  /** The direct serial calls an operation makes: optionally
      `reset_input_buffer()` first, then these `write`s in order. */
  datatype SerialCalls = SerialCalls(resetFirst: bool, writes: seq<string>)

  /** One `send_via_queue(text, delay)` call. */
  datatype Send = Send(text: string, delayMs: int)

  /** `on_serial_open` is handed `None` when no handshake read happened,
      else what `read_serial` returned. Python's `not success` holds for
      `None`, `False` and an empty message. */
  predicate Falsy(success: Option<ReadValue>) {
    success.None? || success.value.ReadFalse? || success.value == ReadMessage("")
  }

  /** `success is not True`. */
  predicate NotTrue(success: Option<ReadValue>) {
    success != Some(ReadTrue)
  }

  /** A falsy handshake result is in particular not `True`; an error
      message is not `True` but is truthy, so the two tests differ on it. */
  lemma FalsyIsNotTrue(success: Option<ReadValue>)
    ensures Falsy(success) ==> NotTrue(success)
    ensures NotTrue(Some(ReadMessage("x"))) && !Falsy(Some(ReadMessage("x")))
  {
  }

  /** Python's `repr` of an ASCII `str`: quoted like `repr(bytes)` without
      the `b` prefix. */
  function StrRepr(s: string): (r: string)
    ensures |r| >= 2 && r[0] == r[|r| - 1] == ReprQuote(s)
  {
    var q := ReprQuote(s);
    [q] + EscapeBytes(s, q) + [q]
  }

  /** `str(list)` given the `repr` of each item: `[a, b, c]`. */
  function ListRepr(items: seq<string>): (r: string)
    ensures |r| >= 2 && r[0] == '[' && r[|r| - 1] == ']'
  {
    "[" + CommaJoin(items) + "]"
  }

  function CommaJoin(items: seq<string>): string {
    if |items| == 0 then ""
    else if |items| == 1 then items[0]
    else items[0] + ", " + CommaJoin(items[1..])
  }
}
