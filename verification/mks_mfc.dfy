/** The MKS mass flow controller (`MksMFCWidget`): several controllers on one
    MKS control box share a serial line. Each widget addresses its channel
    with `@<id><code><channel>`, asks four questions per cycle, reads the four
    `;`-terminated replies byte by byte, and keeps the text after `ACK` of
    each. */
module MksMfc {
  import opened Outcomes
  import opened PyText
  import opened DeviceCommon

  const ChannelOptions: seq<string> := ["A1", "A2", "B1", "B2", "C1", "C2"]

  /** `str(channel_options.index(channel) + 1)` for the six channels. */
  const ChannelDigits: seq<string> := ["1", "2", "3", "4", "5", "6"]

  const ModeOptions: seq<string> := ["Closed", "Setpoint", "Open"]

  /** The word the device uses for each mode option, in the same order. */
  const ModeWords: seq<string> := ["CLOSE", "SETPOINT", "OPEN"]

  // ---------------------------------------------------------------------
  // Construction

  /** What the constructor stores: the control box id, the channel number
      text, the forced scale factor (`""` when not forced), whether the
      serial line is borrowed from another widget, and the default port. */
  datatype Config = Config(deviceId: string, whichChannel: string, forceScale: string, shared: bool, defaultPort: string)

  /** A forced scale factor disables the scale factor entry. */
  predicate ScaleEntryLocked(c: Config) { c.forceScale != "" }

  datatype ConfigError = MissingPort | MissingDeviceId | UnknownChannel

  /** The constructor. `sharerId` is the id of the widget passed as
      `widget_to_share_serial_with` (`None`: not passed); the other options
      are the keyword arguments (`None`: not passed), `forceScale` already
      through `str()`. Without a sharer a missing port raises first, then a
      missing id; a channel not among the six raises `ValueError`. */
  function Configure(channel: string, sharerId: Option<string>, port: Option<string>,
                     deviceId: Option<string>, forceScale: Option<string>): (r: Result<Config, ConfigError>)
    ensures r == Err(MissingPort) <==> sharerId.None? && port.None?
    ensures r == Err(MissingDeviceId) <==> sharerId.None? && port.Some? && deviceId.None?
    ensures r == Err(UnknownChannel) <==>
              (sharerId.Some? || (port.Some? && deviceId.Some?)) && channel !in ChannelOptions
    ensures r.Ok? ==> r.value.deviceId == (if deviceId.Some? then deviceId.value else sharerId.value)
    ensures r.Ok? ==> (r.value.shared <==> sharerId.Some?)
    ensures r.Ok? ==> r.value.forceScale == (if forceScale.Some? then forceScale.value else "")
    ensures r.Ok? ==> r.value.defaultPort == (if port.Some? then port.value else "None")
    ensures r.Ok? ==> ValidConfig(r.value)
    ensures r.Ok? ==>
              exists k :: 0 <= k < 6 && ChannelOptions[k] == channel && ParseInt(r.value.whichChannel) == Some(k + 1)
  {
    if sharerId.None? && port.None? then Err(MissingPort)
    else if sharerId.None? && deviceId.None? then Err(MissingDeviceId)
    else
      var id := if deviceId.Some? then deviceId.value else sharerId.value;
      match ListIndex(ChannelOptions, channel)
      case None => Err(UnknownChannel)
      case Some(i) =>
        ChannelText(i);
        Ok(Config(id, ShowInt(i + 1), if forceScale.Some? then forceScale.value else "",
                  sharerId.Some?, if port.Some? then port.value else "None"))
  }

  /** A constructed widget's channel number is one of the six digits. */
  predicate ValidConfig(c: Config) { c.whichChannel in ChannelDigits }

  lemma ChannelText(i: nat)
    requires i < 6
    ensures ShowInt(i + 1) == ChannelDigits[i] == [DigitChar(i + 1)]
    ensures ParseInt(ShowInt(i + 1)) == Some(i + 1)
  {
    assert ShowInt(i + 1) == [DigitChar(i + 1)];
    ParseShowInt(i + 1);
  }

  /** Distinct channels get distinct channel numbers. */
  lemma ChannelsDistinct(a: string, b: string, sharerId: Option<string>, port: Option<string>,
                         deviceId: Option<string>, forceScale: Option<string>)
    requires Configure(a, sharerId, port, deviceId, forceScale).Ok?
    requires Configure(b, sharerId, port, deviceId, forceScale).Ok?
    requires a != b
    ensures Configure(a, sharerId, port, deviceId, forceScale).value.whichChannel !=
            Configure(b, sharerId, port, deviceId, forceScale).value.whichChannel
  {
    var ca := Configure(a, sharerId, port, deviceId, forceScale).value;
    var cb := Configure(b, sharerId, port, deviceId, forceScale).value;
    var ka :| 0 <= ka < 6 && ChannelOptions[ka] == a && ParseInt(ca.whichChannel) == Some(ka + 1);
    var kb :| 0 <= kb < 6 && ChannelOptions[kb] == b && ParseInt(cb.whichChannel) == Some(kb + 1);
  }

  // ---------------------------------------------------------------------
  // Fields

  /** `Device Scale Factor`, `Device Mode`, `Device Setpoint`, `Actual Flow`. */
  datatype MksReadouts = MksReadouts(scaleFactor: string, mode: string, setpoint: string, flow: string)

  /** `Scale Factor Entry`, `Mode Selection`, `Setpoint Entry`. */
  datatype MksEntries = MksEntries(scaleFactor: string, mode: string, setpoint: string)

  datatype MksFields = MksFields(entries: MksEntries, readouts: MksReadouts)

  function AllReadouts(text: string): (r: MksReadouts)
    ensures r.scaleFactor == r.mode == r.setpoint == r.flow == text
  {
    MksReadouts(text, text, text, text)
  }

  /** The fields as the constructor adds them. */
  function InitialFields(c: Config): (r: MksFields)
    ensures r.entries == MksEntries(c.forceScale, "Closed", "0.0")
    ensures r.entries.mode in ModeOptions
    ensures r.readouts == OnSerialClose()
  {
    MksFields(MksEntries(c.forceScale, "Closed", "0.0"), AllReadouts("None"))
  }

  /** `on_serial_close` shows "None" in every readout. */
  function OnSerialClose(): (r: MksReadouts)
    ensures r == AllReadouts("None")
    ensures forall c: Config, fields: MksFields :: r != OnSerialOpen(Some(ReadFalse), c, fields).readouts
  {
    AllReadouts("None")
  }

  /** `on_serial_open`: a handshake that is not `True` shows "No Reading" in
      the four readouts; a successful one copies the device's scale factor
      (unless forced), setpoint and mode into the entries. */
  function OnSerialOpen(success: Option<ReadValue>, c: Config, fields: MksFields): (r: MksFields)
    ensures NotTrue(success) ==> r == MksFields(fields.entries, AllReadouts(NoReading))
    ensures !NotTrue(success) ==> r.readouts == fields.readouts
    ensures !NotTrue(success) ==>
              && r.entries.setpoint == fields.readouts.setpoint
              && r.entries.mode == fields.readouts.mode
              && r.entries.scaleFactor ==
                   (if ScaleEntryLocked(c) then fields.entries.scaleFactor else fields.readouts.scaleFactor)
  {
    if NotTrue(success) then fields.(readouts := AllReadouts(NoReading))
    else
      var sf := if c.forceScale == "" then fields.readouts.scaleFactor else fields.entries.scaleFactor;
      fields.(entries := MksEntries(sf, fields.readouts.mode, fields.readouts.setpoint))
  }

  // ---------------------------------------------------------------------
  // Query

  /** Scale factor, mode, setpoint, flow rate. */
  const QueryCodes: seq<string> := ["QSF", "QMD", "QSP", "FR"]

  function QueryCommand(c: Config, code: string): string {
    "@" + c.deviceId + code + c.whichChannel + "?;FF\r"
  }

  /** The address every command carries, the device id and the channel,
      encodes as ASCII. */
  predicate AsciiAddress(c: Config) {
    IsAscii(c.deviceId) && IsAscii(c.whichChannel)
  }

  /** A command with an ASCII code encodes exactly when its address does. */
  lemma QueryCommandAscii(c: Config, code: string)
    requires IsAscii(code)
    ensures IsAscii(QueryCommand(c, code)) <==> AsciiAddress(c)
  {
    var q := QueryCommand(c, code);
    var n := |c.deviceId|;
    assert forall k :: 0 <= k < n ==> c.deviceId[k] == q[k + 1];
    assert forall k :: 0 <= k < |c.whichChannel| ==> c.whichChannel[k] == q[n + |code| + 1 + k];
  }

  /** `on_serial_query`: clear the input unless the line is borrowed, then
      encode and write the four queries directly, in order. A device id
      that is not ASCII makes the first `encode('ascii')` raise, after the
      reset and before any write. */
  function OnSerialQuery(c: Config): (r: SerialCalls)
    ensures r.resetFirst <==> !c.shared
    ensures r.writes != [] <==> AsciiAddress(c)
    ensures AsciiAddress(c) ==> |r.writes| == |QueryCodes|
    ensures AsciiAddress(c) ==>
              forall k :: 0 <= k < |QueryCodes| ==> r.writes[k] == QueryCommand(c, QueryCodes[k]) && IsAscii(r.writes[k])
  {
    QueryCommandAscii(c, "QSF");
    QueryCommandAscii(c, "QMD");
    QueryCommandAscii(c, "QSP");
    QueryCommandAscii(c, "FR");
    if !IsAscii(QueryCommand(c, "QSF")) then SerialCalls(!c.shared, [])
    else
      SerialCalls(!c.shared, [QueryCommand(c, "QSF"), QueryCommand(c, "QMD"),
                              QueryCommand(c, "QSP"), QueryCommand(c, "FR")])
  }

  // ---------------------------------------------------------------------
  // Reading the four `;`-terminated replies, one `read(1)` at a time. An
  // exhausted input (a timeout) returns no byte; a byte that does not
  // decode as ASCII raises.

  /** `read(1)` calls spent looking for one reply. */
  const TokenReads: nat := 20

  /** Replies read per cycle. */
  const ReplyCount: nat := 4

  /** What one pass of `read(1)` calls yields: a reply and the unread
      input; no reply (the bytes read are dropped); or a decode failure. */
  datatype TokenScan = Token(text: string, rest: string) | NoToken(rest: string) | BadByte

  function Min(a: nat, b: nat): nat { if a < b then a else b }

  predicate WellFormedToken(t: string) {
    ';' !in t && IsAscii(t) && |t| < TokenReads
  }

  /** At most `budget` reads: a `;` ends the reply, any other byte joins it. */
  function TakeToken(stream: string, budget: nat): (r: TokenScan)
    decreases budget
    ensures r.Token? ==>
              stream == r.text + ";" + r.rest && ';' !in r.text && IsAscii(r.text) && |r.text| < budget
    ensures r.NoToken? ==> var n := Min(budget, |stream|);
              r.rest == stream[n..] && ';' !in stream[..n] && IsAscii(stream[..n])
  {
    if budget == 0 || |stream| == 0 then NoToken(stream)
    else if stream[0] == ';' then Token("", stream[1..])
    else if (stream[0] as int) >= 128 then BadByte
    else
      match TakeToken(stream[1..], budget - 1)
      case Token(t, rest) =>
        ConsToken(stream, t, rest);
        Token([stream[0]] + t, rest)
      case NoToken(rest) =>
        ConsNoToken(stream, budget, rest);
        NoToken(rest)
      case BadByte => BadByte
  }

  /** An ASCII byte other than `;` in front of a reply joins it. */
  lemma ConsToken(stream: string, t: string, rest: string)
    requires |stream| > 0 && stream[0] != ';' && (stream[0] as int) < 128
    requires stream[1..] == t + ";" + rest && ';' !in t && IsAscii(t)
    ensures stream == [stream[0]] + t + ";" + rest
    ensures ';' !in [stream[0]] + t && IsAscii([stream[0]] + t)
  {
    assert stream == [stream[0]] + stream[1..];
  }

  /** An ASCII byte other than `;` in front of a timed-out pass is dropped
      with it. */
  lemma ConsNoToken(stream: string, budget: nat, rest: string)
    requires budget > 0 && |stream| > 0 && stream[0] != ';' && (stream[0] as int) < 128
    requires var n := Min(budget - 1, |stream| - 1);
      rest == stream[1..][n..] && ';' !in stream[1..][..n] && IsAscii(stream[1..][..n])
    ensures var n := Min(budget, |stream|);
      rest == stream[n..] && ';' !in stream[..n] && IsAscii(stream[..n])
  {
    var n := Min(budget, |stream|);
    assert stream[..n] == [stream[0]] + stream[1..][..n - 1];
    assert stream[n..] == stream[1..][n - 1..];
  }

  /** The decode fails exactly when a non-ASCII byte comes, within the
      budget, before any `;`. */
  lemma {:induction false} BadByteWhen(stream: string, budget: nat)
    ensures TakeToken(stream, budget).BadByte? <==>
              exists i :: 0 <= i < Min(budget, |stream|) && (stream[i] as int) >= 128 && ';' !in stream[..i]
    decreases budget
  {
    if budget > 0 && |stream| > 0 && stream[0] != ';' && (stream[0] as int) < 128 {
      var tail := stream[1..];
      BadByteWhen(tail, budget - 1);
      if TakeToken(stream, budget).BadByte? {
        var i :| 0 <= i < Min(budget - 1, |tail|) && (tail[i] as int) >= 128 && ';' !in tail[..i];
        assert stream[..i + 1] == [stream[0]] + tail[..i];
        assert stream[i + 1] == tail[i];
      }
      if exists i :: 0 <= i < Min(budget, |stream|) && (stream[i] as int) >= 128 && ';' !in stream[..i] {
        var i :| 0 <= i < Min(budget, |stream|) && (stream[i] as int) >= 128 && ';' !in stream[..i];
        assert i > 0;
        assert stream[..i] == [stream[0]] + tail[..i - 1];
        assert tail[i - 1] == stream[i];
      }
    } else if budget > 0 && |stream| > 0 && stream[0] == ';' {
      assert forall i :: 0 < i < |stream| ==> stream[0] in stream[..i];
    }
  }

  /** A well-formed reply followed by `;` is read back whole. */
  lemma {:induction false} TokenReadsBack(t: string, rest: string, budget: nat)
    requires ';' !in t && IsAscii(t) && |t| < budget
    ensures TakeToken(t + ";" + rest, budget) == Token(t, rest)
    decreases |t|
  {
    var s := t + ";" + rest;
    if |t| == 0 {
      assert s == ";" + rest;
    } else {
      assert s[0] == t[0] && s[1..] == t[1..] + ";" + rest;
      TokenReadsBack(t[1..], rest, budget - 1);
      assert [t[0]] + t[1..] == t;
    }
  }

  /** The replies read, and the input left unread. */
  datatype Replies = Replies(tokens: seq<string>, rest: string)

  /** `count` passes of `TakeToken`; `None` when a decode raised. */
  function ReadReplies(stream: string, count: nat): (r: Option<Replies>)
    decreases count
    ensures r.Some? ==> |r.value.tokens| <= count && |r.value.rest| <= |stream|
    ensures r.Some? ==> forall k :: 0 <= k < |r.value.tokens| ==> WellFormedToken(r.value.tokens[k])
  {
    if count == 0 then Some(Replies([], stream))
    else
      match TakeToken(stream, TokenReads)
      case BadByte => None
      case NoToken(rest) => ReadReplies(rest, count - 1)
      case Token(t, rest) =>
        match ReadReplies(rest, count - 1)
        case None => None
        case Some(more) => Some(Replies([t] + more.tokens, more.rest))
  }

  /** Each reply followed by its `;`. */
  function Delimit(ts: seq<string>): string {
    if |ts| == 0 then "" else ts[0] + ";" + Delimit(ts[1..])
  }

  /** Well-formed replies, each ended by `;`, read back as themselves. */
  lemma {:induction false} DelimitedReadsBack(ts: seq<string>, rest: string)
    requires forall k :: 0 <= k < |ts| ==> WellFormedToken(ts[k])
    ensures ReadReplies(Delimit(ts) + rest, |ts|) == Some(Replies(ts, rest))
    decreases |ts|
  {
    if |ts| > 0 {
      var tail := Delimit(ts[1..]) + rest;
      assert Delimit(ts) + rest == ts[0] + ";" + tail;
      assert WellFormedToken(ts[0]);
      TokenReadsBack(ts[0], tail, TokenReads);
      assert forall k :: 0 <= k < |ts[1..]| ==> ts[1..][k] == ts[k + 1];
      DelimitedReadsBack(ts[1..], rest);
      assert [ts[0]] + ts[1..] == ts;
    } else {
      assert Delimit(ts) + rest == rest;
    }
  }

  /** With nothing to read every pass times out: no replies at all. */
  lemma SilentLineReadsNothing()
    ensures ReadReplies("", ReplyCount) == Some(Replies([], ""))
  {
  }

  /** `Extend(line, scan)`: the scan of the input after `line` was read. */
  function Extend(line: string, scan: TokenScan): TokenScan {
    match scan
    case Token(t, rest) => Token(line + t, rest)
    case NoToken(rest) => NoToken(rest)
    case BadByte => BadByte
  }

  /** The inner loop of `on_serial_read`: twenty `read(1)` calls at most.
      A call on exhausted input times out and adds nothing to the line. */
  method ReadToken(stream: string) returns (r: TokenScan)
    ensures r == TakeToken(stream, TokenReads)
  {
    var buffer := stream;
    var line := "";
    var j := 0;
    while j < TokenReads
      invariant 0 <= j <= TokenReads
      invariant TakeToken(stream, TokenReads) == Extend(line, TakeToken(buffer, TokenReads - j))
    {
      if |buffer| > 0 {
        var oneByte := buffer[0];
        if oneByte == ';' {
          StepSemicolon(line, buffer, TokenReads - j);
          return Token(line, buffer[1..]);
        }
        if (oneByte as int) >= 128 {
          return BadByte;
        }
        StepChar(line, buffer, TokenReads - j);
        line := line + [oneByte];
        buffer := buffer[1..];
      }
      j := j + 1;
    }
    return NoToken(buffer);
  }

  /** A `;` ends the reply read so far. */
  lemma StepSemicolon(line: string, buffer: string, n: nat)
    requires n > 0 && |buffer| > 0 && buffer[0] == ';'
    ensures Extend(line, TakeToken(buffer, n)) == Token(line, buffer[1..])
  {
    assert line + "" == line;
  }

  /** Any other ASCII byte joins the reply. */
  lemma StepChar(line: string, buffer: string, n: nat)
    requires n > 0 && |buffer| > 0 && buffer[0] != ';' && (buffer[0] as int) < 128
    ensures Extend(line, TakeToken(buffer, n)) == Extend(line + [buffer[0]], TakeToken(buffer[1..], n - 1))
  {
    var scan := TakeToken(buffer[1..], n - 1);
    assert TakeToken(buffer, n) == Extend([buffer[0]], scan);
    ExtendStep(line, buffer[0], scan);
  }

  lemma ExtendStep(line: string, c: char, scan: TokenScan)
    ensures Extend(line, Extend([c], scan)) == Extend(line + [c], scan)
  {
    if scan.Token? {
      assert line + ([c] + scan.text) == line + [c] + scan.text;
    }
  }

  /** `Prefix(ts, r)`: the replies `r` reads after `ts` were read. */
  function Prefix(ts: seq<string>, r: Option<Replies>): Option<Replies> {
    match r
    case None => None
    case Some(more) => Some(Replies(ts + more.tokens, more.rest))
  }

  /** The outer loop of `on_serial_read`: four passes of `ReadToken`. */
  method ReadRepliesBytewise(stream: string) returns (r: Option<Replies>)
    ensures r == ReadReplies(stream, ReplyCount)
  {
    var buffer := stream;
    var rawLines: seq<string> := [];
    var i := 0;
    PrefixThen([], [], ReadReplies(stream, ReplyCount));
    while i < ReplyCount
      invariant 0 <= i <= ReplyCount
      invariant ReadReplies(stream, ReplyCount) == Prefix(rawLines, ReadReplies(buffer, ReplyCount - i))
    {
      var scan := ReadToken(buffer);
      match scan {
        case BadByte =>
          PassBadByte(buffer, ReplyCount - i);
          return None;
        case NoToken(rest) =>
          PassNoToken(buffer, ReplyCount - i, rest);
          buffer := rest;
        case Token(t, rest) =>
          PassToken(buffer, ReplyCount - i, t, rest);
          PrefixThen(rawLines, [t], ReadReplies(rest, ReplyCount - i - 1));
          rawLines := rawLines + [t];
          buffer := rest;
      }
      i := i + 1;
    }
    assert ReadReplies(buffer, 0) == Some(Replies([], buffer));
    assert rawLines + [] == rawLines;
    return Some(Replies(rawLines, buffer));
  }

  /** A decode failure ends the read. */
  lemma PassBadByte(buffer: string, n: nat)
    requires n > 0 && TakeToken(buffer, TokenReads) == BadByte
    ensures ReadReplies(buffer, n) == None
  {
  }

  /** One pass that does not raise: the reply it read, if any, comes first. */
  lemma PassToken(buffer: string, n: nat, t: string, rest: string)
    requires n > 0 && TakeToken(buffer, TokenReads) == Token(t, rest)
    ensures ReadReplies(buffer, n) == Prefix([t], ReadReplies(rest, n - 1))
  {
  }

  /** A pass that times out reads nothing. */
  lemma PassNoToken(buffer: string, n: nat, rest: string)
    requires n > 0 && TakeToken(buffer, TokenReads) == NoToken(rest)
    ensures ReadReplies(buffer, n) == Prefix([], ReadReplies(rest, n - 1))
  {
    var more := ReadReplies(rest, n - 1);
    if more.Some? {
      assert [] + more.value.tokens == more.value.tokens;
    }
  }

  lemma PrefixThen(a: seq<string>, b: seq<string>, r: Option<Replies>)
    ensures Prefix(a, Prefix(b, r)) == Prefix(a + b, r)
    ensures Prefix([], r) == r
  {
    if r.Some? {
      assert [] + r.value.tokens == r.value.tokens;
      assert a + (b + r.value.tokens) == a + b + r.value.tokens;
    }
  }

  // ---------------------------------------------------------------------
  // Parsing the replies

  /** `t.replace('FF', '')`, then everything after the first `ACK`; `None`
      where `index` raises. */
  function AfterAck(token: string): (r: Option<string>)
    ensures r.Some? <==> Contains(RemoveAll(token, "FF"), "ACK")
    ensures r.Some? ==> |r.value| + 3 <= |RemoveAll(token, "FF")|
  {
    var c := RemoveAll(token, "FF");
    match Find(c, "ACK")
    case None => None
    case Some(i) => Some(c[i + 3..])
  }

  /** The mode readout: the three device words are translated, anything
      else is shown as sent. */
  function ModeName(word: string): (r: string)
    ensures word !in ModeWords ==> r == word
  {
    if word == "CLOSE" then "Closed"
    else if word == "OPEN" then "Open"
    else if word == "SETPOINT" then "Setpoint"
    else word
  }

  /** The device word for a mode option. */
  function ModeWord(mode: string): string
    requires mode in ModeOptions
  {
    ModeWords[ListIndex(ModeOptions, mode).value]
  }

  /** Mode options and device words correspond one to one: the word sent
      for an option reads back as that option, and an option read from a
      device word is sent as that word. */
  lemma ModeWordsRoundTrip(mode: string, word: string)
    ensures mode in ModeOptions ==> ModeWord(mode) in ModeWords && ModeName(ModeWord(mode)) == mode
    ensures word in ModeWords ==> ModeName(word) in ModeOptions && ModeWord(ModeName(word)) == word
  {
    if mode in ModeOptions {
      var k := ListIndex(ModeOptions, mode).value;
      assert k == 0 || k == 1 || k == 2;
    }
  }

  /** A number reply: the text `float()` must accept, shown through
      `show(t)`, which stands for `"{:.1f}".format(max(0, float(t)))`. */
  function NumberField(show: string -> string, text: Option<string>): (r: Option<string>)
    ensures r.Some? <==> text.Some? && IsPyFloat(text.value)
    ensures r.Some? ==> r.value == show(text.value)
  {
    if text.Some? && IsPyFloat(text.value) then Some(show(text.value)) else None
  }

  /** The flow reply additionally drops every `>`. */
  function FlowText(text: Option<string>): (r: Option<string>)
    ensures r.Some? <==> text.Some?
    ensures r.Some? ==> '>' !in r.value && r.value == RemoveChar(text.value, '>')
  {
    if text.Some? then Some(RemoveChar(text.value, '>')) else None
  }

  /** The four readouts from the replies, in query order; `None` when a
      reply is missing, has no `ACK`, or holds a number `float()` rejects. */
  function ParseReplies(show: string -> string, tokens: seq<string>): (r: Option<MksReadouts>)
    ensures r.Some? <==>
              && |tokens| >= ReplyCount
              && NumberField(show, AfterAck(tokens[0])).Some?
              && AfterAck(tokens[1]).Some?
              && NumberField(show, AfterAck(tokens[2])).Some?
              && NumberField(show, FlowText(AfterAck(tokens[3]))).Some?
    ensures r.Some? ==> r.value.mode == ModeName(AfterAck(tokens[1]).value)
    ensures r.Some? ==> r.value.scaleFactor == show(AfterAck(tokens[0]).value)
    ensures r.Some? ==> r.value.setpoint == show(AfterAck(tokens[2]).value)
    ensures r.Some? ==> r.value.flow == show(RemoveChar(AfterAck(tokens[3]).value, '>'))
  {
    if |tokens| < ReplyCount then None
    else
      var sf := NumberField(show, AfterAck(tokens[0]));
      var mode := AfterAck(tokens[1]);
      var sp := NumberField(show, AfterAck(tokens[2]));
      var flow := NumberField(show, FlowText(AfterAck(tokens[3])));
      if sf.Some? && mode.Some? && sp.Some? && flow.Some? then
        Some(MksReadouts(sf.value, ModeName(mode.value), sp.value, flow.value))
      else None
  }

  const ReadFailed: string :=
    "Failed to read from MKS MFC; likely an MFC that this shares a serial line with failed to connect."

  const BadReply: string := "Bad response in MKS MFC, in one of: "

  /** `repr` of each reply, as `str(list)` of strings shows them. */
  function StrReprAll(items: seq<string>): (r: seq<string>)
    ensures |r| == |items|
    ensures forall k :: 0 <= k < |items| ==> r[k] == StrRepr(items[k])
  {
    if |items| == 0 then [] else [StrRepr(items[0])] + StrReprAll(items[1..])
  }

  datatype MksRead = MksRead(shown: MksReadouts, result: ReadValue)

  /** `on_serial_read` on the bytes waiting on the line: a decode failure
      and a bad reply both show "Read Error" in the four readouts, with
      different messages; the second quotes the replies read. */
  function OnSerialRead(show: string -> string, stream: string): (r: MksRead)
    ensures ReadReplies(stream, ReplyCount).None? ==>
              r == MksRead(AllReadouts(ReadError), ReadMessage(ReadFailed))
    ensures r.result == ReadTrue <==>
              ReadReplies(stream, ReplyCount).Some? &&
              ParseReplies(show, ReadReplies(stream, ReplyCount).value.tokens).Some?
    ensures r.result == ReadTrue ==>
              r.shown == ParseReplies(show, ReadReplies(stream, ReplyCount).value.tokens).value
    ensures ReadReplies(stream, ReplyCount).Some? && r.result != ReadTrue ==>
              var ts := ReadReplies(stream, ReplyCount).value.tokens;
              r == MksRead(AllReadouts(ReadError), ReadMessage(BadReply + ListRepr(StrReprAll(ts))))
  {
    match ReadReplies(stream, ReplyCount)
    case None => MksRead(AllReadouts(ReadError), ReadMessage(ReadFailed))
    case Some(replies) =>
      match ParseReplies(show, replies.tokens)
      case None => MksRead(AllReadouts(ReadError), ReadMessage(BadReply + ListRepr(StrReprAll(replies.tokens))))
      case Some(shown) => MksRead(shown, ReadTrue)
  }

  /** A line that stays silent for a whole cycle reads as a bad reply
      quoting an empty list. */
  lemma SilentLineIsBadReply(show: string -> string)
    ensures OnSerialRead(show, "") == MksRead(AllReadouts(ReadError), ReadMessage(BadReply + "[]"))
  {
    SilentLineReadsNothing();
  }

  // ---------------------------------------------------------------------
  // A reply as the device sends it: `@<id>ACK<answer>;FF`. The trailing
  // `FF` is read as the start of the next reply.

  /** No `FF` occurs in text without an `F`. */
  lemma NoDoubleF(s: string)
    requires 'F' !in s
    ensures forall j :: !OccursAt(s, "FF", j)
  {
    forall j ensures !OccursAt(s, "FF", j) {
      if 0 <= j && j + 2 <= |s| {
        assert s[j..j + 2][0] == s[j] && s[j] in s;
      }
    }
  }

  /** Dropping `FF` from a reply led by at most one `FF`. */
  lemma DropLeadingFF(ff: string, body: string)
    requires ff == "" || ff == "FF"
    requires 'F' !in body
    ensures RemoveAll(ff + body, "FF") == body
  {
    NoDoubleF(body);
    if ff == "FF" {
      var s := ff + body;
      assert s[..2] == "FF" && s[2..] == body;
    }
  }

  /** The first `ACK` of `@<id>ACK<answer>` follows the id. */
  lemma AckAfterId(id: string, a: string, c: string)
    requires 'A' !in id && c == "@" + id + "ACK" + a
    ensures Find(c, "ACK") == Some(|id| + 1)
    ensures c[|id| + 4..] == a
  {
    var i := |id| + 1;
    assert c[i..i + 3] == "ACK";
    assert OccursAt(c, "ACK", i);
    forall j | 0 <= j < i ensures !OccursAt(c, "ACK", j) {
      if j > 0 {
        assert c[j] == id[j - 1] && id[j - 1] in id;
      }
      assert c[j] != 'A';
      assert c[j..j + 3][0] == c[j];
    }
  }

  /** A reply, with or without the `FF` left over from the one before, is
      read as its answer. */
  lemma AckReplyRead(ff: string, id: string, a: string, token: string)
    requires ff == "" || ff == "FF"
    requires 'A' !in id && 'F' !in id && 'F' !in a
    requires token == ff + ("@" + id + "ACK" + a)
    ensures AfterAck(token) == Some(a)
  {
    var c := "@" + id + "ACK" + a;
    assert 'F' !in c by {
      assert forall k :: 0 <= k < |c| ==> c[k] != 'F' by {
        forall k | 0 <= k < |c| ensures c[k] != 'F' {
          if 1 <= k < |id| + 1 {
            assert c[k] == id[k - 1];
          } else if k >= |id| + 4 {
            assert c[k] == a[k - |id| - 4];
          }
        }
      }
    }
    DropLeadingFF(ff, c);
    AckAfterId(id, a, c);
  }

  /** Four replies each carrying an answer after `ACK` show those
      answers: the numbers through `show`, the mode through `ModeName`. */
  lemma RepliesParsed(show: string -> string, ts: seq<string>, a0: string, a1: string, a2: string, a3: string)
    requires |ts| == ReplyCount
    requires AfterAck(ts[0]) == Some(a0) && AfterAck(ts[1]) == Some(a1)
    requires AfterAck(ts[2]) == Some(a2) && AfterAck(ts[3]) == Some(a3)
    requires IsPyFloat(a0) && IsPyFloat(a2) && IsPyFloat(RemoveChar(a3, '>'))
    ensures ParseReplies(show, ts) == Some(MksReadouts(show(a0), ModeName(a1), show(a2), show(RemoveChar(a3, '>'))))
  {
  }

  // ---------------------------------------------------------------------
  // Confirm

  /** A command setting `code` to `value` on the widget's channel. */
  function SetCommand(c: Config, code: string, value: string): string {
    "@" + c.deviceId + code + c.whichChannel + "!" + value + ";FF\r"
  }

  /** `on_confirm`, queueing each command with a 100 ms delay. `fmt2(t)`
      stands for `'{0:.2f}'.format(float(t))` and `sci(t)` for
      `'{:.2e}'.format(float(t))`. A scale factor `float()` rejects, or a
      command that does not encode as ASCII, sends nothing; an unknown
      mode stops after the scale factor; a rejected setpoint stops after
      the mode. */
  function OnConfirm(c: Config, fmt2: string -> string, sci: string -> string,
                     scaleEntry: string, mode: string, setpointEntry: string): (r: seq<Send>)
    ensures |r| == 0 <==> !IsPyFloat(scaleEntry) || !IsAscii(SetCommand(c, "QSF", fmt2(scaleEntry)))
    ensures |r| > 0 ==> r[0] == Send(SetCommand(c, "QSF", fmt2(scaleEntry)), 100)
    ensures |r| > 0 ==> r[1..] == ModeThenSetpoint(c, fmt2(scaleEntry), sci, mode, setpointEntry)
  {
    var sfCmd := SetCommand(c, "QSF", fmt2(scaleEntry));
    if !IsPyFloat(scaleEntry) || !IsAscii(sfCmd) then []
    else [Send(sfCmd, 100)] + ModeThenSetpoint(c, fmt2(scaleEntry), sci, mode, setpointEntry)
  }

  /** The rest of `on_confirm` once the scale factor command is queued: the
      mode command for a known mode, then the setpoint command when the
      setpoint is a number and its command encodes. */
  function ModeThenSetpoint(c: Config, sf: string, sci: string -> string,
                            mode: string, setpointEntry: string): (r: seq<Send>)
    requires IsAscii(SetCommand(c, "QSF", sf))
    ensures forall k :: 0 <= k < |r| ==> r[k].delayMs == 100
    ensures |r| <= 2
    ensures |r| >= 1 <==> mode in ModeOptions
    ensures |r| >= 1 ==> r[0].text == SetCommand(c, "QMD", ModeWord(mode)) && IsAscii(r[0].text)
    ensures |r| == 2 <==> |r| >= 1 && IsPyFloat(setpointEntry) && IsAscii(SetCommand(c, "QSP", sci(setpointEntry)))
    ensures |r| == 2 ==> r[1].text == SetCommand(c, "QSP", sci(setpointEntry))
  {
    if mode !in ModeOptions then []
    else
      var modeCmd := SetCommand(c, "QMD", ModeWord(mode));
      ModeCommandAscii(c, sf, ModeWord(mode));
      var spCmd := SetCommand(c, "QSP", sci(setpointEntry));
      if !IsPyFloat(setpointEntry) || !IsAscii(spCmd) then [Send(modeCmd, 100)]
      else [Send(modeCmd, 100), Send(spCmd, 100)]
  }

  /** Once the scale factor command encodes, the mode command does too:
      they differ only in the code and an upper-case word. */
  lemma ModeCommandAscii(c: Config, sf: string, word: string)
    requires IsAscii(SetCommand(c, "QSF", sf)) && word in ModeWords
    ensures IsAscii(SetCommand(c, "QMD", word))
  {
    var a := SetCommand(c, "QSF", sf);
    var n := |c.deviceId|;
    assert forall k :: 0 <= k < n ==> c.deviceId[k] == a[k + 1];
    assert forall k :: 0 <= k < |c.whichChannel| ==> c.whichChannel[k] == a[n + 4 + k];
    assert IsAscii(word);
  }
}

/** `MksMFCSerialEmulator`: answers a write by its key `value[4:7]`; the
    four keys it knows get fixed replies (the flow drawn from 80 to 84
    sccm), any other write gets a nonsense reply. `read(1)` takes the next
    byte of the buffer, so `on_serial_read` sees the buffer as its input. */
module MksMfcEmulator {
  import opened Outcomes
  import opened PyText
  import opened MksMfc

  /** The keys the emulator answers, in its own order. */
  const Queries: seq<string> := ["QMD", "FR1", "QSP", "QSF"]

  const FlowKeys: seq<string> := ["FR1", "FR2", "FR3", "FR4", "FR5", "FR6"]

  /** `value[4:7]`, with the flow query of every channel read as `FR1`. */
  function Key(value: string): (r: string)
    ensures Slice(value, 4, 7) in FlowKeys ==> r == "FR1"
    ensures Slice(value, 4, 7) !in FlowKeys ==> r == Slice(value, 4, 7)
  {
    var k := Slice(value, 4, 7);
    if k in FlowKeys then "FR1" else k
  }

  /** The emulator always answers as box `001`. */
  const ReplyHead: string := "@001ACK"

  const Nonsense: string := "@001ACKA1whatever;FF"

  /** Each draw of `randint(0, 5)` lies in 0..4. */
  predicate Draws(ds: seq<nat>) { forall k :: 0 <= k < |ds| ==> ds[k] < 5 }

  /** `str(8.0 + 0.1 * draw)`: `8.0` to `8.4`. */
  function FlowReading(draw: nat): (r: string)
    requires draw < 5
    ensures |r| == 3 && r[..2] == "8." && r[2] == DigitChar(draw)
  {
    "8." + [DigitChar(draw)]
  }

  /** The text after `ACK` in the reply to key `Queries[k]`. */
  function Answer(k: nat, draw: nat): string
    requires k < |Queries| && draw < 5
  {
    if k == 0 then "SETPOINT"
    else if k == 1 then FlowReading(draw) + "e+1"
    else if k == 2 then "1.3e+2"
    else "2.10"
  }

  /** `write(value)`: the reply for the key, appended to the buffer. */
  function Write(buffer: string, value: string, draw: nat): (r: string)
    requires draw < 5
    ensures Key(value) !in Queries ==> r == buffer + Nonsense
    ensures Key(value) in Queries ==>
              r == buffer + ReplyHead + Answer(ListIndex(Queries, Key(value)).value, draw) + ";FF"
  {
    match ListIndex(Queries, Key(value))
    case None => buffer + Nonsense
    case Some(k) => buffer + ReplyHead + Answer(k, draw) + ";FF"
  }

  /** The buffer after `writes`, in order, with one draw each. */
  function AfterWrites(buffer: string, writes: seq<string>, draws: seq<nat>): string
    requires |draws| == |writes| && Draws(draws)
    decreases |writes|
  {
    if |writes| == 0 then buffer
    else
      var n := |writes| - 1;
      Write(AfterWrites(buffer, writes[..n], draws[..n]), writes[n], draws[n])
  }

  /** The buffer after a query cycle: a widget with its own line resets the
      buffer first, a widget borrowing the line writes onto what is left. */
  function Queried(c: Config, left: string, draws: seq<nat>): string
    requires |draws| == ReplyCount && Draws(draws)
  {
    var q := OnSerialQuery(c);
    AfterWrites(if q.resetFirst then "" else left, q.writes, draws[..|q.writes|])
  }

  lemma ValidAddress(c: Config)
    requires ValidConfig(c) && IsAscii(c.deviceId)
    ensures AsciiAddress(c)
  {
  }

  /** A device id that is not ASCII writes nothing: the buffer is only
      reset, or left as the borrowed line had it. */
  lemma NonAsciiIdQueriesNothing(c: Config, left: string, draws: seq<nat>)
    requires !IsAscii(c.deviceId)
    requires |draws| == ReplyCount && Draws(draws)
    ensures Queried(c, left, draws) == (if c.shared then left else "")
  {
  }

  /** The key of anything addressed `@<id><code>` with a three-character id
      and a three-character code is that code. */
  lemma AddressedKey(id: string, code: string, tail: string, value: string)
    requires |id| == 3 && |code| == 3 && value == "@" + id + code + tail
    ensures Slice(value, 4, 7) == code
  {
    assert value[4..7] == code;
  }

  /** With a three-character box id the four queries have the keys
      `QSF`, `QMD`, `QSP` and `FR1`. */
  lemma QueryKeys(c: Config)
    requires ValidConfig(c) && |c.deviceId| == 3
    ensures Key(QueryCommand(c, "QSF")) == "QSF"
    ensures Key(QueryCommand(c, "QMD")) == "QMD"
    ensures Key(QueryCommand(c, "QSP")) == "QSP"
    ensures Key(QueryCommand(c, "FR")) == "FR1"
  {
    var t := c.whichChannel + "?;FF\r";
    AddressedKey(c.deviceId, "QSF", t, QueryCommand(c, "QSF"));
    AddressedKey(c.deviceId, "QMD", t, QueryCommand(c, "QMD"));
    AddressedKey(c.deviceId, "QSP", t, QueryCommand(c, "QSP"));
    var k :| 0 <= k < 6 && ChannelDigits[k] == c.whichChannel;
    var fr := "FR" + c.whichChannel;
    AddressedKey(c.deviceId, fr, "?;FF\r", QueryCommand(c, "FR"));
    assert fr == FlowKeys[k];
  }

  /** The emulator cannot tell a command from a query: with a
      three-character box id, a confirm command gets the reply its query
      would. */
  lemma CommandAnsweredAsQuery(c: Config, code: string, value: string, buffer: string, draw: nat)
    requires |c.deviceId| == 3 && draw < 5
    requires code == "QSF" || code == "QMD" || code == "QSP"
    ensures Write(buffer, SetCommand(c, code, value), draw) == Write(buffer, QueryCommand(c, code), draw)
  {
    AddressedKey(c.deviceId, code, c.whichChannel + "!" + value + ";FF\r", SetCommand(c, code, value));
    AddressedKey(c.deviceId, code, c.whichChannel + "?;FF\r", QueryCommand(c, code));
  }

  /** The buffer a query cycle leaves: the four replies in query order. */
  lemma QueriedBuffer(c: Config, left: string, draws: seq<nat>)
    requires ValidConfig(c) && |c.deviceId| == 3 && IsAscii(c.deviceId)
    requires |draws| == ReplyCount && Draws(draws)
    ensures Queried(c, left, draws) ==
              (if c.shared then left else "") + Responses(ReplyHead, CycleAnswers(draws[3]))
  {
    ValidAddress(c);
    var w := OnSerialQuery(c).writes;
    assert draws[..|w|] == draws;
    CycleAnswered(c, draws);
    WritesAnswered(if c.shared then left else "", w, draws, CycleAnswers(draws[3]));
  }

  /** Each write of a query cycle is a query the emulator knows, answered
      with the cycle's reply at the same position. */
  lemma CycleAnswered(c: Config, draws: seq<nat>)
    requires ValidConfig(c) && |c.deviceId| == 3 && AsciiAddress(c)
    requires |draws| == ReplyCount && Draws(draws)
    ensures var w := OnSerialQuery(c).writes;
      && |w| == ReplyCount
      && forall k :: 0 <= k < |w| ==>
           Key(w[k]) in Queries && CycleAnswers(draws[3])[k] == Answer(ListIndex(Queries, Key(w[k])).value, draws[k])
  {
    QueryKeys(c);
    QueryWrites(c);
    QueryOrder();
  }

  /** An ASCII address is queried for QSF, QMD, QSP and FR, in that order. */
  lemma QueryWrites(c: Config)
    requires AsciiAddress(c)
    ensures OnSerialQuery(c).writes ==
              [QueryCommand(c, "QSF"), QueryCommand(c, "QMD"), QueryCommand(c, "QSP"), QueryCommand(c, "FR")]
  {
  }

  /** Where each query's reply sits in the emulator's reply list. */
  lemma QueryOrder()
    ensures ListIndex(Queries, "QSF") == Some(3)
    ensures ListIndex(Queries, "QMD") == Some(0)
    ensures ListIndex(Queries, "QSP") == Some(2)
    ensures ListIndex(Queries, "FR1") == Some(1)
  {
  }

  /** What a query cycle is answered, in query order: scale factor, mode,
      setpoint, flow. */
  function CycleAnswers(draw: nat): (r: seq<string>)
    requires draw < 5
    ensures |r| == ReplyCount
  {
    ["2.10", "SETPOINT", "1.3e+2", Answer(1, draw)]
  }

  /** The replies `<h><a>;FF` for `answers`, in order. */
  function Responses(h: string, answers: seq<string>): string
    decreases |answers|
  {
    if |answers| == 0 then ""
    else Responses(h, answers[..|answers| - 1]) + (h + answers[|answers| - 1] + ";FF")
  }

  /** Writes the emulator knows append their replies in order. */
  lemma {:induction false} WritesAnswered(buffer: string, writes: seq<string>, draws: seq<nat>, answers: seq<string>)
    requires |draws| == |writes| == |answers| && Draws(draws)
    requires forall k :: 0 <= k < |writes| ==>
               Key(writes[k]) in Queries && answers[k] == Answer(ListIndex(Queries, Key(writes[k])).value, draws[k])
    ensures AfterWrites(buffer, writes, draws) == buffer + Responses(ReplyHead, answers)
    decreases |writes|
  {
    if |writes| == 0 {
      assert buffer + "" == buffer;
    } else {
      var n := |writes| - 1;
      var w, d, a := writes[..n], draws[..n], answers[..n];
      KnownPrefix(writes, draws, answers);
      calc {
        AfterWrites(buffer, writes, draws);
        Write(AfterWrites(buffer, w, d), writes[n], draws[n]);
        { WritesAnswered(buffer, w, d, a); }
        Write(buffer + Responses(ReplyHead, a), writes[n], draws[n]);
        { WriteStep(buffer, Responses(ReplyHead, a), writes[n], draws[n], answers[n]); }
        buffer + (Responses(ReplyHead, a) + (ReplyHead + answers[n] + ";FF"));
        { ResponsesLast(ReplyHead, answers); }
        buffer + Responses(ReplyHead, answers);
      }
    }
  }

  lemma ResponsesLast(h: string, answers: seq<string>)
    requires |answers| > 0
    ensures Responses(h, answers) ==
              Responses(h, answers[..|answers| - 1]) + (h + answers[|answers| - 1] + ";FF")
  {
  }

  /** All but the last of a run of known writes are a run of known writes. */
  lemma KnownPrefix(writes: seq<string>, draws: seq<nat>, answers: seq<string>)
    requires |draws| == |writes| == |answers| > 0 && Draws(draws)
    requires forall k :: 0 <= k < |writes| ==>
               Key(writes[k]) in Queries && answers[k] == Answer(ListIndex(Queries, Key(writes[k])).value, draws[k])
    ensures var n := |writes| - 1; Draws(draws[..n]) && forall k :: 0 <= k < n ==>
              Key(writes[..n][k]) in Queries
              && answers[..n][k] == Answer(ListIndex(Queries, Key(writes[..n][k])).value, draws[..n][k])
  {
    var n := |writes| - 1;
    assert forall k :: 0 <= k < n ==> draws[..n][k] == draws[k] && writes[..n][k] == writes[k] && answers[..n][k] == answers[k];
  }

  /** A known write appends its reply after the replies before it. */
  lemma WriteStep(buffer: string, r: string, value: string, draw: nat, answer: string)
    requires draw < 5 && Key(value) in Queries
    requires answer == Answer(ListIndex(Queries, Key(value)).value, draw)
    ensures Write(buffer + r, value, draw) == buffer + (r + (ReplyHead + answer + ";FF"))
  {
    AppendReply(buffer, r, ReplyHead, answer);
  }

  lemma AppendReply(buffer: string, r: string, h: string, a: string)
    ensures buffer + r + h + a + ";FF" == buffer + (r + (h + a + ";FF"))
  {
  }

  /** The first reply comes first. */
  lemma {:induction false} ResponsesFront(h: string, answers: seq<string>)
    requires |answers| > 0
    ensures Responses(h, answers) == (h + answers[0] + ";FF") + Responses(h, answers[1..])
    decreases |answers|
  {
    var n := |answers| - 1;
    var last := h + answers[n] + ";FF";
    if n == 0 {
      assert answers[..0] == [] && answers[1..] == [];
      assert "" + last == last + "";
    } else {
      var init := answers[..n];
      ResponsesFront(h, init);
      assert init[0] == answers[0];
      assert init[1..] == answers[1..][..n - 1];
      assert answers[1..][n - 1] == answers[n];
      var x0 := h + answers[0] + ";FF";
      assert x0 + Responses(h, init[1..]) + last == x0 + (Responses(h, init[1..]) + last);
    }
  }

  /** One reply `<h><a>;FF` read from the line: the reply ends at the `;`
      and its `FF` starts the next. */
  lemma ReplyStep(l: string, h: string, a: string, tail: string, stream: string, n: nat)
    requires n > 0 && WellFormedToken(l + h + a)
    requires stream == l + (h + a + ";FF") + tail
    ensures ReadReplies(stream, n) == Prefix([l + h + a], ReadReplies("FF" + tail, n - 1))
  {
    assert stream == (l + h + a) + ";" + ("FF" + tail);
    TokenReadsBack(l + h + a, "FF" + tail, TokenReads);
    PassToken(stream, n, l + h + a, "FF" + tail);
  }

  /** The tokens `on_serial_read` cuts those replies into, after `l`:
      every reply after the first starts with the `FF` that ended the one
      before. */
  function ReplyTokens(l: string, h: string, answers: seq<string>): (r: seq<string>)
    decreases |answers|
    ensures |r| == |answers|
  {
    if |answers| == 0 then [] else [l + h + answers[0]] + ReplyTokens("FF", h, answers[1..])
  }

  /** Replies read back answers their tokens; the `FF` of the last reply stays
      unread. */
  lemma {:induction false} SplitReplies(l: string, h: string, answers: seq<string>)
    requires forall k :: 0 <= k < |answers| ==> WellFormedToken(ReplyTokens(l, h, answers)[k])
    ensures ReadReplies(l + Responses(h, answers), |answers|) ==
              Some(Replies(ReplyTokens(l, h, answers), if |answers| == 0 then l else "FF"))
    decreases |answers|
  {
    if |answers| == 0 {
      assert l + Responses(h, answers) == l;
    } else {
      var tail := Responses(h, answers[1..]);
      var ts := ReplyTokens(l, h, answers);
      assert ts[0] == l + h + answers[0];
      ResponsesFront(h, answers);
      assert l + Responses(h, answers) == l + (h + answers[0] + ";FF") + tail;
      ReplyStep(l, h, answers[0], tail, l + Responses(h, answers), |answers|);
      assert forall k :: 0 <= k < |answers| - 1 ==> ReplyTokens("FF", h, answers[1..])[k] == ts[k + 1];
      SplitReplies("FF", h, answers[1..]);
    }
  }

  /** A reply led by at most one `FF` is a well-formed token when its
      answer is short ASCII text without `;`. */
  lemma ReplyToken(ff: string, a: string, t: string)
    requires ff == "" || ff == "FF"
    requires ';' !in a && IsAscii(a) && |a| <= 8
    requires t == ff + ReplyHead + a
    ensures WellFormedToken(t)
  {
    assert forall k :: 0 <= k < |t| ==> t[k] == ';' ==> k >= |ff| + 7 && t[k] == a[k - |ff| - 7];
    assert forall k :: 0 <= k < |t| && k >= |ff| + 7 ==> t[k] == a[k - |ff| - 7];
  }

  /** The emulator's answers are short plain text. */
  lemma AnswerText(k: nat, draw: nat)
    requires k < |Queries| && draw < 5
    ensures ';' !in Answer(k, draw) && 'F' !in Answer(k, draw) && '>' !in Answer(k, draw)
    ensures IsAscii(Answer(k, draw)) && |Answer(k, draw)| <= 8
  {
    var a := Answer(k, draw);
    if k == 1 {
      var r := FlowReading(draw);
      assert a == r + "e+1";
      assert forall i :: 0 <= i < |r| ==> r[i] == '8' || r[i] == '.' || IsDigit(r[i]);
    }
    assert forall i :: 0 <= i < |a| ==> a[i] != ';' && a[i] != 'F' && a[i] != '>' && (a[i] as int) < 128;
  }

  lemma {:induction false} ReplyTokensAt(l: string, h: string, answers: seq<string>, k: nat)
    requires k < |answers|
    ensures ReplyTokens(l, h, answers)[k] == (if k == 0 then l else "FF") + h + answers[k]
    decreases k
  {
    if k > 0 {
      ReplyTokensAt("FF", h, answers[1..], k - 1);
    }
  }

  /** Each token of a query cycle is well formed and reads as its answer. */
  lemma CycleToken(l: string, draw: nat, k: nat)
    requires (l == "" || l == "FF") && draw < 5 && k < ReplyCount
    ensures var t := ReplyTokens(l, ReplyHead, CycleAnswers(draw))[k];
      WellFormedToken(t) && AfterAck(t) == Some(CycleAnswers(draw)[k])
  {
    var answers := CycleAnswers(draw);
    ReplyTokensAt(l, ReplyHead, answers, k);
    var ff := if k == 0 then l else "FF";
    var a := answers[k];
    var t := ff + ReplyHead + a;
    var q := if k == 0 then 3 else if k == 1 then 0 else if k == 2 then 2 else 1;
    assert a == Answer(q, draw);
    AnswerText(q, draw);
    ReplyToken(ff, a, t);
    assert ReplyHead == "@" + "001" + "ACK";
    assert 'A' !in "001" && 'F' !in "001";
    AckReplyRead(ff, "001", a, t);
  }

  /** The answers of a query cycle parse: the scale factor and setpoint
      are plain and scientific numbers, the flow `8.<draw>e+1`. */
  lemma ScaleFactorNumber()
    ensures IsPyFloat("2.10")
  {
    PointIsFloat("2", "10", "2.10");
  }

  lemma SetpointNumber()
    ensures IsPyFloat("1.3e+2")
  {
    ScientificIsFloat("1", "3", "2", "1.3e+2");
  }

  lemma FlowNumber(draw: nat)
    requires draw < 5
    ensures IsPyFloat(RemoveChar(Answer(1, draw), '>')) && RemoveChar(Answer(1, draw), '>') == Answer(1, draw)
  {
    var f := Answer(1, draw);
    AnswerText(1, draw);
    FlowText(draw, f);
    ScientificIsFloat("8", [DigitChar(draw)], "1", f);
  }

  lemma FlowText(draw: nat, f: string)
    requires draw < 5 && f == Answer(1, draw)
    ensures f == "8" + "." + [DigitChar(draw)] + "e+" + "1"
  {
  }

  /** The readouts a query cycle shows. */
  lemma CycleParsed(show: string -> string, l: string, draw: nat)
    requires (l == "" || l == "FF") && draw < 5
    ensures ParseReplies(show, ReplyTokens(l, ReplyHead, CycleAnswers(draw))) ==
              Some(MksReadouts(show("2.10"), "Setpoint", show("1.3e+2"), show(Answer(1, draw))))
  {
    var ts := ReplyTokens(l, ReplyHead, CycleAnswers(draw));
    var flow := Answer(1, draw);
    assert CycleAnswers(draw) == ["2.10", "SETPOINT", "1.3e+2", flow];
    CycleToken(l, draw, 0);
    CycleToken(l, draw, 1);
    CycleToken(l, draw, 2);
    CycleToken(l, draw, 3);
    ScaleFactorNumber();
    SetpointNumber();
    FlowNumber(draw);
    RepliesParsed(show, ts, "2.10", "SETPOINT", "1.3e+2", flow);
    assert ModeName("SETPOINT") == "Setpoint";
  }

  /** Offline, a query cycle followed by a read shows the emulator's scale
      factor 2.10, mode Setpoint, setpoint 130 and a flow of 80 to 84, and
      leaves `FF` unread, whether the widget has its own line or borrows one
      that an earlier cycle left in that state. */
  lemma EmulatorRoundTrip(show: string -> string, c: Config, left: string, draws: seq<nat>)
    requires ValidConfig(c) && |c.deviceId| == 3 && IsAscii(c.deviceId)
    requires left == "" || left == "FF"
    requires |draws| == ReplyCount && Draws(draws)
    ensures var stream := Queried(c, left, draws);
      && OnSerialRead(show, stream) ==
           MksRead(MksReadouts(show("2.10"), "Setpoint", show("1.3e+2"), show(FlowReading(draws[3]) + "e+1")), ReadTrue)
      && ReadReplies(stream, ReplyCount).value.rest == "FF"
  {
    var l := if c.shared then left else "";
    var answers := CycleAnswers(draws[3]);
    QueriedBuffer(c, left, draws);
    forall k | 0 <= k < |answers|
      ensures WellFormedToken(ReplyTokens(l, ReplyHead, answers)[k])
    {
      CycleToken(l, draws[3], k);
    }
    SplitReplies(l, ReplyHead, answers);
    CycleParsed(show, l, draws[3]);
  }

  /** Offline, a query cycle and a read make the handshake succeed, and
      opening then copies the device's setpoint and mode, and its scale
      factor unless forced, into the entries. */
  lemma OfflineOpenCopiesReadouts(show: string -> string, c: Config, left: string, draws: seq<nat>, entries: MksEntries)
    requires ValidConfig(c) && |c.deviceId| == 3 && IsAscii(c.deviceId)
    requires left == "" || left == "FF"
    requires |draws| == ReplyCount && Draws(draws)
    ensures var read := OnSerialRead(show, Queried(c, left, draws));
      var after := OnSerialOpen(Some(read.result), c, MksFields(entries, read.shown));
      && after.readouts == read.shown
      && after.entries.setpoint == show("1.3e+2")
      && after.entries.mode == "Setpoint"
      && after.entries.scaleFactor == (if ScaleEntryLocked(c) then entries.scaleFactor else show("2.10"))
  {
    EmulatorRoundTrip(show, c, left, draws);
  }
}
