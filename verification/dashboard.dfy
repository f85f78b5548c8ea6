/** The dashboard's widget registry (`RichardViewDashboard`): every added
    widget in call order, the names list, and the nickname map through
    which scripts and interlocks reach a widget's fields. */
module Dashboard {
  import opened Outcomes
  import opened PyMath
  import opened GenericWidget

  /** An added widget: a `GenericWidget` subclass, or a `MinimalWidget`,
      which has no name, nickname, fields or update counter. Both carry the
      `failure_flag` the serial control widget attaches (`None` until the
      first polling cycle sets it). */
  datatype Entry = Device(w: Widget, failureFlag: Option<bool>) | Minimal(failureFlag: Option<bool>)

  datatype Dash = Dash(
    /** `all_widgets`, in `add_widget` call order. */
    widgets: seq<Entry>,
    /** `all_widget_names`, duplicates included. */
    names: seq<string>,
    /** `widgets_by_nickname`, as positions in `widgets`. */
    byNickname: map<string, nat>,
    /** For a widget built with `widget_to_share_serial_with`, the position
        of that partner, which was built (and added) before it. */
    partner: map<nat, nat>,
    serialConnected: bool,
    /** The serial control widget's `serial_polling_wait`, in ms. */
    pollingWait: int
  )
  {
    ghost predicate WellFormed() {
      && (forall i :: 0 <= i < |widgets| && widgets[i].Device? ==> widgets[i].w.WellFormed())
      && (forall k :: k in byNickname ==> byNickname[k] < |widgets| && widgets[byNickname[k]].Device?)
      && (forall i :: i in partner ==> i < |widgets| && partner[i] < i && widgets[partner[i]].Device?)
    }

    /** The widget a nickname resolves to; `KeyError` (here `None`) for an
        unknown one. */
    function GetWidgetByNickname(nick: string): (r: Option<nat>)
      requires WellFormed()
      ensures r.Some? <==> nick in byNickname
      ensures r.Some? ==> r.value < |widgets| && widgets[r.value].Device?
    {
      if nick in byNickname then Some(byNickname[nick]) else None
    }

    /** The widget a registered nickname reaches. */
    function Named(nick: string): (w: Widget)
      requires WellFormed() && nick in byNickname
      ensures w.WellFormed()
    {
      var i := byNickname[nick];
      widgets[i].w
    }

    /** `get_field`: unknown nickname or field raise `KeyError`. */
    function GetField(nick: string, field: string): (r: Option<string>)
      requires WellFormed()
      ensures r.Some? <==> nick in byNickname && field in Named(nick).attributes
      ensures r.Some? ==> r == Named(nick).GetField(field)
    {
      match GetWidgetByNickname(nick)
      case None => None
      case Some(i) => widgets[i].w.GetField(field)
    }
  }

  /** A fresh dashboard: no widgets, serial communication off. */
  function NewDash(pollingWait: int): (d: Dash)
    ensures d.WellFormed() && d.widgets == [] && !d.serialConnected
  {
    Dash([], [], map[], map[], false, pollingWait)
  }

  /** `add_widget`: append to `all_widgets`; a widget with a name and
      nickname also appends its name (duplicates too) and takes over its
      nickname in the map. `partnerAt` is the position of the widget it
      shares its serial connection with, if any. */
  function AddWidget(d: Dash, e: Entry, partnerAt: Option<nat>): (r: Dash)
    requires d.WellFormed()
    requires e.Device? ==> e.w.WellFormed()
    requires partnerAt.Some? ==> partnerAt.value < |d.widgets| && d.widgets[partnerAt.value].Device?
    ensures r.WellFormed()
    ensures r.widgets == d.widgets + [e]
    ensures r.names == if e.Device? then d.names + [e.w.name] else d.names
    ensures e.Device? ==> r.byNickname == d.byNickname[e.w.nickname := |d.widgets|]
    ensures e.Minimal? ==> r.byNickname == d.byNickname
    ensures r.serialConnected == d.serialConnected && r.pollingWait == d.pollingWait
  {
    var i := |d.widgets|;
    var partner := if partnerAt.Some? then d.partner[i := partnerAt.value] else d.partner;
    match e
    case Minimal(_) => d.(widgets := d.widgets + [e], partner := partner)
    case Device(w, _) =>
      d.(widgets := d.widgets + [e], names := d.names + [w.name],
         byNickname := d.byNickname[w.nickname := i], partner := partner)
  }

  /** Two widgets added with one nickname: the later one is the one that
      the nickname reaches, while the earlier stays in `all_widgets`. */
  lemma LaterNicknameWins(d: Dash, e1: Entry, e2: Entry)
    requires d.WellFormed()
    requires e1.Device? && e2.Device? && e1.w.WellFormed() && e2.w.WellFormed()
    requires e1.w.nickname == e2.w.nickname
    ensures var r := AddWidget(AddWidget(d, e1, None), e2, None);
      && r.GetWidgetByNickname(e1.w.nickname) == Some(|d.widgets| + 1)
      && r.widgets[|d.widgets|] == e1
      && r.names == d.names + [e1.w.name, e2.w.name]
  {
  }

  /** `set_field` with `confirm`: set the field through the nickname map,
      then press the widget's confirm. `confirmed` tells whether that
      reached `on_confirm`. */
  datatype SetOutcome = SetOutcome(d: Dash, confirmed: bool)

  /** Replace the widget at position `i`. */
  function PutWidget(d: Dash, i: nat, w: Widget): (r: Dash)
    requires d.WellFormed() && i < |d.widgets| && d.widgets[i].Device? && w.WellFormed()
    ensures r.WellFormed()
    ensures |r.widgets| == |d.widgets| && r.widgets[i] == Device(w, d.widgets[i].failureFlag)
    ensures forall j :: 0 <= j < |d.widgets| && j != i ==> r.widgets[j] == d.widgets[j]
    ensures r == d.(widgets := r.widgets)
  {
    d.(widgets := d.widgets[i := Device(w, d.widgets[i].failureFlag)])
  }

  /** Set field `field` of the widget at position `i` and, if asked,
      call its `confirm`. This is the body of `set_field` after the
      nickname lookup, and also what a scheduled action does when it
      fires. A missing field raises `KeyError` (here `None`). */
  function SetFieldAt(d: Dash, i: nat, field: string, value: string, confirm: bool): (r: Option<SetOutcome>)
    requires d.WellFormed() && i < |d.widgets| && d.widgets[i].Device?
    ensures r.Some? <==> field in d.widgets[i].w.attributes
    ensures r.Some? ==> r.value.d.byNickname == d.byNickname && |r.value.d.widgets| == |d.widgets|
    ensures r.Some? ==> r.value.d.WellFormed() && r.value.d.widgets[i].Device?
    ensures r.Some? ==> r.value.d.widgets[i].w.GetField(field) == Some(value)
    ensures r.Some? ==> (r.value.confirmed <==> confirm && d.widgets[i].w.Connected())
    ensures r.Some? ==> forall j :: 0 <= j < |d.widgets| && j != i ==> r.value.d.widgets[j] == d.widgets[j]
  {
    var w := d.widgets[i].w;
    match w.SetField(field, value)
    case None => None
    case Some(w') => Some(SetOutcome(PutWidget(d, i, w'), confirm && w'.Connected()))
  }

  /** `set_field`: an unknown nickname or field raises `KeyError`. */
  function SetField(d: Dash, nick: string, field: string, value: string, confirm: bool): (r: Option<SetOutcome>)
    requires d.WellFormed()
    ensures r.Some? <==> nick in d.byNickname && field in d.Named(nick).attributes
    ensures r.Some? ==> r.value.d.WellFormed()
    ensures r.Some? ==> r.value.d.GetField(nick, field) == Some(value)
    ensures r.Some? ==> (r.value.confirmed <==> confirm && d.Named(nick).Connected())
  {
    match d.GetWidgetByNickname(nick)
    case None => None
    case Some(i) => SetFieldAt(d, i, field, value, confirm)
  }

  /** Setting one widget's field leaves every field of every other
      widget reading as before. */
  lemma SetFieldLeavesOthers(d: Dash, nick: string, field: string, value: string, confirm: bool,
                             other: string, f: string)
    requires d.WellFormed()
    requires nick in d.byNickname && other in d.byNickname
    requires d.byNickname[other] != d.byNickname[nick]
    requires SetField(d, nick, field, value, confirm).Some?
    ensures SetField(d, nick, field, value, confirm).value.d.GetField(other, f) == d.GetField(other, f)
  {
  }

  // ---------------------------------------------------------------------
  // Clamps in `scale_all_text`. The float scale factor is taken as the
  // exact ratio `num/den`; `int()` truncates toward zero.

  /** New font size: `int(size*scale)`, but never below 1. */
  function ScaledFontSize(size: int, num: int, den: int): (r: int)
    requires den > 0
    ensures r >= 1
    ensures TruncDiv(size * num, den) >= 1 ==> r == TruncDiv(size * num, den)
  {
    var s := TruncDiv(size * num, den);
    if s < 1 then 1 else s
  }

  /** New frame thickness: `int(thickness*scale)`, but never below 5. */
  function ScaledThickness(thickness: int, num: int, den: int): (r: int)
    requires den > 0
    ensures r >= 5
    ensures TruncDiv(thickness * num, den) >= 5 ==> r == TruncDiv(thickness * num, den)
  {
    var s := TruncDiv(thickness * num, den);
    if s < 5 then 5 else s
  }

  /** Scaling by 1 keeps any legal size and only raises a too small one
      to the floor. */
  lemma ScaleByOne(size: int, thickness: int)
    ensures ScaledFontSize(size, 1, 1) == if size < 1 then 1 else size
    ensures ScaledThickness(thickness, 1, 1) == if thickness < 5 then 5 else thickness
  {
  }
}
