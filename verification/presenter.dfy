/** `TermPresenter` and `TermInteractor` of `bt3.py`: how user actions on
    the view and ticks of the update loop change the terminal, the entry
    history and the output text. Writing a tk variable runs its trace
    handler at once; `WriteXorVar`, `WriteModVar` and `WriteOpenVar` model
    that, so the handlers are mutually recursive. */
module Presenter {
  import opened Wrappers
  import opened Checksum
  import opened Formatting
  import opened HexDump
  import History
  import Session
  import opened Observables

  /** `view_var`: `'va_hex'` or `'va_asc'`. */
  datatype ViewMode = HexMode | AsciiMode

  /** Output text tags: `foreground_red` (echo), `foreground_grn`
      (status), `foreground_blk` (received). */
  datatype Tag = Red | Green | Black

  /** A piece of text inserted at the end of the output widget. */
  datatype Line = Line(text: string, tag: Tag)

  /** The view state the presenter reads and writes: the tk variables,
      the configuration widgets' selections and enabled state, and the
      entry box. */
  datatype View = View(
    mode: ViewMode,
    toggleLf: bool,
    toggleCr: bool,
    toggleEcho: bool,
    toggleOpen: bool,
    toggleMod: bool,
    toggleXor: bool,
    cfgEnabled: bool,
    selection: Session.Settings,
    entryText: string)

  /** The presenter with its terminal, its view, the text in the output
      widget, the entry history and the re-entrancy guard. */
  datatype Presenter = Presenter(term: Session.Terminal, view: View, out: seq<Line>, history: History.EntryHistory, active: bool)

  ghost predicate Valid(p: Presenter)
  {
    Session.Valid(p.term) && History.Valid(p.history)
  }

  // ---------------------------------------------------------------------
  // Output

  /** `on_status`: the status message on a line of its own, in green. */
  function StatusOutput(text: string): (l: Line)
    ensures l.tag == Green && |l.text| == |text| + 11
    ensures l.text[..10] == "\n#STATUS: " && l.text[|l.text| - 1] == '\n'
    ensures l.text[10..|l.text| - 1] == text
  {
    Line("\n#STATUS: " + text + "\n", Green)
  }

  /** Index of the first byte that is not 7-bit ASCII, `|b|` if none. */
  function FirstNonAscii(b: seq<byte>): (i: nat)
    ensures i <= |b|
    ensures forall j :: 0 <= j < i ==> b[j] < 128
    ensures i < |b| ==> b[i] >= 128
  {
    if |b| == 0 then 0
    else if b[0] >= 128 then 0
    else 1 + FirstNonAscii(b[1..])
  }

  function LowerDigit(d: nat): char
    requires d < 16
  {
    if d < 10 then ('0' as int + d) as char else ('a' as int + d - 10) as char
  }

  /** The message of the `UnicodeDecodeError` the ASCII codec raises for
      byte `x` at position `pos`. */
  function AsciiErrorText(x: byte, pos: nat): string
  {
    "'ascii' codec can't decode byte 0x" + [LowerDigit(x / 16), LowerDigit(x % 16)]
      + " in position " + Dec(pos) + ": ordinal not in range(128)"
  }

  /** `bytes.decode('ascii')`: the characters with the bytes' code
      points, or the codec's error message for the first byte above 127. */
  function AsciiDecode(bytes: seq<byte>): (r: Result<string, string>)
    ensures r.Success? <==> forall j :: 0 <= j < |bytes| ==> bytes[j] < 128
    ensures r.Success? ==> |r.value| == |bytes| && forall j :: 0 <= j < |bytes| ==> r.value[j] as int == bytes[j]
    ensures r.Failure? ==> var i := FirstNonAscii(bytes);
      i < |bytes| && r.error == AsciiErrorText(bytes[i], i)
  {
    var i := FirstNonAscii(bytes);
    if i == |bytes| then Success(seq(|bytes|, j requires 0 <= j < |bytes| => bytes[j] as char))
    else Failure(AsciiErrorText(bytes[i], i))
  }

  /** `put_line`: what is written for `bytes` in the given view mode: the
      hex dump, the ASCII text, or the decoding error as a status. */
  function PutLine(mode: ViewMode, bytes: seq<byte>, tag: Tag): (l: Line)
    ensures mode == HexMode ==> l == Line(Dump(bytes), tag)
    ensures mode == AsciiMode ==> match AsciiDecode(bytes)
      case Success(text) => l == Line(text, tag)
      case Failure(m) => l == StatusOutput(m)
  {
    match mode
    case HexMode => Line(Dump(bytes), tag)
    case AsciiMode =>
      match AsciiDecode(bytes)
      case Success(text) => Line(text, tag)
      case Failure(m) => StatusOutput(m)
  }

  /** What a subscriber call writes: `on_status` a status, `on_echo` the
      echoed bytes in red. */
  function NoticeOutput(mode: ViewMode, n: Session.Notice): (l: Line)
  {
    match n
    case StatusNotice(_, text) => StatusOutput(text)
    case EchoNotice(_, bytes) => PutLine(mode, bytes, Red)
  }

  /** The output of a run of subscriber calls: one piece per call, in
      order. */
  function Dispatch(mode: ViewMode, notices: seq<Session.Notice>): (ls: seq<Line>)
    ensures |ls| == |notices|
    ensures forall i :: 0 <= i < |notices| ==> ls[i] == NoticeOutput(mode, notices[i])
  {
    seq(|notices|, i requires 0 <= i < |notices| => NoticeOutput(mode, notices[i]))
  }

  // ---------------------------------------------------------------------
  // Construction

  /** `TermPresenter.__init__`: the view shows the terminal's settings
      and flags, the checksum toggle matching the checksum type is set,
      and the presenter subscribes to status and echo. It is not yet
      active. */
  function Init(devices: seq<string>): (p: Presenter)
    ensures Valid(p) && !p.active
    ensures p.term.status.callbacks == [Session.OnStatus] && p.term.echo.callbacks == [Session.OnEcho]
    ensures p.view.toggleMod && !p.view.toggleXor && p.term.sumType == Session.ModSum
    ensures p.view.toggleEcho && !p.view.toggleLf && !p.view.toggleCr
    ensures !p.view.toggleOpen && p.view.cfgEnabled && p.view.mode == HexMode
    ensures p.view.selection == p.term.settings
    ensures p.history == History.Init() && p.out == []
  {
    var t := Session.Init(devices);
    var view := View(HexMode, t.lfEnable, t.crEnable, t.echoEnable, false,
                     t.sumType == Session.ModSum, t.sumType == Session.XorSum, true,
                     t.settings, "");
    var t1 := t.(status := AddCallback(t.status, Session.OnStatus),
                 echo := AddCallback(t.echo, Session.OnEcho));
    Presenter(t1, view, [], History.Init(), false)
  }

  /** `run`: the presenter becomes active. */
  function Run(p: Presenter): Presenter
  {
    p.(active := true)
  }

  // ---------------------------------------------------------------------
  // The checksum toggles and the open toggle

  /** Rank for the mutual recursion: an active presenter may call into an
      inactive one only. */
  function Rank(p: Presenter): nat
  {
    if p.active then 1 else 0
  }

  /** `on_mod`: when active, enabling selects the modulo checksum and
      clears the XOR toggle (whose handler then runs inactive and does
      nothing); disabling selects no checksum. */
  function OnMod(p: Presenter, enable: bool): (r: Presenter)
    ensures !p.active ==> r == p
    ensures p.active && enable ==> r == p.(term := p.term.(sumType := Session.ModSum), view := p.view.(toggleXor := false))
    ensures p.active && !enable ==> r == p.(term := p.term.(sumType := Session.NoSum))
    decreases Rank(p), 0
  {
    if !p.active then p
    else if enable then
      var p1 := WriteXorVar(p.(active := false), false);
      p1.(active := true, term := p1.term.(sumType := Session.ModSum))
    else
      p.(term := p.term.(sumType := Session.NoSum))
  }

  /** `on_xor`: as `on_mod`, with the roles swapped. */
  function OnXor(p: Presenter, enable: bool): (r: Presenter)
    ensures !p.active ==> r == p
    ensures p.active && enable ==> r == p.(term := p.term.(sumType := Session.XorSum), view := p.view.(toggleMod := false))
    ensures p.active && !enable ==> r == p.(term := p.term.(sumType := Session.NoSum))
    decreases Rank(p), 0
  {
    if !p.active then p
    else if enable then
      var p1 := WriteModVar(p.(active := false), false);
      p1.(active := true, term := p1.term.(sumType := Session.XorSum))
    else
      p.(term := p.term.(sumType := Session.NoSum))
  }

  /** `toggle_xor.set(v)`: the variable changes, then its trace runs. */
  function WriteXorVar(p: Presenter, v: bool): (r: Presenter)
    ensures !p.active ==> r == p.(view := p.view.(toggleXor := v))
    decreases Rank(p), 1
  {
    OnXor(p.(view := p.view.(toggleXor := v)), v)
  }

  /** `toggle_mod.set(v)`: the variable changes, then its trace runs. */
  function WriteModVar(p: Presenter, v: bool): (r: Presenter)
    ensures !p.active ==> r == p.(view := p.view.(toggleMod := v))
    decreases Rank(p), 1
  {
    OnMod(p.(view := p.view.(toggleMod := v)), v)
  }

  /** `set_cfg_enabled`: enables or disables the configuration widgets. */
  function SetCfgEnabled(p: Presenter, enabled: bool): Presenter
  {
    p.(view := p.view.(cfgEnabled := enabled))
  }

  /** `on_connect`: when active, runs inactive. Enabling copies the
      view's settings to the terminal and connects; on failure the open
      toggle is cleared (its handler runs inactive and does nothing), on
      success the configuration widgets are disabled. Disabling
      disconnects and enables them. The presenter is active again
      afterwards, unless `connect` or `disconnect` raised. */
  function OnConnect(p: Presenter, enable: bool, outcome: Session.OpenOutcome): (r: Presenter)
    requires Valid(p)
    ensures Valid(r) && r.history == p.history
    ensures !p.active ==> r == p
    ensures p.active && enable ==>
      var c := Session.Connect(p.term.(settings := p.view.selection), outcome);
      && r.active == c.ok
      && r.out == p.out + Dispatch(p.view.mode, c.notices)
      && (!c.ok ==> r.term == c.term && r.view == p.view)
      && (c.ok && !c.connected ==> r.term == c.term && r.view == p.view.(toggleOpen := false))
      && (c.ok && c.connected ==> r.term == c.term && r.view == p.view.(cfgEnabled := false))
    ensures p.active && !enable ==> var d := Session.Disconnect(p.term);
      && r.active == d.ok
      && !r.term.connected
      && r.out == p.out + Dispatch(p.view.mode, d.notices)
      && (d.ok ==> r.term == d.term && r.view == p.view.(cfgEnabled := true))
      && (!d.ok ==> r.term == d.term && r.view == p.view)
    decreases Rank(p), 0
  {
    if !p.active then p
    else if enable then Connecting(p.(active := false), outcome)
    else Disconnecting(p.(active := false))
  }

  /** The enabling branch of `on_connect`, entered inactive; the
      presenter is active again only if `connect` returned. */
  function Connecting(p: Presenter, outcome: Session.OpenOutcome): (r: Presenter)
    requires Valid(p) && !p.active
    ensures Valid(r) && r.history == p.history
    ensures var c := Session.Connect(p.term.(settings := p.view.selection), outcome);
      && r.active == c.ok
      && r.out == p.out + Dispatch(p.view.mode, c.notices)
      && (!c.ok ==> r.term == c.term && r.view == p.view)
      && (c.ok && !c.connected ==> r.term == c.term && r.view == p.view.(toggleOpen := false))
      && (c.ok && c.connected ==> r.term == c.term && r.view == p.view.(cfgEnabled := false))
    decreases Rank(p), 2
  {
    var c := Session.Connect(p.term.(settings := p.view.selection), outcome);
    var p1 := p.(term := c.term, out := p.out + Dispatch(p.view.mode, c.notices));
    if !c.ok then p1
    else if !c.connected then WriteOpenVar(p1, false, outcome).(active := true)
    else SetCfgEnabled(p1, false).(active := true)
  }

  /** The disabling branch of `on_connect`, entered inactive; the
      presenter is active again only if `disconnect` returned. */
  function Disconnecting(p: Presenter): (r: Presenter)
    requires Valid(p) && !p.active
    ensures Valid(r) && r.history == p.history
    ensures var d := Session.Disconnect(p.term);
      && r.active == d.ok
      && !r.term.connected
      && r.out == p.out + Dispatch(p.view.mode, d.notices)
      && (d.ok ==> r.term == d.term && r.view == p.view.(cfgEnabled := true))
      && (!d.ok ==> r.term == d.term && r.view == p.view)
  {
    var d := Session.Disconnect(p.term);
    var p1 := p.(term := d.term, out := p.out + Dispatch(p.view.mode, d.notices));
    if !d.ok then p1
    else SetCfgEnabled(p1, true).(active := true)
  }

  /** `toggle_open.set(v)`: the variable changes, then its trace runs. */
  function WriteOpenVar(p: Presenter, v: bool, outcome: Session.OpenOutcome): (r: Presenter)
    requires Valid(p)
    ensures Valid(r)
    ensures !p.active ==> r == p.(view := p.view.(toggleOpen := v))
    decreases Rank(p), 1
  {
    OnConnect(p.(view := p.view.(toggleOpen := v)), v, outcome)
  }

  // ---------------------------------------------------------------------
  // Entry line, update loop and the unguarded toggles

  /** Every character is 7-bit ASCII, as `bytes(entry, 'ascii')` needs. */
  predicate Ascii(s: string)
  {
    forall i :: 0 <= i < |s| ==> s[i] as int < 128
  }

  /** `on_entry`: records the entry in the history first, then decodes
      its escapes (`decoded`: the line, or the codec's error message) and
      talks. A decode error is shown as a status. The second component
      is false when an exception escapes: the entry is not ASCII, or the
      decoded line has a character `bytes` cannot hold while connected.
      Either way the history already holds the entry. */
  function OnEntry(p: Presenter, entry: string, decoded: Result<string, string>): (r: (Presenter, bool))
    requires Valid(p)
    ensures Valid(r.0)
    ensures r.0.history == History.Add(p.history, entry)
    ensures r.0.active == p.active && r.0.view == p.view
    ensures r.1 <==> Ascii(entry) && (decoded.Success? && p.term.connected ==> Session.Latin1(decoded.value))
    ensures !r.1 ==> r.0 == p.(history := r.0.history)
    ensures r.1 && decoded.Failure? ==> r.0.term == p.term && r.0.out == p.out + [StatusOutput(decoded.error)]
    ensures r.1 && decoded.Success? ==> var (t, ns) := Session.Talk(p.term, decoded.value);
      r.0.term == t && r.0.out == p.out + Dispatch(p.view.mode, ns)
  {
    var p1 := p.(history := History.Add(p.history, entry));
    if !Ascii(entry) then (p1, false)
    else match decoded
      case Failure(msg) => (p1.(out := p1.out + [StatusOutput(msg)]), true)
      case Success(line) =>
        if p1.term.connected && !Session.Latin1(line) then (p1, false)
        else
          var (t, ns) := Session.Talk(p1.term, line);
          (p1.(term := t, out := p1.out + Dispatch(p1.view.mode, ns)), true)
  }

  /** `on_update`: takes at most one received chunk, the oldest, and puts
      it in black. */
  function OnUpdate(p: Presenter): (r: Presenter)
    ensures r.history == p.history && r.active == p.active && r.view == p.view
    ensures |p.term.rxQ| == 0 ==> r == p
    ensures |p.term.rxQ| > 0 ==>
      && r.term == p.term.(rxQ := p.term.rxQ[1..])
      && r.out == p.out + [PutLine(p.view.mode, p.term.rxQ[0], Black)]
  {
    if |p.term.rxQ| == 0 then p
    else p.(term := p.term.(rxQ := p.term.rxQ[1..]), out := p.out + [PutLine(p.view.mode, p.term.rxQ[0], Black)])
  }

  /** `on_entry_up`: the entry box shows the previous history entry. */
  function OnEntryUp(p: Presenter): (r: Presenter)
    requires Valid(p)
    ensures Valid(r) && r.term == p.term && r.out == p.out && r.active == p.active
    ensures r.view == p.view.(entryText := History.Previous(p.history).1)
    ensures r.history == History.Previous(p.history).0
  {
    var (h, text) := History.Previous(p.history);
    p.(history := h, view := p.view.(entryText := text))
  }

  /** `on_entry_down`: the entry box is cleared, then shows the next
      history entry; when `next` raises it stays cleared and the history
      is unchanged. */
  function OnEntryDown(p: Presenter): (r: Presenter)
    requires Valid(p)
    ensures Valid(r) && r.term == p.term && r.out == p.out && r.active == p.active
    ensures match History.Next(p.history)
      case Success((h, text)) => r.history == h && r.view == p.view.(entryText := text)
      case Failure(_) => r.history == p.history && r.view == p.view.(entryText := "")
  {
    match History.Next(p.history)
    case Success((h, text)) => p.(history := h, view := p.view.(entryText := text))
    case Failure(_) => p.(view := p.view.(entryText := ""))
  }

  /** `on_lf`, `on_cr`, `on_echo_enable`: copy the toggle to the terminal,
      whether active or not. */
  function OnLf(p: Presenter, enabled: bool): (r: Presenter)
  {
    p.(term := p.term.(lfEnable := enabled))
  }

  function OnCr(p: Presenter, enabled: bool): (r: Presenter)
  {
    p.(term := p.term.(crEnable := enabled))
  }

  function OnEchoEnable(p: Presenter, enabled: bool): (r: Presenter)
  {
    p.(term := p.term.(echoEnable := enabled))
  }

  // ---------------------------------------------------------------------
  // Events: what the user and the listener thread can do

  datatype Event =
    | Type(text: string)
    | Enter(decoded: Result<string, string>)
    | Up
    | Down
    | ClickMod
    | ClickXor
    | ClickOpen(outcome: Session.OpenOutcome)
    | ClickLf
    | ClickCr
    | ClickEcho
    | SelectView(mode: ViewMode)
    | Configure(selection: Session.Settings)
    | Tick
    | Receive(chunk: seq<byte>)
    | ListenerExit

  /** One event. A click flips its toggle and runs the toggle's handler.
      Enter submits the entry box and clears it unless an exception
      escaped. Up and Down clear the entry box and insert the history
      entry; `next` raising leaves it cleared. The configuration can be
      edited only while its widgets are enabled. The listener queues a
      chunk only while connected with the port open, and leaves its loop
      only once it was started and that no longer holds. */
  function Step(p: Presenter, e: Event): (r: Presenter)
    requires Valid(p)
    ensures Valid(r)
  {
    var v := p.view;
    match e
    case Type(text) => p.(view := v.(entryText := text))
    case Enter(decoded) =>
      var (p1, ok) := OnEntry(p, v.entryText, decoded);
      if ok then p1.(view := p1.view.(entryText := "")) else p1
    case Up => OnEntryUp(p)
    case Down => OnEntryDown(p)
    case ClickMod => WriteModVar(p, !v.toggleMod)
    case ClickXor => WriteXorVar(p, !v.toggleXor)
    case ClickOpen(outcome) => WriteOpenVar(p, !v.toggleOpen, outcome)
    case ClickLf => OnLf(p.(view := v.(toggleLf := !v.toggleLf)), !v.toggleLf)
    case ClickCr => OnCr(p.(view := v.(toggleCr := !v.toggleCr)), !v.toggleCr)
    case ClickEcho => OnEchoEnable(p.(view := v.(toggleEcho := !v.toggleEcho)), !v.toggleEcho)
    case SelectView(mode) => p.(view := v.(mode := mode))
    case Configure(selection) =>
      if v.cfgEnabled then p.(view := v.(selection := selection)) else p
    case Tick => OnUpdate(p)
    case Receive(chunk) =>
      if p.term.connected && p.term.portOpen && |chunk| > 0 then p.(term := Session.Receive(p.term, chunk))
      else p
    case ListenerExit =>
      if p.term.hasListener && !(p.term.connected && p.term.portOpen) then p.(term := Session.ListenerExit(p.term))
      else p
  }

  /** The presenter's state agrees with the view: it is active, it is
      subscribed once to status and echo, each checksum toggle is set
      exactly when its checksum is selected, the CR and LF toggles match
      the terminal's flags, a connection implies the open toggle is set,
      the open toggle implies a listener was started, and the
      configuration is editable exactly when the open toggle is clear,
      and the echo toggle matches the terminal's echo flag. */
  ghost predicate Inv(p: Presenter)
  {
    && Valid(p)
    && p.active
    && p.term.status.callbacks == [Session.OnStatus]
    && p.term.echo.callbacks == [Session.OnEcho]
    && (p.view.toggleMod <==> p.term.sumType == Session.ModSum)
    && (p.view.toggleXor <==> p.term.sumType == Session.XorSum)
    && p.view.toggleLf == p.term.lfEnable
    && p.view.toggleCr == p.term.crEnable
    && p.view.toggleEcho == p.term.echoEnable
    && (p.term.connected ==> p.view.toggleOpen)
    && (p.view.toggleOpen ==> p.term.hasListener)
    && (p.view.cfgEnabled <==> !p.view.toggleOpen)
  }

  /** The state after `connect` raised inside `on_connect`: the presenter
      is inactive, and nothing makes it active again, so the guarded
      handlers ignore their toggles from then on. It is still subscribed,
      it cannot connect, and the unguarded echo toggle still matches the
      terminal's echo flag. */
  ghost predicate Stuck(p: Presenter)
  {
    && Valid(p)
    && !p.active
    && !p.term.connected
    && p.term.status.callbacks == [Session.OnStatus]
    && p.term.echo.callbacks == [Session.OnEcho]
    && p.view.toggleEcho == p.term.echoEnable
  }

  /** The event sets the open toggle while the view holds settings
      pyserial rejects. */
  predicate OpensIllegal(p: Presenter, e: Event)
  {
    e.ClickOpen? && !p.view.toggleOpen && !Session.LegalSettings(p.view.selection)
  }

  /** The running presenter starts in a state satisfying the invariant. */
  lemma InitRunInv(devices: seq<string>)
    ensures Inv(Run(Init(devices)))
  {}

  /** Every event keeps the invariant, except setting the open toggle with
      settings pyserial rejects, which leaves the presenter stuck. */
  lemma StepInv(p: Presenter, e: Event)
    requires Inv(p)
    ensures Inv(Step(p, e)) <==> !OpensIllegal(p, e)
    ensures OpensIllegal(p, e) ==> Stuck(Step(p, e))
  {
    match e
    case ClickOpen(outcome) => ClickOpenInv(p, outcome);
    case Enter(decoded) => EnterInv(p, decoded);
    case ClickMod => ClickModInv(p);
    case ClickXor => ClickXorInv(p);
    case Type(_) => EntryBoxInv(p, e);
    case Up => EntryBoxInv(p, e);
    case Down => EntryBoxInv(p, e);
    case Tick =>
    case Receive(chunk) =>
    case ListenerExit =>
    case _ => TogglesInv(p, e);
  }

  /** The parts of the state the invariant speaks about are as in `p`. */
  ghost predicate SameSetup(p: Presenter, r: Presenter)
  {
    && r.term.status.callbacks == p.term.status.callbacks
    && r.term.echo.callbacks == p.term.echo.callbacks
    && r.term.sumType == p.term.sumType
    && r.term.lfEnable == p.term.lfEnable && r.term.crEnable == p.term.crEnable
    && r.term.echoEnable == p.term.echoEnable
    && r.term.connected == p.term.connected && r.term.hasListener == p.term.hasListener
    && r.view.toggleMod == p.view.toggleMod && r.view.toggleXor == p.view.toggleXor
    && r.view.toggleLf == p.view.toggleLf && r.view.toggleCr == p.view.toggleCr
    && r.view.toggleEcho == p.view.toggleEcho && r.view.toggleOpen == p.view.toggleOpen
    && r.view.cfgEnabled == p.view.cfgEnabled
  }

  lemma SameSetupInv(p: Presenter, r: Presenter)
    requires Inv(p) && SameSetup(p, r) && Valid(r) && r.active
    ensures Inv(r)
  {
  }

  lemma ClickOpenInv(p: Presenter, outcome: Session.OpenOutcome)
    requires Inv(p)
    ensures Inv(Step(p, ClickOpen(outcome))) <==> !OpensIllegal(p, ClickOpen(outcome))
    ensures OpensIllegal(p, ClickOpen(outcome)) ==> Stuck(Step(p, ClickOpen(outcome)))
  {
    var q := p.(view := p.view.(toggleOpen := !p.view.toggleOpen));
    assert Step(p, ClickOpen(outcome)) == OnConnect(q, !p.view.toggleOpen, outcome);
    if p.view.toggleOpen {
      DisconnectingInv(p);
    } else {
      ConnectingInv(p, outcome);
    }
  }

  /** Clearing the open toggle. */
  lemma DisconnectingInv(p: Presenter)
    requires Inv(p) && p.view.toggleOpen
    ensures Inv(Disconnecting(p.(view := p.view.(toggleOpen := false), active := false)))
  {
  }

  /** Setting the open toggle: the invariant survives exactly when the
      settings are accepted. */
  lemma ConnectingInv(p: Presenter, outcome: Session.OpenOutcome)
    requires Inv(p) && !p.view.toggleOpen
    ensures var r := Connecting(p.(view := p.view.(toggleOpen := true), active := false), outcome);
      && (Inv(r) <==> Session.LegalSettings(p.view.selection))
      && (!Session.LegalSettings(p.view.selection) ==> Stuck(r))
  {
  }

  lemma EnterInv(p: Presenter, decoded: Result<string, string>)
    requires Inv(p)
    ensures Inv(Step(p, Enter(decoded)))
  {
    EnterSetup(p, decoded);
    SameSetupInv(p, Step(p, Enter(decoded)));
  }

  lemma EnterSetup(p: Presenter, decoded: Result<string, string>)
    requires Inv(p)
    ensures var r := Step(p, Enter(decoded));
      SameSetup(p, r) && Valid(r) && r.active
  {
    OnEntrySetup(p, p.view.entryText, decoded);
  }

  lemma OnEntrySetup(p: Presenter, entry: string, decoded: Result<string, string>)
    requires Valid(p)
    ensures SameSetup(p, OnEntry(p, entry, decoded).0)
  {
    var r := OnEntry(p, entry, decoded).0;
    if r.term != p.term {
      var (t, ns) := Session.Talk(p.term, decoded.value);
      assert r.term == t;
    }
  }

  lemma ClickModInv(p: Presenter)
    requires Inv(p)
    ensures Inv(Step(p, ClickMod))
  {
  }

  lemma ClickXorInv(p: Presenter)
    requires Inv(p)
    ensures Inv(Step(p, ClickXor))
  {
  }

  lemma EntryBoxInv(p: Presenter, e: Event)
    requires Inv(p)
    requires e.Type? || e.Up? || e.Down?
    ensures Inv(Step(p, e))
  {
    var r := Step(p, e);
    if e.Down? {
      DownInv(p);
    } else {
      assert r.term == p.term && r.active;
      assert SameSetup(p, r);
      SameSetupInv(p, r);
    }
  }

  lemma DownInv(p: Presenter)
    requires Inv(p)
    ensures Inv(Step(p, Down))
  {
    var r := OnEntryDown(p);
    assert SameSetup(p, r);
    SameSetupInv(p, r);
  }

  lemma TogglesInv(p: Presenter, e: Event)
    requires Inv(p)
    requires e.ClickLf? || e.ClickCr? || e.ClickEcho? || e.SelectView? || e.Configure?
    ensures Inv(Step(p, e))
  {
  }

  /** The events after a start, in order. */
  function Replay(p: Presenter, events: seq<Event>): (r: Presenter)
    requires Valid(p)
    ensures Valid(r)
    decreases |events|
  {
    if |events| == 0 then p else Replay(Step(p, events[0]), events[1..])
  }

  /** A stuck presenter stays stuck whatever happens next. */
  lemma StuckStep(p: Presenter, e: Event)
    requires Stuck(p)
    ensures Stuck(Step(p, e))
  {
    if e.Enter? {
      var (r, ok) := OnEntry(p, p.view.entryText, e.decoded);
      assert !r.term.connected;
    }
  }

  /** After any events a presenter that satisfied the invariant either
      still does or is stuck; while it is active the modulo and XOR
      toggles are never both set. */
  lemma {:induction false} ReplayInv(p: Presenter, events: seq<Event>)
    requires Inv(p) || Stuck(p)
    ensures Inv(Replay(p, events)) || Stuck(Replay(p, events))
    ensures Replay(p, events).active ==> !(Replay(p, events).view.toggleMod && Replay(p, events).view.toggleXor)
    decreases |events|
  {
    if |events| > 0 {
      if Inv(p) {
        StepInv(p, events[0]);
      } else {
        StuckStep(p, events[0]);
      }
      ReplayInv(Step(p, events[0]), events[1..]);
    }
  }

  /** Only a `Configure` event changes the view's settings. */
  lemma SelectionStep(p: Presenter, e: Event)
    requires Valid(p)
    ensures Step(p, e).view.selection == p.view.selection
      || (e.Configure? && Step(p, e).view.selection == e.selection)
  {
    var v := p.view;
    if e.Enter? {
      var (r, ok) := OnEntry(p, v.entryText, e.decoded);
      assert r.view == v;
    } else if e.ClickOpen? {
      OpenKeepsSelection(p, e.outcome);
    } else if e.ClickMod? {
      var q := p.(view := v.(toggleMod := !v.toggleMod));
      assert Step(p, e) == OnMod(q, !v.toggleMod);
    } else if e.ClickXor? {
      var q := p.(view := v.(toggleXor := !v.toggleXor));
      assert Step(p, e) == OnXor(q, !v.toggleXor);
    }
  }

  lemma OpenKeepsSelection(p: Presenter, outcome: Session.OpenOutcome)
    requires Valid(p)
    ensures Step(p, ClickOpen(outcome)).view.selection == p.view.selection
  {
    var q := p.(view := p.view.(toggleOpen := !p.view.toggleOpen));
    assert Step(p, ClickOpen(outcome)) == OnConnect(q, !p.view.toggleOpen, outcome);
  }

  /** The settings in every `Configure` event are ones pyserial accepts. */
  predicate LegalConfigs(events: seq<Event>)
  {
    forall i :: 0 <= i < |events| && events[i].Configure? ==> Session.LegalSettings(events[i].selection)
  }

  /** When the view holds accepted settings and every configuration the
      user enters is accepted, the invariant holds after any events: the
      presenter never gets stuck. */
  lemma {:induction false} LegalReplayInv(p: Presenter, events: seq<Event>)
    requires Inv(p) && Session.LegalSettings(p.view.selection) && LegalConfigs(events)
    ensures Inv(Replay(p, events))
    decreases |events|
  {
    if |events| > 0 {
      StepInv(p, events[0]);
      SelectionStep(p, events[0]);
      assert LegalConfigs(events[1..]) by {
        forall i | 0 <= i < |events[1..]| && events[1..][i].Configure?
          ensures Session.LegalSettings(events[1..][i].selection)
        {
          assert events[1..][i] == events[i + 1];
        }
      }
      LegalReplayInv(Step(p, events[0]), events[1..]);
    }
  }

  /** Every state reachable from a running presenter satisfies the
      invariant or is stuck, and with accepted settings throughout it
      satisfies the invariant. */
  lemma Reachable(devices: seq<string>, events: seq<Event>)
    ensures Inv(Replay(Run(Init(devices)), events)) || Stuck(Replay(Run(Init(devices)), events))
    ensures LegalConfigs(events) ==> Inv(Replay(Run(Init(devices)), events))
  {
    InitRunInv(devices);
    ReplayInv(Run(Init(devices)), events);
    if LegalConfigs(events) {
      LegalReplayInv(Run(Init(devices)), events);
    }
  }

  /** Nine data bits typed into the configuration, then the open toggle:
      `connect` raises, no status is shown, and the presenter is stuck
      with the open toggle set. A later click on the modulo toggle clears
      the toggle but leaves the modulo checksum selected. */
  lemma IllegalBitsStick(devices: seq<string>, outcome: Session.OpenOutcome)
    ensures var p0 := Run(Init(devices));
      var sel := p0.view.selection.(databits := 9);
      var p1 := Step(Step(p0, Configure(sel)), ClickOpen(outcome));
      var p2 := Step(p1, ClickMod);
      && Stuck(p1) && p1.view.toggleOpen && p1.out == [] && p1.term.settings == sel
      && !p2.view.toggleMod && p2.term.sumType == Session.ModSum
  {
  }

  // ---------------------------------------------------------------------
  // The update loop delivers received chunks in order

  /** `n` ticks of the update loop. */
  function Ticks(p: Presenter, n: nat): Presenter
    decreases n
  {
    if n == 0 then p else Ticks(OnUpdate(p), n - 1)
  }

  /** What the output shows for received chunks: each put in black, in
      order. */
  function Shown(mode: ViewMode, chunks: seq<seq<byte>>): seq<Line>
    decreases |chunks|
  {
    if |chunks| == 0 then [] else [PutLine(mode, chunks[0], Black)] + Shown(mode, chunks[1..])
  }

  /** `n` ticks take exactly the `n` oldest chunks off the queue, show them
      oldest first, and leave the rest queued. */
  lemma TicksDrainInOrder(p: Presenter, n: nat)
    requires n <= |p.term.rxQ|
    ensures Ticks(p, n).term == p.term.(rxQ := p.term.rxQ[n..])
    ensures Ticks(p, n).out == p.out + Shown(p.view.mode, p.term.rxQ[..n])
    ensures Ticks(p, n).view == p.view
    ensures Ticks(p, n).history == p.history && Ticks(p, n).active == p.active
  {
    TicksTake(p, n);
    TicksShow(p, n);
  }

  lemma {:induction false} TicksTake(p: Presenter, n: nat)
    requires n <= |p.term.rxQ|
    ensures Ticks(p, n).term == p.term.(rxQ := p.term.rxQ[n..])
    ensures Ticks(p, n).view == p.view
    ensures Ticks(p, n).history == p.history && Ticks(p, n).active == p.active
    decreases n
  {
    if n > 0 {
      var p1 := OnUpdate(p);
      TicksTake(p1, n - 1);
      assert p1.term.rxQ[n - 1..] == p.term.rxQ[n..];
    } else {
      assert p.term.rxQ[0..] == p.term.rxQ;
    }
  }

  lemma {:induction false} TicksShow(p: Presenter, n: nat)
    requires n <= |p.term.rxQ|
    ensures Ticks(p, n).out == p.out + Shown(p.view.mode, p.term.rxQ[..n])
    decreases n
  {
    if n > 0 {
      TicksShow(OnUpdate(p), n - 1);
      TicksShowStep(p, n);
    }
  }

  /** The inductive step of `TicksShow`: one tick, then the rest. */
  lemma TicksShowStep(p: Presenter, n: nat)
    requires 0 < n <= |p.term.rxQ|
    requires var p1 := OnUpdate(p);
      Ticks(p1, n - 1).out == p1.out + Shown(p1.view.mode, p1.term.rxQ[..n - 1])
    ensures Ticks(p, n).out == p.out + Shown(p.view.mode, p.term.rxQ[..n])
  {
    var p1 := OnUpdate(p);
    var m := p.view.mode;
    var chunks := p.term.rxQ[..n];
    assert p1.term.rxQ[..n - 1] == chunks[1..];
    calc {
      Ticks(p, n).out;
      Ticks(p1, n - 1).out;
      p1.out + Shown(m, chunks[1..]);
      (p.out + [PutLine(m, chunks[0], Black)]) + Shown(m, chunks[1..]);
      p.out + Shown(m, chunks);
    }
  }


  // ---------------------------------------------------------------------
  // Submitting a line

  /** A submitted line, while connected with echo on and the hex view
      selected: the history records the entry, the frame is written, and
      its hex dump is shown in red. */
  lemma EnterEchoesFrame(p: Presenter, line: string)
    requires Inv(p) && p.term.connected && p.term.echoEnable && p.view.mode == HexMode
    requires Ascii(p.view.entryText) && Session.Latin1(line)
    ensures var r := Step(p, Enter(Success(line)));
      var f := Session.Frame(Session.Encode(line), p.term.crEnable, p.term.lfEnable, p.term.sumType);
      && r.history == History.Add(p.history, p.view.entryText)
      && r.term.written == p.term.written + [f]
      && r.out == p.out + [Line(Dump(f), Red)]
      && r.view.entryText == ""
  {
    var (t, ns) := Session.Talk(p.term, line);
    var f := Session.Frame(Session.Encode(line), p.term.crEnable, p.term.lfEnable, p.term.sumType);
    assert ns == [Session.EchoNotice(Session.OnEcho, f)];
    assert Dispatch(p.view.mode, ns) == [Line(Dump(f), Red)];
  }

  /** A submitted line while not connected: the history records the entry,
      nothing is written, and the status says so. */
  lemma EnterNotConnected(p: Presenter, line: string)
    requires Inv(p) && !p.term.connected && Ascii(p.view.entryText)
    ensures var r := Step(p, Enter(Success(line)));
      && r.history == History.Add(p.history, p.view.entryText)
      && r.term.written == p.term.written
      && r.out == p.out + [StatusOutput(Session.NotConnectedText)]
  {
    var (t, ns) := Session.Talk(p.term, line);
    assert ns == [Session.StatusNotice(Session.OnStatus, Session.NotConnectedText)];
    assert Dispatch(p.view.mode, ns) == [StatusOutput(Session.NotConnectedText)];
  }

  /** The checksum the view's toggles select. */
  function SelectedSum(v: View): Session.SumType
  {
    if v.toggleMod then Session.ModSum else if v.toggleXor then Session.XorSum else Session.NoSum
  }

  /** While connected, the toggles on screen decide the frame of a
      submitted line: it carries the CR, LF and checksum the toggles
      select. It is echoed in red exactly when the echo toggle is set. */
  lemma EnterFollowsToggles(p: Presenter, line: string)
    requires Inv(p) && p.term.connected && Ascii(p.view.entryText) && Session.Latin1(line)
    ensures var r := Step(p, Enter(Success(line)));
      var f := Session.Frame(Session.Encode(line), p.view.toggleCr, p.view.toggleLf, SelectedSum(p.view));
      && r.term.written == p.term.written + [f]
      && (p.view.toggleEcho ==> r.out == p.out + [PutLine(p.view.mode, f, Red)])
      && (!p.view.toggleEcho ==> r.out == p.out)
  {
    assert SelectedSum(p.view) == p.term.sumType;
    var (t, ns) := Session.Talk(p.term, line);
    var f := Session.Frame(Session.Encode(line), p.term.crEnable, p.term.lfEnable, p.term.sumType);
    if p.term.echoEnable {
      assert ns == [Session.EchoNotice(Session.OnEcho, f)];
      assert Dispatch(p.view.mode, ns) == [PutLine(p.view.mode, f, Red)];
    } else {
      assert Dispatch(p.view.mode, ns) == [];
    }
  }

  // ---------------------------------------------------------------------
  // The entry history through the keys

  /** Up right after Enter puts the submitted text back in the entry
      box. */
  lemma EnterThenUpRecalls(p: Presenter, decoded: Result<string, string>)
    requires Inv(p)
    ensures Step(Step(p, Enter(decoded)), Up).view.entryText == p.view.entryText
  {
    var q := Step(p, Enter(decoded));
    assert q.history == History.Add(p.history, p.view.entryText);
    History.AddThenPrevious(p.history, p.view.entryText);
  }

  /** Down right after Enter: `next` reads past the end of the history, so
      the entry box is left cleared and the history is unchanged. */
  lemma EnterThenDownClears(p: Presenter, decoded: Result<string, string>)
    requires Inv(p)
    ensures var q := Step(p, Enter(decoded));
      && History.Next(q.history).Failure?
      && Step(q, Down).view.entryText == ""
      && Step(q, Down).history == q.history
  {
    var q := Step(p, Enter(decoded));
    assert q.history == History.Add(p.history, p.view.entryText);
    History.AddThenNextFails(p.history, p.view.entryText);
  }

  // ---------------------------------------------------------------------
  // The echo toggle

  /** `on_echo_enable` has no `active` guard: a click on the echo toggle
      flips it and copies it to the terminal's echo flag, whether or not
      the presenter is active, and changes nothing else. */
  lemma ClickEchoFollows(p: Presenter)
    requires Valid(p)
    ensures var r := Step(p, ClickEcho);
      && r.view.toggleEcho == !p.view.toggleEcho
      && r.term.echoEnable == r.view.toggleEcho
      && r.term == p.term.(echoEnable := r.view.toggleEcho)
      && r.view == p.view.(toggleEcho := r.view.toggleEcho)
      && r.active == p.active && r.out == p.out && r.history == p.history
  {
  }

  /** Right after start the echo toggle is set; open the port and submit
      a line: the frame is written and echoed once, in red, as a hex
      dump. Connecting leaves the echo flag alone. */
  lemma ConnectThenEnterEchoes(devices: seq<string>, line: string)
    requires Session.Latin1(line)
    ensures var p1 := Step(Run(Init(devices)), ClickOpen(Session.Opened));
      var p2 := Step(p1, Enter(Success(line)));
      && p1.view.toggleEcho && p1.term.echoEnable && p1.term.connected
      && |p2.term.written| == 1
      && p2.out == p1.out + [PutLine(HexMode, p2.term.written[0], Red)]
  {
    var p0 := Run(Init(devices));
    InitRunInv(devices);
    var p1 := Step(p0, ClickOpen(Session.Opened));
    StepInv(p0, ClickOpen(Session.Opened));
    EnterFollowsToggles(p1, line);
  }
}
