/** `Terminal` of `bt3.py`: the serial session's settings and flags, the
    status and echo observables, the receive queue, and the frame `talk`
    sends. The serial port and the listener thread are not modelled; what
    they do is given as inputs (`OpenOutcome`) or as environment steps
    (`Receive`, `ListenerExit`). */
module Session {
  import opened Wrappers
  import opened Checksum
  import opened Formatting
  import opened Observables

  /** pyserial's stop-bit settings. */
  datatype StopBits = One | OnePointFive | Two

  /** `%d` of the stop-bit setting: 1.5 truncates to 1. */
  function StopBitsInt(s: StopBits): (n: nat)
    ensures s == Two <==> n == 2
    ensures s != Two <==> n == 1
  {
    match s
    case One => 1
    case OnePointFive => 1
    case Two => 2
  }

  /** The port settings `connect` applies. */
  datatype Settings = Settings(device: string, speed: nat, databits: nat, parity: string, stopbits: StopBits)

  /** The checksum appended to each frame: `'mod'`, `'xor'` or `None`. */
  datatype SumType = NoSum | ModSum | XorSum

  /** The presenter's subscribers: `on_status` on the status observable,
      `on_echo` on the echo observable. */
  datatype StatusCallback = OnStatus
  datatype EchoCallback = OnEcho

  /** A callback call made by an observable's `set`, in order. */
  datatype Notice = StatusNotice(statusTo: StatusCallback, text: string) | EchoNotice(echoTo: EchoCallback, bytes: seq<byte>)

  /** What opening the port did: raised `SerialException` or `ValueError`
      with a message, returned but left the port closed, or opened it. */
  datatype OpenOutcome = OpenRaised(message: string) | OpenedNotOpen | Opened

  datatype Terminal = Terminal(
    settings: Settings,
    sumType: SumType,
    echoEnable: bool,
    lfEnable: bool,
    crEnable: bool,
    status: Observable<StatusCallback, string>,
    echo: Observable<EchoCallback, seq<byte>>,
    connected: bool,
    /** The port reports open. */
    portOpen: bool,
    /** A listener thread has been created (`rx_thd` exists). */
    hasListener: bool,
    /** Received chunks not yet taken, oldest first. */
    rxQ: seq<seq<byte>>,
    /** Frames written to the port, oldest first. */
    written: seq<seq<byte>>)

  ghost predicate Valid(t: Terminal)
  {
    Observables.Valid(t.status) && Observables.Valid(t.echo)
  }

  /** A new terminal: the first enumerated device (or none), 38400 baud,
      8 data bits, no parity, one stop bit; modulo checksum, echo on, no
      line feed, no carriage return, not connected. */
  function Init(devices: seq<string>): (t: Terminal)
    ensures Valid(t)
    ensures t.settings.device == if |devices| > 0 then devices[0] else ""
    ensures t.settings.speed == 38400 && t.settings.databits == 8
    ensures t.settings.parity == "N" && t.settings.stopbits == One
    ensures t.sumType == ModSum && t.echoEnable && !t.lfEnable && !t.crEnable
    ensures !t.connected && !t.portOpen && !t.hasListener
    ensures t.rxQ == [] && t.written == []
    ensures Get(t.status) == None && Get(t.echo) == None
    ensures t.status.callbacks == [] && t.echo.callbacks == []
  {
    var device := if |devices| > 0 then devices[0] else "";
    Terminal(Settings(device, 38400, 8, "N", One), ModSum, true, false, false,
             New(), New(), false, false, false, [], [])
  }

  // ---------------------------------------------------------------------
  // Status messages

  function ErrorText(device: string, message: string): string
  {
    "Error while connecting to " + device + ":\n" + message
  }

  function UnableText(device: string): string
  {
    "Unable to open " + device + "."
  }

  function ConnectedText(s: Settings): string
  {
    "Connected to " + s.device + " (" + Dec(s.speed) + "/" + Dec(s.databits) + "/"
      + s.parity + "/" + Dec(StopBitsInt(s.stopbits)) + ")."
  }

  const ClosedText: string := "Serial device closed."
  const NotConnectedText: string := "Not connected."

  /** One call of each status subscriber with `text`, in order. */
  function StatusNotices(callbacks: seq<StatusCallback>, text: string): (ns: seq<Notice>)
    ensures |ns| == |callbacks|
    ensures forall i :: 0 <= i < |ns| ==> ns[i] == StatusNotice(callbacks[i], text)
  {
    seq(|callbacks|, i requires 0 <= i < |callbacks| => StatusNotice(callbacks[i], text))
  }

  /** One call of each echo subscriber with `bytes`, in order. */
  function EchoNotices(callbacks: seq<EchoCallback>, bytes: seq<byte>): (ns: seq<Notice>)
    ensures |ns| == |callbacks|
    ensures forall i :: 0 <= i < |ns| ==> ns[i] == EchoNotice(callbacks[i], bytes)
  {
    seq(|callbacks|, i requires 0 <= i < |callbacks| => EchoNotice(callbacks[i], bytes))
  }

  /** `status.set(text)`: the new status and one notice per subscriber. */
  function SetStatus(t: Terminal, text: string): (r: (Terminal, seq<Notice>))
    requires Valid(t)
    ensures Valid(r.0) && Get(r.0.status) == Some(text)
    ensures r.0 == t.(status := r.0.status) && r.0.status.callbacks == t.status.callbacks
    ensures r.1 == StatusNotices(t.status.callbacks, text)
  {
    var (o, calls) := Set(t.status, text);
    (t.(status := o), StatusNotices(calls, text))
  }

  /** `echo.set(bytes)`: the new echo value and one notice per subscriber. */
  function SetEcho(t: Terminal, bytes: seq<byte>): (r: (Terminal, seq<Notice>))
    requires Valid(t)
    ensures Valid(r.0) && Get(r.0.echo) == Some(bytes)
    ensures r.0 == t.(echo := r.0.echo) && r.0.echo.callbacks == t.echo.callbacks
    ensures r.1 == EchoNotices(t.echo.callbacks, bytes)
  {
    var (o, calls) := Set(t.echo, bytes);
    (t.(echo := o), EchoNotices(calls, bytes))
  }

  // ---------------------------------------------------------------------
  // connect and disconnect

  /** The port settings pyserial accepts when they are assigned to the
      port object: 5 to 8 data bits and one of the parities `N`, `E`,
      `O`, `M`, `S`. Any device name, any speed and the three stop-bit
      values are accepted at assignment; the open itself may still fail. */
  predicate LegalSettings(s: Settings)
  {
    && 5 <= s.databits <= 8
    && s.parity in ["N", "E", "O", "M", "S"]
  }

  /** The result of `connect`: the terminal, the status notices, the
      `connected` flag it returns, and whether it returned at all. */
  datatype ConnectResult = ConnectResult(term: Terminal, notices: seq<Notice>, connected: bool, ok: bool)

  /** `connect`: assigns the settings to the port, then opens it. An
      assignment pyserial rejects raises before the open is tried, with no
      status. Otherwise only an open that returns with the port open
      connects (and starts the listener); on failure `connected` is left
      as it was and an error status is set. The returned flag is
      `connected` afterwards. */
  function Connect(t: Terminal, outcome: OpenOutcome): (r: ConnectResult)
    requires Valid(t)
    ensures Valid(r.term)
    ensures r.ok <==> LegalSettings(t.settings)
    ensures !r.ok ==> r.term == t && r.notices == []
    ensures r.connected == r.term.connected
    ensures r.term.connected <==> (r.ok && outcome == Opened) || t.connected
    ensures r.ok && outcome == Opened ==> r.term.portOpen && r.term.hasListener
    ensures !(r.ok && outcome == Opened) ==> r.term.hasListener == t.hasListener
    ensures !(r.ok && outcome == Opened) ==> r.term.portOpen == (t.portOpen && (!r.ok || outcome.OpenRaised?))
    ensures r.term.settings == t.settings && r.term.sumType == t.sumType
    ensures r.term.rxQ == t.rxQ && r.term.written == t.written
    ensures r.ok ==> Get(r.term.status) == Some(match outcome
      case OpenRaised(m) => ErrorText(t.settings.device, m)
      case OpenedNotOpen => UnableText(t.settings.device)
      case Opened => ConnectedText(t.settings))
    ensures r.ok ==> r.notices == StatusNotices(t.status.callbacks, Get(r.term.status).value)
    ensures r.term.status.callbacks == t.status.callbacks && r.term.echo == t.echo
    ensures r.term.echoEnable == t.echoEnable && r.term.lfEnable == t.lfEnable && r.term.crEnable == t.crEnable
  {
    if !LegalSettings(t.settings) then ConnectResult(t, [], t.connected, false)
    else Open(t, outcome)
  }

  /** The `try` block of `connect`: the open, its status, and the
      listener start. */
  function Open(t: Terminal, outcome: OpenOutcome): (r: ConnectResult)
    requires Valid(t)
    ensures Valid(r.term) && r.ok
    ensures r.connected == r.term.connected
    ensures r.term == t.(status := r.term.status, portOpen := r.term.portOpen,
                         hasListener := r.term.hasListener, connected := r.term.connected)
    ensures outcome == Opened ==> r.term.portOpen && r.term.hasListener && r.term.connected
    ensures outcome != Opened ==> r.term.hasListener == t.hasListener && r.term.connected == t.connected
    ensures outcome != Opened ==> r.term.portOpen == (t.portOpen && outcome.OpenRaised?)
    ensures Get(r.term.status) == Some(match outcome
      case OpenRaised(m) => ErrorText(t.settings.device, m)
      case OpenedNotOpen => UnableText(t.settings.device)
      case Opened => ConnectedText(t.settings))
    ensures r.notices == StatusNotices(t.status.callbacks, Get(r.term.status).value)
    ensures r.term.status.callbacks == t.status.callbacks
  {
    var text := match outcome
      case OpenRaised(m) => ErrorText(t.settings.device, m)
      case OpenedNotOpen => UnableText(t.settings.device)
      case Opened => ConnectedText(t.settings);
    var isOpen := if outcome.OpenRaised? then t.portOpen else outcome == Opened;
    var (t1, ns) := SetStatus(t.(portOpen := isOpen), text);
    var t2 := if outcome == Opened then t1.(hasListener := true, connected := true) else t1;
    ConnectResult(t2, ns, t2.connected, true)
  }

  /** A data-bit size pyserial rejects makes `connect` raise before it
      touches the port or the status, whatever the open would have
      done. */
  lemma IllegalBitsRaise(t: Terminal, outcome: OpenOutcome)
    requires Valid(t) && t.settings.databits == 9
    ensures !Connect(t, outcome).ok && Connect(t, outcome).term == t
    ensures Connect(t, outcome).notices == []
  {
  }

  /** The result of `disconnect`: the terminal, the status notices, and
      whether it returned normally. It raises `AttributeError` when no
      listener thread was ever created. */
  datatype DisconnectResult = DisconnectResult(term: Terminal, notices: seq<Notice>, ok: bool)

  /** `disconnect`: clears `connected` first, then waits for the listener
      to finish, closes the port and reports it. */
  function Disconnect(t: Terminal): (r: DisconnectResult)
    requires Valid(t)
    ensures Valid(r.term)
    ensures !r.term.connected
    ensures r.ok <==> t.hasListener
    ensures r.ok ==> !r.term.portOpen && Get(r.term.status) == Some(ClosedText)
    ensures r.ok ==> r.notices == StatusNotices(t.status.callbacks, ClosedText)
    ensures !r.ok ==> r.term == t.(connected := false) && r.notices == []
    ensures r.term.settings == t.settings && r.term.hasListener == t.hasListener
    ensures r.term.rxQ == t.rxQ && r.term.written == t.written
    ensures r.term.status.callbacks == t.status.callbacks && r.term.echo == t.echo
    ensures r.term.sumType == t.sumType
    ensures r.term.echoEnable == t.echoEnable && r.term.lfEnable == t.lfEnable && r.term.crEnable == t.crEnable
  {
    var t1 := t.(connected := false);
    if !t1.hasListener then DisconnectResult(t1, [], false)
    else
      var (t2, ns) := SetStatus(t1.(portOpen := false), ClosedText);
      DisconnectResult(t2, ns, true)
  }

  /** Opening and then closing: connected in between, disconnected after,
      with the port closed and the two status messages reported in
      order. */
  lemma ConnectThenDisconnect(t: Terminal)
    requires Valid(t) && LegalSettings(t.settings)
    ensures var c := Connect(t, Opened);
      var d := Disconnect(c.term);
      && c.connected && d.ok && !d.term.connected && !d.term.portOpen
      && c.notices == StatusNotices(t.status.callbacks, ConnectedText(t.settings))
      && d.notices == StatusNotices(t.status.callbacks, ClosedText)
      && Get(d.term.status) == Some(ClosedText)
  {
  }

  /** Closing a terminal that never opened raises: no listener was
      started. */
  lemma DisconnectFresh(devices: seq<string>)
    ensures !Disconnect(Init(devices)).ok
    ensures Disconnect(Init(devices)).term == Init(devices)
  {
  }

  // ---------------------------------------------------------------------
  // The outbound frame

  /** The code points of a line of characters below 256, as bytes. */
  function Encode(line: string): (b: seq<byte>)
    requires forall i :: 0 <= i < |line| ==> line[i] as int < 256
    ensures |b| == |line|
    ensures forall i :: 0 <= i < |line| ==> b[i] == line[i] as int
  {
    seq(|line|, i requires 0 <= i < |line| => line[i] as int)
  }

  const CR: byte := 0x0D
  const LF: byte := 0x0A

  /** The payload with the enabled line terminators, CR before LF. */
  function Terminated(payload: seq<byte>, cr: bool, lf: bool): (b: seq<byte>)
    ensures |b| == |payload| + (if cr then 1 else 0) + (if lf then 1 else 0)
    ensures b[..|payload|] == payload
    ensures cr ==> b[|payload|] == CR
    ensures lf ==> b[|b| - 1] == LF
  {
    payload + (if cr then [CR] else []) + (if lf then [LF] else [])
  }

  /** The frame `talk` writes: the payload, CR and LF if enabled, then the
      checksum byte of everything before it, if a checksum is selected. */
  function Frame(payload: seq<byte>, cr: bool, lf: bool, sum: SumType): (f: seq<byte>)
    ensures var b := Terminated(payload, cr, lf);
      && |f| == |b| + (if sum == NoSum then 0 else 1)
      && f[..|b|] == b
      && (sum == ModSum ==> f[|b|] == SumMod(b) && Sum(f) % 256 == 0)
      && (sum == XorSum ==> f[|b|] == XorOf(b) && XorOf(f) == 0)
  {
    var b := Terminated(payload, cr, lf);
    match sum
    case NoSum => b
    case ModSum =>
      ModFrameSumsToZero(b);
      assert (b + [SumMod(b)])[..|b|] == b;
      b + [SumMod(b)]
    case XorSum =>
      XorFrameIsZero(b);
      assert (b + [XorOf(b)])[..|b|] == b;
      b + [XorOf(b)]
  }

  /** The receiving side of a frame: checks the checksum and the line
      terminators and gives back the payload, or `None` if the frame is
      not one `Frame` can produce with these options. */
  function Unframe(f: seq<byte>, cr: bool, lf: bool, sum: SumType): (r: Option<seq<byte>>)
    ensures r.Some? ==> |r.value| <= |f|
  {
    var n := if sum == NoSum then 0 else 1;
    var k := (if cr then 1 else 0) + (if lf then 1 else 0);
    if |f| < n + k then None
    else
      var b := f[..|f| - n];
      var p := b[..|b| - k];
      var sumOk := match sum
        case NoSum => true
        case ModSum => Sum(f) % 256 == 0
        case XorSum => XorOf(f) == 0;
      if sumOk && b == Terminated(p, cr, lf) then Some(p) else None
  }

  /** A frame reads back as its payload. */
  lemma UnframeFrame(payload: seq<byte>, cr: bool, lf: bool, sum: SumType)
    ensures Unframe(Frame(payload, cr, lf, sum), cr, lf, sum) == Some(payload)
  {
    var f := Frame(payload, cr, lf, sum);
    var b := Terminated(payload, cr, lf);
    var n := if sum == NoSum then 0 else 1;
    assert f[..|f| - n] == b;
    assert b[..|b| - (|b| - |payload|)] == payload;
  }

  /** Only frames pass the check: whatever `Unframe` accepts is exactly
      the frame of the payload it returns. */
  lemma UnframeOnlyFrames(f: seq<byte>, cr: bool, lf: bool, sum: SumType)
    requires Unframe(f, cr, lf, sum).Some?
    ensures Frame(Unframe(f, cr, lf, sum).value, cr, lf, sum) == f
  {
    var p := Unframe(f, cr, lf, sum).value;
    var n := if sum == NoSum then 0 else 1;
    var b := f[..|f| - n];
    assert b == Terminated(p, cr, lf);
    match sum
    case NoSum =>
      assert f == b;
    case ModSum =>
      assert f == b + [f[|f| - 1]];
      SumModUnique(b, f[|f| - 1]);
    case XorSum =>
      assert f == b + [f[|f| - 1]];
      XorFrameCheck(b, f[|f| - 1]);
  }

  /** With a checksum selected, changing any single byte of a frame to
      another value makes the check fail. */
  lemma ChecksumDetectsOneByte(payload: seq<byte>, cr: bool, lf: bool, sum: SumType, i: nat, v: byte)
    requires sum != NoSum
    requires i < |Frame(payload, cr, lf, sum)| && v != Frame(payload, cr, lf, sum)[i]
    ensures Unframe(Frame(payload, cr, lf, sum)[i := v], cr, lf, sum) == None
  {
    var f := Frame(payload, cr, lf, sum);
    if sum == ModSum {
      SumDetectsOneByte(f, i, v);
    } else {
      XorDetectsOneByte(f, i, v);
    }
  }

  // ---------------------------------------------------------------------
  // talk

  /** Every character of the line has a code point below 256, as `bytes`
      requires. */
  predicate Latin1(line: string)
  {
    forall i :: 0 <= i < |line| ==> line[i] as int < 256
  }

  /** `talk`: when connected, builds the frame from the line and the
      current options, echoes it if echo is on, and writes it; otherwise
      only reports that it is not connected. */
  function Talk(t: Terminal, line: string): (r: (Terminal, seq<Notice>))
    requires Valid(t)
    requires t.connected ==> Latin1(line)
    ensures Valid(r.0)
    ensures t.connected ==> var f := Frame(Encode(line), t.crEnable, t.lfEnable, t.sumType);
      && r.0.written == t.written + [f]
      && (t.echoEnable ==> Get(r.0.echo) == Some(f) && r.1 == EchoNotices(t.echo.callbacks, f))
      && (!t.echoEnable ==> r.1 == [] && r.0.echo == t.echo)
      && r.0.status == t.status
    ensures !t.connected ==> (&& r.0.written == t.written && r.0.echo == t.echo
      && Get(r.0.status) == Some(NotConnectedText) && r.1 == StatusNotices(t.status.callbacks, NotConnectedText))
    ensures r.0.connected == t.connected && r.0.rxQ == t.rxQ && r.0.settings == t.settings
    ensures r.0.sumType == t.sumType && r.0.hasListener == t.hasListener && r.0.portOpen == t.portOpen
    ensures r.0.echoEnable == t.echoEnable && r.0.lfEnable == t.lfEnable && r.0.crEnable == t.crEnable
    ensures r.0.status.callbacks == t.status.callbacks && r.0.echo.callbacks == t.echo.callbacks
  {
    if t.connected then
      var f := Frame(Encode(line), t.crEnable, t.lfEnable, t.sumType);
      var (t1, ns) := if t.echoEnable then SetEcho(t, f) else (t, []);
      (t1.(written := t.written + [f]), ns)
    else
      SetStatus(t, NotConnectedText)
  }

  /** What `talk` echoes is exactly what it writes, and what it writes
      reads back as the line. */
  lemma TalkEchoesWritten(t: Terminal, line: string)
    requires Valid(t) && t.connected && t.echoEnable && Latin1(line)
    ensures var (t', ns) := Talk(t, line);
      && |t'.written| == |t.written| + 1
      && (forall n :: n in ns ==> n == EchoNotice(OnEcho, t'.written[|t.written|]))
      && Unframe(t'.written[|t.written|], t.crEnable, t.lfEnable, t.sumType) == Some(Encode(line))
  {
    var (t', ns) := Talk(t, line);
    var f := Frame(Encode(line), t.crEnable, t.lfEnable, t.sumType);
    assert t'.written[|t.written|] == f;
    UnframeFrame(Encode(line), t.crEnable, t.lfEnable, t.sumType);
    forall n | n in ns
      ensures n == EchoNotice(OnEcho, f)
    {
      var i :| 0 <= i < |ns| && ns[i] == n;
      assert n == EchoNotice(t.echo.callbacks[i], f);
    }
  }

  // ---------------------------------------------------------------------
  // The listener thread, as environment steps

  /** The listener puts a chunk it read on the receive queue; it reads
      only while connected and the port is open. */
  function Receive(t: Terminal, chunk: seq<byte>): (t': Terminal)
    requires t.connected && t.portOpen && |chunk| > 0
    ensures |t'.rxQ| == |t.rxQ| + 1 && t'.rxQ[..|t.rxQ|] == t.rxQ && t'.rxQ[|t.rxQ|] == chunk
    ensures t' == t.(rxQ := t'.rxQ)
  {
    t.(rxQ := t.rxQ + [chunk])
  }

  /** The listener's loop ends once `connected` is cleared or the port
      reports closed, and it clears `connected`; it never touches the
      port. */
  function ListenerExit(t: Terminal): (t': Terminal)
    requires t.hasListener && !(t.connected && t.portOpen)
    ensures !t'.connected && t'.portOpen == t.portOpen
    ensures t' == t.(connected := false)
  {
    t.(connected := false)
  }
}
