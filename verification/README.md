# bt3 serial terminal, modelled in Dafny

bt3 is a small Tk serial terminal. A line typed in the entry box is
decoded (escape sequences), optionally terminated with CR and/or LF,
optionally followed by a one-byte checksum (two's-complement "mod" sum or
XOR sum), echoed locally and written to the serial port. Bytes received
by a listener thread are queued and drained by a periodic update that
shows them as a hex dump or as ASCII text. Status messages and the local
echo reach the presenter through `Observable` cells; the Up and Down keys
walk an `EntryHistory`.

The model covers the core of `support.py` and `bt3.py`:

- `wrappers.dfy` — `Option` and `Result`.
- `checksum.dfy` (`Checksum`) — the byte sum, `sum_mod`, XOR on naturals
  and `sum_xor` (as the source's loop and as a fold), with the check
  properties the checksums exist for: the check byte is the unique byte
  that makes the frame check out, and any single corrupted byte is
  detected.
- `formatting.dfy` (`Formatting`) — `%X`, `%0NX` and `%d` as digit
  strings, with round trips back to the number.
- `hexdump.dfy` (`HexDump`) — `achr` and `hex_dump`, down to the column
  layout of each row, with a decoder that reads a row's bytes back.
- `history.dfy` (`History`) — `EntryHistory`, including `next` as written
  (which can raise `IndexError`) and the corrected `next`.
- `observable.dfy` (`Observables`) — `Observable`: the value cell and its
  subscriber registry, with `set` returning the subscribers it calls.
- `session.dfy` (`Session`) — `Terminal`: the settings, the checksum and
  line-ending flags, `connect` (including the exception pyserial raises
  for a setting it rejects), `disconnect`, `talk` (frame building) and
  the listener thread as environment steps. The status and echo callbacks become
  `Notice` values returned to the caller.
- `presenter.dfy` (`Presenter`) — `TermPresenter` and the bindings the
  `TermInteractor` installs: every handler as a function on a
  `Presenter` state (terminal, view variables, output lines, history,
  `active` flag). A Tk variable's trace runs its handler synchronously
  when the variable is written, so writing a toggle from inside a handler
  is modelled as mutual recursion (`WriteModVar` calls `OnMod`, and so
  on). An `Event` type lists the user's and the listener's actions, and
  `Step`/`Replay` run them. `Inv` says the view agrees with the terminal.
  Every event preserves it except one: setting the open toggle while the
  configuration holds settings pyserial rejects. Then `connect` raises
  inside `on_connect`, the presenter never becomes active again, and the
  guarded handlers ignore their toggles from then on (`Stuck`).

Bytes are integers in 0..255, and XOR is defined arithmetically bit by
bit. Python exceptions are modelled as results: `History.Next` returns a
`Result`, `Session.Disconnect` reports `ok == false` when there is no
listener thread to join (an `AttributeError` in the source),
`Session.Connect` reports `ok == false` when assigning the settings to
the port raises, and `Presenter.OnEntry` returns true exactly when no
exception escaped the handler.

## Model

| member | source | states |
|---|---|---|
| Checksum.SumMod | support.py:117-122 | appending the returned byte makes the byte sum a multiple of 256, and the byte is 0 exactly when the sum already is one (the `d > 255` wrap) |
| Checksum.SumModUnique | support.py:117-122 | the `sum_mod` byte is the only byte that makes the sum a multiple of 256, in both directions |
| Checksum.ModFrameSumsToZero | support.py:117-122 | a frame followed by its `sum_mod` byte sums to 0 modulo 256 |
| Checksum.SumDetectsOneByte | support.py:117-122 | changing any one byte of a frame whose sum is 0 modulo 256 makes the sum non-zero |
| Checksum.SumXor | support.py:125-130 | the loop returns the XOR of all the bytes in order, and 0 for no bytes |
| Checksum.XorBound | support.py:125-130 | the XOR of two values below 2^k stays below 2^k, so `sum_xor` of bytes is a byte |
| Checksum.XorAssoc | support.py:128-129 | XOR is associative, so the loop's left-to-right order does not matter |
| Checksum.XorAppend | support.py:125-130 | `sum_xor` of a concatenation is the XOR of the parts' sums |
| Checksum.XorFrameCheck | support.py:125-130 | a frame followed by byte c XORs to 0 exactly when c is `sum_xor` of the frame |
| Checksum.XorFrameIsZero | support.py:125-130 | a frame followed by its `sum_xor` byte XORs to 0 |
| Checksum.XorDetectsOneByte | support.py:125-130 | changing any one byte of a frame whose XOR is 0 makes the XOR non-zero |
| Formatting.DigitsRoundTrip | support.py:111 | the digits of n in any base from 2 to 16 read back as n |
| Formatting.HexRoundTrip | support.py:111 | `%0NX` gives at least N upper-case hex digits, which read back as the number |
| Formatting.HexWidth | support.py:111 | `%04X` and `%02X` give exactly 4 and 2 digits when the number fits |
| Formatting.DecRoundTrip | bt3.py:105-109 | `%d` gives decimal digits that read back as the number |
| HexDump.Achr | support.py:95-101 | bytes strictly between 32 and 126 map to their own character and every other byte to '.', so the result is always printable |
| HexDump.HexFieldIsHex | support.py:111 | each byte's field is its `%02X` digits followed by a space |
| HexDump.Dump | support.py:104-114 | the dump is empty exactly when there are no bytes |
| HexDump.DumpIsRows | support.py:104-114 | the dump is the concatenation of ceil(n/16) rows, row k showing bytes 16k up to 16k+16 at offset 16k |
| HexDump.DumpNewlines | support.py:104-114 | the dump holds exactly one newline per row |
| HexDump.RowNewlines | support.py:111 | a row holds exactly one newline |
| HexDump.StripHexFields | support.py:111 | `strip` of the joined byte fields removes exactly the single trailing space |
| HexDump.HexColumnIsJustified | support.py:111 | the hex column as the model lays it out equals join, strip, then `ljust(56)` |
| HexDump.HexColumnLayout | support.py:111 | for 1 to 16 bytes the hex column is 56 characters wide: byte j's digits at 3j, a space between fields, spaces after the last |
| HexDump.RowLayout | support.py:111 | a row is the offset in at least four hex digits that read back as the offset, two spaces, the hex column, the ASCII column of `achr` characters, and a newline |
| HexDump.RowRoundTrip | support.py:111 | the hex column of a row decodes back to exactly the row's bytes |
| HexDump.SixteenBytesOneRow | support.py:104-114 | sixteen bytes give exactly one row, at offset `0000` |
| History.Init | support.py:69-71 | a fresh history holds only the empty placeholder, with the cursor on it |
| History.Add | support.py:73-75 | `add` appends the entry, keeps the earlier entries, and puts the cursor one past the new entry |
| History.Previous | support.py:77-80 | `previous` moves the cursor one back unless it is at 0 and returns the entry now under it |
| History.Next | support.py:82-85 | `next` as written fails exactly when the cursor is past the end; otherwise it moves one forward unless on the newest entry and returns the entry under it |
| History.Last | support.py:87-91 | `last` is the newest entry once the cursor is off 0, and the empty line otherwise |
| History.AddThenPrevious | support.py:73-80 | Up right after a submission recalls that submission |
| History.AddThenNextFails | support.py:73-85 | Down right after any submission reads past the end of the list |
| History.FreshAddThenNextFails | support.py:69-85 | the smallest instance: `add("a")` on a fresh history, then `next`, fails |
| History.NextFixed | support.py:82-85 | the corrected `next` returns the empty line and keeps the cursor past the end, and agrees with `next` everywhere else |
| History.AddThenNextFixed | support.py:73-85 | after a submission the corrected `next` changes nothing and returns the empty line |
| History.PreviousThenNext | support.py:77-85 | after Up, `next` as written cannot fail |
| History.ReplayAppends | support.py:67-91 | the history is append-only: after any key presses, with Down using `next` as written and a raising `next` changing nothing, it holds the earlier entries followed by exactly the submissions, in order |
| History.ReplayFromInit | support.py:67-91 | from a fresh history the entries are the placeholder followed by the submissions, and the cursor stays within bounds |
| Observables.New | support.py:29-32 | a fresh cell has no value and no subscribers |
| Observables.AddCallback | support.py:40-42 | `addCallback` registers a subscriber once; one already registered keeps its place; the value is untouched |
| Observables.AddCallbackIdempotent | support.py:40-42 | adding a subscriber twice is the same as adding it once, and it is registered exactly once |
| Observables.DelCallback | support.py:44-47 | `delCallback` leaves the subscriber unregistered, adds no one, and keeps the value |
| Observables.DelCallbackKeepsOthers | support.py:44-47 | after `delCallback(f)` a subscriber is registered exactly when it was before and is not f |
| Observables.DelCallbackInverse | support.py:40-47 | deleting an unregistered subscriber changes nothing, and deleting right after adding a new one restores the cell |
| Observables.Set | support.py:53-56 | `set` stores the value and keeps the subscribers |
| Observables.SetCallsEachOnce | support.py:49-56 | `set` calls every registered subscriber exactly once and no one else |
| Observables.GetAfterSet | support.py:53-64 | `get` returns the value last set, also after subscribers change, and `None` after `unset` |
| Observables.Unset | support.py:62-64 | `unset` clears the value and keeps the subscribers |
| Session.StopBitsInt | bt3.py:105-109 | `%d` of the stop bits is 2 for two stop bits and 1 otherwise, 1.5 truncating to 1 |
| Session.Init | bt3.py:47-76 | the default settings (first device or '', 38400, 8, 'N', 1), mod checksum, echo on, no CR or LF, disconnected, empty queue, fresh observables |
| Session.Connect | bt3.py:91-118 | a data-bit size or parity pyserial rejects raises before the open, leaving the terminal as it was with no status; otherwise the result is connected exactly when the port opened or it already was, opening starts the listener, the port is closed after an open that returned closed and as before after an open that raised, and the status (error, connected or unable text) is announced to every status subscriber; the settings, flags, queues and echo are unchanged |
| Session.Open | bt3.py:99-118 | the `try` block: the status for each open outcome, announced to each subscriber, and only the status, port, listener and connected fields change |
| Session.IllegalBitsRaise | bt3.py:91-96 | with nine data bits `connect` raises whatever the open would do, with no status and no change |
| Session.Disconnect | bt3.py:121-125 | disconnected in any case; with a listener it closes the port and announces that the device closed; without one it raises after clearing `connected` only |
| Session.ConnectThenDisconnect | bt3.py:91-125 | with accepted settings, opening then closing ends disconnected with the port closed, after announcing the connected and then the closed message |
| Session.DisconnectFresh | bt3.py:121-123 | closing a terminal that never opened raises, leaving it as it was |
| Session.Encode | bt3.py:130 | each character below 256 becomes the byte of its code point |
| Session.Terminated | bt3.py:132-135 | the payload followed by CR if enabled and then LF if enabled |
| Session.Frame | bt3.py:128-140 | the terminated payload followed by its mod or XOR check byte, or by nothing |
| Session.UnframeFrame | bt3.py:128-140 | removing terminators and check byte from a frame gives back the payload |
| Session.UnframeOnlyFrames | bt3.py:128-140 | every byte string the unframer accepts is the frame of what it returns |
| Session.ChecksumDetectsOneByte | bt3.py:137-140 | with a checksum selected, a frame with any one byte changed is rejected |
| Session.Talk | bt3.py:128-147 | connected: the frame is written and, with echo on, echoed to every echo subscriber; disconnected: nothing is written and "Not connected." is announced; the settings and flags are untouched |
| Session.TalkEchoesWritten | bt3.py:142-145 | what is echoed is exactly what is written, and it unframes to the encoded line |
| Session.Receive | bt3.py:79-86 | the listener appends each chunk it reads to the end of the receive queue and changes nothing else |
| Session.ListenerExit | bt3.py:82-88 | the loop ends only once it is not both connected and open; then `connected` is cleared and the port is left as it was |
| Presenter.Init | bt3.py:152-189 | the toggles start from the terminal's flags and checksum, the configuration selection is the terminal's settings and is editable, the view is hex, the presenter is subscribed once to status and echo, it is inactive, and nothing is shown |
| Presenter.InitRunInv | bt3.py:151-195 | after `run` the presenter satisfies the view/terminal invariant: active, subscribed once, checksum, CR, LF and echo toggles matching the terminal, configuration editable with the open toggle clear |
| Presenter.StatusOutput | bt3.py:203-204 | a status is shown in green as the text between `\n#STATUS: ` and a newline |
| Presenter.AsciiDecode | bt3.py:211-214 | decoding succeeds exactly when every byte is below 128, giving the same code points; otherwise the error names the first offending byte and its position |
| Presenter.PutLine | bt3.py:207-214 | hex view shows the hex dump; ASCII view shows the decoded text, or the decoding error in the status colour |
| Presenter.OnMod | bt3.py:284-292 | active: enabling selects the mod checksum and clears the XOR toggle without re-entering; disabling selects none; inactive: nothing |
| Presenter.OnXor | bt3.py:295-303 | active: enabling selects the XOR checksum and clears the mod toggle; disabling selects none; inactive: nothing |
| Presenter.OnConnect | bt3.py:263-282 | inactive: nothing. Enabling copies the view's settings and connects, shows the status notices; if `connect` raised it stays inactive with the view unchanged; if the port did not open the open toggle is cleared; if it connected the configuration is disabled; the terminal is left exactly as `connect` left it. Disabling disconnects; if that returned, configuration is enabled, and if it raised the presenter stays inactive; the terminal is left as `disconnect` left it |
| Presenter.Connecting | bt3.py:266-276 | the enabling branch, entered inactive, as described for `OnConnect` |
| Presenter.Disconnecting | bt3.py:277-282 | the disabling branch, entered inactive, as described for `OnConnect` |
| Presenter.OnEntry | bt3.py:230-235 | the entry is added to the history first; an exception escapes exactly for a non-ASCII entry or an unencodable line while connected; a decode error is shown as a status; otherwise the line is talked and the notices shown |
| Presenter.OnEntryUp | bt3.py:237-239 | the entry box shows the history's previous entry |
| Presenter.OnEntryDown | bt3.py:242-244 | the entry box shows the history's next entry, and stays cleared with the history unchanged when `next` raises |
| Presenter.OnUpdate | bt3.py:217-223 | each update shows at most the oldest received chunk, in black |
| Presenter.TicksDrainInOrder | bt3.py:217-223 | n updates remove the n oldest chunks and show them in arrival order |
| Presenter.StepInv | bt3.py:251-303 | an event keeps the invariant (active, checksum toggles equal to the selected checksum, CR, LF and echo toggles equal to the flags, configuration enabled exactly when the open toggle is clear) exactly when it is not a click setting the open toggle with rejected settings, and that click leaves the presenter stuck |
| Presenter.ClickOpenInv | bt3.py:263-281 | the open-toggle case of `StepInv` |
| Presenter.ConnectingInv | bt3.py:266-276 | setting the open toggle keeps the invariant exactly when the settings are accepted, and otherwise leaves the presenter stuck |
| Presenter.StuckStep | bt3.py:263-303 | once `connect` has raised inside `on_connect`, every later event leaves the presenter inactive and disconnected, with the unguarded echo toggle still matching the echo flag |
| Presenter.ReplayInv | bt3.py:284-303 | after any events the presenter satisfies the invariant or is stuck, so while it is active the mod and XOR toggles are never both set |
| Presenter.SelectionStep | bt3.py:263-270 | only a `Configure` event changes the view's settings; connecting copies them without changing them |
| Presenter.LegalReplayInv | bt3.py:263-303 | if the view's settings and every configured setting are accepted, the invariant holds after any events |
| Presenter.Reachable | bt3.py:307-366 | every state reachable from a running presenter satisfies the invariant or is stuck, and satisfies the invariant when every configured setting is accepted |
| Presenter.IllegalBitsStick | bt3.py:263-292 | configuring nine data bits and setting the open toggle leaves the presenter stuck with no status and the open toggle set; a later click clears the modulo toggle while the modulo checksum stays selected |
| Presenter.EnterEchoesFrame | bt3.py:226-235 | submitting while connected with echo on shows the hex dump of the written frame in red |
| Presenter.EnterNotConnected | bt3.py:146-147 | submitting while disconnected shows only the "Not connected." status |
| Presenter.EnterFollowsToggles | bt3.py:251-260 | while connected, a submitted line is framed with the CR, LF and checksum the toggles show, and echoed exactly when the echo toggle is set |
| Presenter.ClickEchoFollows | bt3.py:259-260 | `on_echo_enable` has no `active` guard: a click flips the echo toggle and copies it to the terminal's echo flag, active or not, changing nothing else |
| Presenter.ConnectThenEnterEchoes | bt3.py:142-145 | right after start, opening the port keeps echo on, and a submitted line is written once and echoed once as a red hex dump of the written frame |
| Presenter.EnterThenUpRecalls | bt3.py:230-239 | Up right after Enter brings back the submitted line |
| Presenter.EnterThenDownClears | bt3.py:230-244 | Down right after Enter hits the `IndexError`: the box is left empty and the history unchanged |

## Left out

- The Tk widgets themselves (`termview.py`) and `setup.py`: only the view variables the presenter reads and writes are modelled.
- Serial I/O, threads and timing: the port's `open` outcome is a parameter of `Connect`, and the listener thread's reads and exit are `Receive` and `ListenerExit` events.
- Port enumeration through `list_ports.comports()` is reduced to a list of device names given to `Init`.
- The `unicode_escape` codec is not modelled: `OnEntry` receives its result, the decoded line or the error message, as a parameter.
- `get_timecode` (support.py:133-135) reads the clock and is not used by the core.
- The pickling hooks of `Observable` (support.py:34-38) only concern serialisation.
- The callbacks' own effects are not run by `Observables.Set`: it returns the subscribers to call, and the presenter turns the notices into output lines.
- Validation of the Tk variables' contents (a non-integer speed in a combobox) is not modelled: the selection is a `Settings` value.
- pyserial is not part of this model. Session.LegalSettings states its checks on the assigned attributes as this model takes them: 5 to 8 data bits and a parity among N, E, O, M, S. Speeds and device names are taken as accepted at assignment, and a failure to open them is an `OpenRaised` outcome.
- Session.StopBits has only the three values 1, 1.5 and 2. The stop-bits combobox is editable (termview.py:57, 124), so a typed value such as 3 would make the assignment at bt3.py:96 raise like nine data bits do; that input is not modelled, and `Session.LegalSettings` does not speak of stop bits.
- The listener thread dying from an exception in a read (a device unplugged) is not modelled; the listener's only exit is `ListenerExit`.
- `on_view` (bt3.py:247-248) only switches the view mode, the `SelectView` event.
- Flow control is never applied by the source (bt3.py:97) and is not modelled.
- Session.Talk: requires that the line's characters fit in a byte when connected; the source raises there, and `Presenter.OnEntry` models that case as an escaping exception.
- Session.Talk: assumes the port write returns. A write that raises (bt3.py:145) would come after the echo had been shown, write nothing, and escape `on_entry`, leaving the entry box uncleared. That path is not modelled, so `Session.TalkEchoesWritten` and the Enter lemmas speak only of writes that return.
- Presenter.OnLf, Presenter.OnCr and Presenter.OnEchoEnable carry no contract of their own; what they set is stated by `Presenter.EnterFollowsToggles` and `Presenter.ClickEchoFollows` and kept by `Presenter.StepInv`.
- Presenter.Run carries no contract of its own; `Presenter.InitRunInv` states the state it produces.

## Findings

| source | as written | input that shows it | evidently intended | confidence | as-written member | corrected member |
|---|---|---|---|---|---|---|
| support.py:73-85 | `add` leaves the cursor at `len(history)`, and `next` then reads `history[len(history)]`, raising `IndexError` | `h = EntryHistory(); h.add('a'); h.next()` | past the newest entry `next` keeps the cursor and returns `''`; `on_entry_down` has already cleared the box, so the box should simply stay empty | high, not executed | History.Next, History.FreshAddThenNextFails | History.NextFixed, History.AddThenNextFixed |

The presenter and `History.Replay` model the program as it is, so they
use `next` as written; `History.NextFixed` sits beside it with its
properties proved. `Presenter.EnterThenDownClears` shows the
user-visible effect: the entry box is left empty and Tk reports an
exception.
