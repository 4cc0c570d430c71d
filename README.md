# mouse_kvm in Dafny

A model of the core of mouse_kvm, a small daemon that turns the buttons and
wheel of a spare mouse into commands for a Dell monitor's built-in KVM switch.

- **Event decoding** (module `EventCodec`, `event_codec.dfy`). A raw Linux
  `input_event` block is decoded into an `Event`: a microsecond timestamp,
  type, code and value. Any block whose length is not the packed size of
  `"llHHI"` (24 bytes on LP64 Linux) is rejected.
- **Gesture rules** (module `Gestures`, `gestures.dfy`). These are values and
  functions over the buffer of key events:
  - the signed key list given by `keys_sequence`;
  - the held-key list given by `keys_pressed`, replayed with Python's
    dictionary order;
  - the leading same-code run counted by `flush_events`;
  - its click loop;
  - the pending flag;
  - the SEQ branch;
  - the wheel direction;
  - lemmas about all of these.
- **The engine** (module `Mouse`, `mouse.dfy`). `MouseEventManager` is a
  class whose fields are updated in place:
  - `buffer` is `self.seq` in mouse.py;
  - `hasPendingMulticlick` is the pending flag;
  - `hasHandler` says whether a handler is installed;
  - `emitted` records every gesture handed to the handler;
  - `nonBlocking` is the device's O_NONBLOCK state.

  Each method is proved equal to the functions of `Gestures` on the old state.
  `HasPendingSequence` is the plain getter for the pending flag. `PollStep` is
  the part of one `event_loop` turn that runs after the read: a flush with the
  current time, then the decision whether to flip O_NONBLOCK.
- **Strings** (module `Text`, `text.dfy`). These are the Python string
  operations the ddcutil wrapper relies on: `lower()` on ASCII, `in` on
  strings, `split(sep)` and `join`.
- **The ddcutil wrapper** (module `Ddcutil`, `ddcutil.dfy`). It covers
  `to_hex_string`, the retry-and-raise policy of `exec_cmd` and the row loop of
  `get_vcp`. The command is never run: the results of its successive runs are
  an input sequence.

Two behaviours of the code are modelled exactly as written.

- Four events of one key (press, release, press, release) inside the window,
  followed by a flush after the window, give a single `CLICK(code, 2)`. They do
  not give a count-1 click (`Gestures.DoubleClickAfterTimeout`). Because the
  scan caps `n_consecutive` at `2 * max_clicks`, the click loop emits at most
  one click per flush (`Gestures.ClickLoopClosedForm`).
- The pending flag is set after a flush that emitted a whole expired run and
  left the buffer empty. Both sides of `n_consecutive == len(self.seq)` are 0
  then. The next flush clears the flag again.

The docstring of `to_hex_string` promises "0x" followed by `[0-9a-f]`
characters. The code never checks the digits: `"zz"` becomes `"0xzz"`. The
model follows the code, so `IsHexForm` promises only the "0x" prefix and the
absence of upper-case letters.

In `get_vcp`, a short row raises `IndexError`. This is not a `RuntimeError`,
so it escapes `get_vcp`. The model returns `Failure(IndexError)` for it.

## Model

| member | source | states |
|---|---|---|
| EventCodec.Decode | mouse.py:24-31 | a block is accepted iff its length is the packed size 24; otherwise it fails with the offending data; on success type, code and value are the unpacked fields and the time is tv_sec * 1000000 + tv_usec |
| EventCodec.DecodePack | mouse.py:25-29 | decoding the packed image of any in-range field tuple succeeds with exactly those fields and the combined microsecond time |
| EventCodec.DecodeRejectsWrongLength | mouse.py:30-31 | every block of another length is rejected with that block as the error's data |
| EventCodec.Unpack | mouse.py:26-28 | reads the two signed longs, two unsigned shorts and unsigned int of the block at their LP64 offsets; every field is in the range of its C type |
| EventCodec.UnpackPack | mouse.py:26-28 | unpacking the little-endian "llHHI" image of in-range fields returns those fields |
| EventCodec.LittleEndianRoundTrip | mouse.py:26-27 | reading n little-endian bytes written from x < 256^n gives back x |
| Gestures.SignedCodes | mouse.py:101-103 | the comprehension over the buffer, one signed code per event; the result is as long as the buffer |
| Gestures.SignedCodesAt | mouse.py:101-103 | the key sequence has one entry per buffered event, +code for a press and -code otherwise, in buffer order |
| Gestures.PressStep | mouse.py:111-115 | one turn of the dict loop: a press appends its code unless it is already present (a dict keeps the old position), any other value removes it |
| Gestures.PressedKeys | mouse.py:110-116 | the dict loop as a left fold of PressStep over the buffer; its properties are PressedKeysNoDuplicates and PressedKeysMembership |
| Gestures.PressedKeysNoDuplicates | mouse.py:110-116 | the held-key list never lists a code twice |
| Gestures.PressedKeysMembership | mouse.py:110-116 | code c is held iff the last buffered event with code c is a press |
| Gestures.LeadingRun | mouse.py:69-73 | the scan's count is at most the window length, every counted event has the front code, and the event after the count does not |
| Gestures.RunLength | mouse.py:69-73 | n_consecutive: the leading run of front-code events within seq[: 2 * max_clicks]; its properties are RunLengthBounds and RunLengthWhole |
| Gestures.RunLengthBounds | mouse.py:69-73 | n_consecutive is at most min(len(seq), 2 * max_clicks), at least 1 when the limit is positive, and covers only front-code events |
| Gestures.RunLengthWhole | mouse.py:69-73 | the run covers the whole buffer iff the buffer fits in the limit and every event has the front code |
| Gestures.ClickLoop | mouse.py:74-83 | the while loop: emit CLICK(front code, min(max_clicks, nc // 2)) and drop 2n events while the run is closed, stopping at n == 0; its behaviour is ClickLoopClosedForm |
| Gestures.ClickLoopClosedForm | mouse.py:74-83 | with n_consecutive capped at 2 * max_clicks, the loop emits one CLICK(front code, nc / 2) and drops exactly the first 2 * (nc / 2) events when the run is closed and nc >= 2; otherwise it emits nothing and leaves the buffer unchanged |
| Gestures.FullRunWithinWindowWaits | mouse.py:74-77 | a run that fills the buffer and is still inside the window emits no click and leaves the buffer unchanged |
| Gestures.ClickStage | mouse.py:67-85 | the flag reset, the scan, the click loop and `n_consecutive == len(self.seq)` when more than one event is buffered; nothing otherwise; its properties are ClickStageSound and FlushPending |
| Gestures.ClickStageSound | mouse.py:67-85 | the click stage emits at most one gesture, a CLICK on the front code with count in 1..max_clicks; it removes exactly twice the count from the front, keeps the rest in order, and removes no more than the initial run |
| Gestures.Flush | mouse.py:61-93 | the click stage followed by the SEQ branch, which emits the signed list and empties the buffer; its properties are FlushSequence, FlushShape and FlushPending |
| Gestures.FlushShortBuffer | mouse.py:67-68 | with at most one buffered event a flush emits nothing, keeps the buffer and clears the pending flag |
| Gestures.FlushPending | mouse.py:67-85 | after a flush the pending flag is set iff the buffer held more than one event, at most 2 * max_clicks of them, all with one code |
| Gestures.FlushSequence | mouse.py:87-93 | a SEQ is emitted, last and carrying the signed key list, and the buffer emptied, iff after the click loop more than one event remains, no key is held and the window has elapsed since the front event; otherwise the click stage's result stands |
| Gestures.FlushShape | mouse.py:61-93 | one flush emits at most a CLICK on the front code, with count in 1..max_clicks, then at most a SEQ that empties the buffer; the buffer loses only a prefix, two events per click counted |
| Gestures.FlushKeepsKeyValues | mouse.py:61-93 | a flush keeps every buffered value a press or a release |
| Gestures.DoubleClickAfterTimeout | mouse.py:68-85 | press, release, press, release inside the window, flushed after it with max_clicks = 2, gives exactly [CLICK(5, 2)], an empty buffer and a set pending flag |
| Gestures.SingleClickClosesAtTimeout | mouse.py:74-85 | one press and release flushed after the window give one CLICK(code, 1), an empty buffer and a set pending flag; inside the window they give nothing and set the pending flag |
| Gestures.ChordEmitsSequence | mouse.py:87-93 | press a, press b, release a, release b of two distinct keys, flushed after the window, give exactly [SEQ([a, b, -a, -b])] and an empty buffer |
| Gestures.WheelDirection | mouse.py:129 | the wheel direction is always +1 or -1 |
| Gestures.WheelDirectionIsSign | mouse.py:129 | for a 32-bit value the direction is -1 iff bit 31 is set (the value read as signed is negative), +1 otherwise |
| Mouse.DecideMode | mouse.py:155-157 | after the decision the mode is non-blocking iff a sequence is pending, and it is flipped iff it differed |
| Mouse.DecideModeSettles | mouse.py:155-157 | deciding again with the same pending flag never flips the mode a second time |
| Mouse.CountConsecutive | mouse.py:69-73 | the scan loop returns the run length of the specification: bounded by min(limit, len), only front-code events counted, and the run stops at the first other code |
| Mouse.MouseEventManager.constructor | mouse.py:37-48 | a new manager has an empty buffer, no pending flag, no handler, nothing emitted and a blocking device |
| Mouse.MouseEventManager.SetHandler | mouse.py:58-59 | installs or removes the handler |
| Mouse.MouseEventManager.StoreEvent | mouse.py:50-52 | appends the event iff its value is 0 or 1, and otherwise leaves the buffer unchanged; only presses and releases are ever buffered |
| Mouse.MouseEventManager.Emit | mouse.py:54-56 | appends the gesture to the handler's output iff a handler is installed |
| Mouse.MouseEventManager.KeysSequence | mouse.py:101-103 | one signed code per buffered event, +code for value 1 and -code otherwise |
| Mouse.MouseEventManager.KeysPressed | mouse.py:110-116 | the dictionary loop yields the replayed held-key list PressedKeys(buffer), about which PressedKeysNoDuplicates and PressedKeysMembership hold |
| Mouse.MouseEventManager.HasPendingSequence | mouse.py:132-137 | returns the pending flag that the last flush left; PollStep ties the device mode to it |
| Mouse.MouseEventManager.ResolveClicks | mouse.py:67-85 | the click loop and the pending flag update buffer, flag and handler output as the click stage says |
| Mouse.MouseEventManager.FlushEvents | mouse.py:61-93 | a flush leaves buffer, pending flag and handler output as the flush rules give them, and keeps the buffer's values presses and releases |
| Mouse.MouseEventManager.OnEvent | mouse.py:118-130 | an EV_KEY event is stored under the buffering rule; a REL_WHEEL event flushes at its time plus the window, then emits WHEEL with the bit-31 direction and the post-flush key sequence; any other event changes nothing |
| Mouse.MouseEventManager.PollStep | mouse.py:152-157 | after the flush with the current time the device is non-blocking iff a sequence is pending, and F_SETFL is called iff the mode differed |
| Text.Lower | ddcutil.py:64 | lower-casing keeps the length |
| Text.LowerIsLower | ddcutil.py:64 | a lower-cased string has no upper-case letter |
| Text.LowerOfLower | ddcutil.py:64 | lower-casing a string without upper-case letters changes nothing |
| Text.LowerConcat | ddcutil.py:64 | lower-casing distributes over concatenation |
| Text.ContainsAt | ddcutil.py:47 | the substring test holds whenever the needle occurs at some offset |
| Text.ContainsOnlyAt | ddcutil.py:47 | the substring test holds only when the needle occurs at some offset |
| Text.Contains | ddcutil.py:47 | Python's `needle in hay`: some suffix of hay starts with needle; ContainsAt and ContainsOnlyAt prove it equal to an occurrence at some offset |
| Text.Split | ddcutil.py:80-81 | split on a separator gives at least one part, and no part contains the separator |
| Text.Join | ddcutil.py:54 | `sep.join(parts)`: the parts in order with sep between neighbours; SplitJoin proves it inverts Split |
| Text.SplitJoin | ddcutil.py:80-81 | joining the parts of a split with the separator rebuilds the string |
| Ddcutil.StripHexPrefix | ddcutil.py:63 | removes at most two characters, only from the front, and removes something iff the string starts with "0x" or with "x" |
| Ddcutil.ToHexString | ddcutil.py:58-64 | the result always starts with "0x" and has no upper-case letter |
| Ddcutil.ToHexStringSpellings | ddcutil.py:58-64 | "0xa9", "xa9" and "a9" all normalise to "0xa9" |
| Ddcutil.ToHexStringStripsOnce | ddcutil.py:63-64 | a leading "0x" or "x" is removed once, and the remainder is only lower-cased |
| Ddcutil.ToHexStringKeepsUpperPrefix | ddcutil.py:63-64 | an upper-case "0X" prefix is not stripped: "0X" + t becomes "0x0x" + lower(t) |
| Ddcutil.ToHexStringNoPrefix | ddcutil.py:63-64 | a string starting with neither "0x" nor "x" keeps all its characters: the result is "0x" + lower(s) |
| Ddcutil.ToHexStringIdempotent | ddcutil.py:63-64 | normalising twice equals normalising once |
| Ddcutil.DisplayNotFound | ddcutil.py:47 | the retry test: return code 1 and "display not found" in the lower-cased stderr |
| Ddcutil.Attempts | ddcutil.py:44-51 | the command is run between 1 and 5 times; every run but the last is a "display not found" failure, and a count under 5 ends on another result |
| Ddcutil.ExecOutcome | ddcutil.py:53-55 | the raise-or-return after the loop, applied to the last of the Attempts runs |
| Ddcutil.ExecCmd | ddcutil.py:44-55 | the retry loop runs as Attempts says; it raises RuntimeError with the joined command line and stderr iff the last run's return code is not 0, and otherwise returns that run's stdout |
| Ddcutil.ParseRow | ddcutil.py:81-119 | a row ends the loop iff its first token is not "VCP"; it raises IndexError iff it is too short for its tag; it gives a record iff its tag is C, SNC, CNC or T; each tag's fields come from their tokens through to_hex_string, the others are None, and every field is in normal hex form |
| Ddcutil.ParseRowSimpleNonContinuous | ddcutil.py:93-100 | the row "VCP 60 SNC x0f" gives code "0x60", type SNC and sl "0x0f", nothing else |
| Ddcutil.Rows | ddcutil.py:80-81 | every row of the output splits into at least one token |
| Ddcutil.ParseRows | ddcutil.py:80-119 | the row loop over split rows: stop at a non-"VCP" row, fail on a short row, append each record in row order; its properties are ParseRowsIgnoresAfterEnd, ParseRowsAppend and ParseRowsNormalised |
| Ddcutil.ParseRowsIgnoresAfterEnd | ddcutil.py:80-83 | rows after the first row that does not start with "VCP" never affect the result |
| Ddcutil.ParseRowsAppend | ddcutil.py:80-119 | over rows that all continue the loop, their records come first and in row order, followed by the result of the remaining rows |
| Ddcutil.ParseRowsNormalised | ddcutil.py:84-119 | a successful parse yields at most one record per row, each with all fields in normal hex form |
| Ddcutil.ParseVcpOutput | ddcutil.py:80-119 | the append-and-break loop over the rows computes the row-by-row parse of the output |
| Ddcutil.GetVcp | ddcutil.py:73-124 | a RuntimeError from exec_cmd gives an empty list; otherwise the result is the parse of the returned stdout, including its IndexError |

## Left out

- Device I/O in `event_loop` is not modelled:
  - opening and reading the device, and the `time.time_ns()` clock, are left out; the current time is a parameter of `PollStep`;
  - the `fcntl` calls are left out; the O_NONBLOCK bit is the boolean field `nonBlocking`;
  - the OSError handler and `sys.exit` are left out;
  - the decode of each read block is `EventCodec.Decode`, but the loop that feeds it to `OnEvent` is not modelled.
- `int(dbl_click_delay_sec * 1000000)` is floating point. The window `maxDelayUsec` is an integer parameter.
- The `"llHHI"` layout is platform-dependent. It is fixed to LP64 Linux: 24 bytes, little-endian, in the native packing.
- `maxClicks` is a `nat`. A negative `max_clicks` would select Python's negative slicing in `seq[: max_clicks * 2]`, and that is not modelled.
- The handler is a callback. The model stands for it with the boolean `hasHandler` and the output sequence `emitted`. What a handler then does (kvm.py) is not part of this model.
- `Text.Lower` lower-cases ASCII letters only. Python's `str.lower()` also folds other Unicode letters.
- Mouse.MouseEventManager.constructor: the Python defaults `max_clicks=2` and `dbl_click_delay_sec=0.4` are not modelled; the constructor always takes both values as parameters.
- The debug `print` calls in `exec_cmd` and `get_vcp` are left out.
- `subprocess.run` is not modelled. Its results are the `results` input of `ExecCmd` and `GetVcp`, and at least five must be supplied.
- `set_vcp` is not modelled: it depends on a monotonic clock, float seconds and `sleep`.
- kvm.py, settings.py and dell_vcp.py are not part of this model. The exception is the command prefix `DDC_CMD_BASE`, built from the two settings constants it uses.
- Gestures.ClickLoop: only the case mouse.py reaches, `n_consecutive <= 2 * max_clicks`, has a closed form (`ClickLoopClosedForm`). There is no general lemma for larger starting counts, because flush_events never passes one.
- Mouse.MouseEventManager.KeysPressed: its ensures states only its agreement with `PressedKeys`. The no-duplicates and membership properties are the lemmas `PressedKeysNoDuplicates` and `PressedKeysMembership` about that function. They are not repeated in the method's contract.
