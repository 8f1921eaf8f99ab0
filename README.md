# RF Explorer serial driver, modelled in Dafny

This project models the `RFExplorer` class of `pyrfexplorer.py`, a Python 2
driver for the RF Explorer handheld spectrum analyzer. The driver talks to
the analyzer over a serial port:

- it sends two commands, `request_config` (`#`, length byte 4, `C0`) and
  `set_sweep` (`#`, the constant length byte 32, then
  `C2-F:<start:07d>,<end:07d>,<max:03d>,<min:03d>` and CR LF);
- it reads CR LF terminated frames one byte at a time (`read_data`), cutting
  the terminator off unless nothing else was read;
- it decodes each frame (`process_data`): a `$S` frame becomes one spectrum
  sample of levels in dBm (`-byte / 2`) appended to `frames`; a `#C2-F`
  reply assigns nine configuration attributes from the comma-separated
  fields of `data[7:]`; `$` frames without `S` and `#` frames without the
  tag are ignored; anything else is printed as unknown;
- a receive loop (`_recieve`) repeats read and decode while the
  `recieve_running` flag is set; `start_recieve_thread`,
  `stop_recieve_thread` and `close` set and clear the flag.

The model is split by concern:

- `bytes.dfy` (module `Bytes`): bytes, the protocol's ASCII constants,
  Python's `s[i:]` and `str.split` on one separator with its inverse `Join`.
- `decimal.dfy` (module `Decimal`): the decimal text `'{:0Nd}'.format`
  writes (`Pad`) and the integers `int()` reads (`ParseInt`).
- `framing.dfy` (module `Framing`): the serial input as a sequence of
  one-byte-or-timeout reads, and the frame a `read_data` call returns from
  a byte stream (`FrameOf`, `FrameEnd`).
- `protocol.dfy` (module `Protocol`): `process_data` as a function `Process`
  from the old state (samples and configuration) and a frame to the new
  state and how the call ends (normally, reported, or with `IndexError` or
  `ValueError`).
- `commands.dfy` (modules `Commands` and `CommandExamples`): the bytes of
  the two commands, and a worked instance of the sweep command.
- `explorer.dfy` (module `Explorer`): the receive loop as a function `Run`,
  and the class `RFExplorer` whose methods update its fields in place and
  are proved against `FrameOf`, `Process` and `Run`.

Python attributes that were never assigned are absent from the `config`
map. The serial port's input is a parameter of the reading methods: the
sequence of results successive `read()` calls return. The bytes the driver
writes are collected in the field `written`.

Behaviour of the code that the model keeps:

- An exception raised while decoding (a short frame, a missing or
  non-numeric configuration field) is not caught: it leaves
  `process_data`, ends `_recieve` and so ends the receive thread. `Run` and
  `Receive` stop with `Crashed`.
- A configuration reply assigns the attributes one after another, so a
  reply that fails part-way leaves the attributes before the failing field
  assigned.
- Fields 5 and 6 of a configuration reply are never parsed, so they may
  hold anything.
- `set_sweep` rejects no value: any integer is formatted at its full width
  and sent with the length byte 32.
- The driver itself checks no state: the flag can be cleared or set at
  any time. After `close` the port is closed, so any later write or read
  raises in the serial library; the model does not capture that (see
  "## Left out").
- A spectrum frame whose levels hold the bytes 13, 10 (levels -6.5 and -5
  dBm) is cut there by `read_data`, because the terminator test at line 33
  sees a CR LF. When only `$` follows those bytes, the second part raises
  IndexError at line 43 and ends the receive thread
  (`SpectrumLevelsHoldingCrLf`).

For a reply whose fields follow `#C2-F:` directly, `data[7:]` drops the
first byte of the first field (`ConfigPayloadSkipsByteSix`).

## Model

| member | source | states |
|---|---|---|
| Bytes.Split | pyrfexplorer.py:51 | `str.split(',')` yields at least one piece, no piece holds the separator, and joining the pieces with it gives the input back |
| Bytes.SplitOfJoin | pyrfexplorer.py:51 | splitting the comma-join of comma-free pieces gives exactly those pieces back |
| Decimal.Digits | pyrfexplorer.py:26 | the shortest decimal text of a natural number: at least one digit, no leading zero unless it is 0, and it denotes the number |
| Decimal.DigitsLength | pyrfexplorer.py:26 | a number needs at most `k` digits exactly when it is below `10^k` |
| Decimal.Pad | pyrfexplorer.py:26 | `'{:0Nd}'` output is at least N bytes, exactly the sign plus digits when wider, never truncated, made of digits and a minus sign only, and starts with the minus sign exactly when the number is negative |
| Decimal.PadParses | pyrfexplorer.py:26 | the zero-padded text of any integer parses back with `int()` to that integer, at any width |
| Decimal.PadExactWidth | pyrfexplorer.py:26 | a value in `[0, 10^N)` fills its N-digit field exactly, with digits only |
| Bytes.Tail | pyrfexplorer.py:47-50 | definition of Python's `s[i:]` as used in `data[3:]` and `data[7:]`; see `SpectrumDecode`, `ConfigPayloadSkipsByteSix` |
| Decimal.ParseInt | pyrfexplorer.py:52-60 | definition of the integers `int()` reads from a field; see `PadParses`, `SweepRoundTrip`, `ConfigDecode` |
| Framing.FrameOf | pyrfexplorer.py:29-39 | definition of the frame `read_data` returns from a stream; see `FrameRoundTrip`, `FrameShape` and `RFExplorer.ReadData` |
| Framing.FrameEnd | pyrfexplorer.py:29-39 | definition of how many bytes one `read_data` call consumes, between 2 and the stream's length; see `FrameRoundTrip` and `RFExplorer.ReadData` |
| Framing.FirstCrLf | pyrfexplorer.py:31-34 | the index of the first CR LF of a stream: a CR LF starts there and none starts earlier |
| Framing.FrameRoundTrip | pyrfexplorer.py:29-39 | a non-empty frame without CR LF, sent with its terminator before any further bytes, is read back exactly and consumes its length plus 2 bytes |
| Framing.FrameShape | pyrfexplorer.py:33-39 | the frame read is never empty; it is the bare CR LF exactly when the stream starts with CR LF; otherwise it is everything before the first CR LF and holds no CR LF |
| Protocol.Levels | pyrfexplorer.py:47 | definition of the list comprehension: one level per byte, so the sample has the payload's length; see `Level`, `SpectrumDecode` |
| Protocol.ReadField | pyrfexplorer.py:52-60 | definition of `int(config_array[p])`: IndexError past the end, ValueError on a non-integer; see `ConfigDecode`, `ShortConfigRaises` |
| Protocol.AssignFrom | pyrfexplorer.py:52-60 | definition of the nine assignment statements with early exit; see `AssignFromEffect`, `LeadingParsed` and `RFExplorer.AssignConfig` |
| Protocol.Process | pyrfexplorer.py:41-62 | definition of `process_data` on the samples and configuration; see `SpectrumDecode`, `IgnoredFrames`, `ShortFrameRaises`, `ConfigDecode`, `ShortConfigRaises` and `RFExplorer.ProcessData` |
| Protocol.Level | pyrfexplorer.py:47 | a spectrum byte's level in dBm is exactly minus half the byte, between -127.5 and 0 |
| Protocol.LeadingParsed | pyrfexplorer.py:52-60 | the number of attributes assigned before the first failing field: every field before it parses and the field at it fails |
| Protocol.AssignFromEffect | pyrfexplorer.py:52-60 | the nine sequential assignments give the attributes before the first failing field their parsed values, leave all others as they were, and raise that field's exception, or end normally when no field fails |
| Protocol.SpectrumDecode | pyrfexplorer.py:42-47 | a `$S` frame appends exactly one sample, one level per byte from index 3 on, each in [-127.5, 0], keeps the earlier samples and the configuration, and ends normally |
| Protocol.IgnoredFrames | pyrfexplorer.py:41-62 | `$` without `S`, `#` without the `C2-F` tag, and frames starting with any other byte change nothing and raise nothing; only the last kind is reported |
| Protocol.ShortFrameRaises | pyrfexplorer.py:42-43 | an empty frame and the one-byte frame `$` raise IndexError and change nothing |
| Protocol.ConfigDecode | pyrfexplorer.py:48-60 | a `#C2-F` frame keeps the samples and assigns fields 0-4 and 7-10 of `data[7:]` split on commas, in order, up to the first one that is missing or not an integer; it raises that field's exception exactly when there is one |
| Protocol.ShortConfigRaises | pyrfexplorer.py:51-60 | a configuration payload with fewer than 11 fields always raises and keeps the samples |
| Protocol.ConfigPayloadSkipsByteSix | pyrfexplorer.py:49-51 | in a reply `#C2-F:` followed directly by the fields, `data[7:]` drops the first byte of the first field and nothing else |
| Commands.SweepMessage | pyrfexplorer.py:24-26 | definition of the bytes `set_sweep` writes; see `SweepShape`, `SweepRoundTrip`, `SweepFrequencyDigits`, `SweepLengthByte` |
| Commands.RequestConfigMessage | pyrfexplorer.py:19-22 | the request is 4 bytes: `#`, a length byte equal to the size of the whole message, then `C0` |
| Commands.SweepShape | pyrfexplorer.py:24-26 | the sweep command is `#`, 32, `C2-F:`, the four formatted fields joined by commas, then CR LF |
| Commands.SweepRoundTrip | pyrfexplorer.py:24-27 | the sweep command carries the tag at bytes 2-6 and ends in its only CR LF; splitting the bytes between them on commas and parsing each field gives back the four arguments, whatever their values |
| Commands.SweepFrequencyDigits | pyrfexplorer.py:26 | frequencies in `[0, 10^7)` occupy exactly bytes 7-13 and 15-21 as seven digits each, followed by commas |
| Commands.SweepLengthByte | pyrfexplorer.py:25-26 | the length byte 32 equals the number of bytes after `#` exactly when the four formatted fields take 21 bytes |
| Commands.CaptureSweepLengthByte | pyrfexplorer.py:19-27 | with amplitudes -51 and -120 and seven-digit frequencies the sweep command is 33 bytes and its length byte counts all bytes after `#`, while the request's length byte counts the whole message |
| CommandExamples.CaptureAmplitudeText | pyrfexplorer.py:24-27 | for the capture workflow's call with seven-digit frequencies and amplitudes -51 and -120, the command is 33 bytes and ends in exactly the text `-51,-120` and CR LF |
| Explorer.Run | pyrfexplorer.py:64-66 | definition of `_recieve` over a byte stream; see `RunAppendOnly`, `StoppedRunIsIdle`, `RunSpectrumFrames` and `RFExplorer.Receive` |
| Explorer.ProcessAppendOnly | pyrfexplorer.py:41-62 | one decoded frame adds at most one sample, at the end of the list |
| Explorer.RunAppendOnly | pyrfexplorer.py:64-66 | a receive loop only ever appends to the sample list: the earlier list is a prefix of the later one |
| Explorer.StoppedRunIsIdle | pyrfexplorer.py:65 | with the flag off the loop decodes nothing and consumes nothing |
| Explorer.RunOneFrame | pyrfexplorer.py:64-66 | the one-step unfolding of `Run` with the flag on, used as a proof step: the first frame is decoded and the loop goes on after it, or stops with the exception |
| Explorer.RunSpectrumFrames | pyrfexplorer.py:41-66 | with the flag on, K spectrum frames on the wire followed by an unterminated rest append exactly their K samples in order, leave the configuration alone and leave the rest unread |
| Explorer.SpectrumLevelsHoldingCrLf | pyrfexplorer.py:31-43 | a spectrum frame whose levels contain 13, 10 followed only by `$` yields the short sample before those bytes, then raises IndexError on the `$` part and ends the loop |
| Explorer.RFExplorer.constructor | pyrfexplorer.py:13-16 | a new driver is not receiving, has no samples, no configuration and has written nothing |
| Explorer.RFExplorer.RequestConfig | pyrfexplorer.py:19-22 | writes exactly the request message after what was written before |
| Explorer.RFExplorer.SetSweep | pyrfexplorer.py:24-27 | writes exactly the sweep command of its four arguments after what was written before |
| Explorer.RFExplorer.ReadData | pyrfexplorer.py:29-39 | reads up to and including the read that completes the first CR LF, no further, and returns the frame `FrameOf` gives for the stream |
| Explorer.RFExplorer.Assign | pyrfexplorer.py:52-60 | one attribute assignment: the attribute gets the parsed field, or nothing changes and the field's exception is raised; this is one step of `AssignFrom` |
| Explorer.RFExplorer.AssignConfig | pyrfexplorer.py:52-60 | the nine assignment statements leave the configuration and outcome `AssignFrom` describes |
| Explorer.RFExplorer.ProcessData | pyrfexplorer.py:41-62 | the new samples, configuration and outcome are those `Process` gives for the old state and the frame |
| Explorer.RFExplorer.Receive | pyrfexplorer.py:64-66 | the new state, the unread input and the reason the loop returned are those `Run` gives for the old state, the flag and the input |
| Explorer.RFExplorer.StartReceiveThread | pyrfexplorer.py:68-69 | sets the receive flag |
| Explorer.RFExplorer.StopReceiveThread | pyrfexplorer.py:74-75 | clears the receive flag |
| Explorer.RFExplorer.Close | pyrfexplorer.py:77-78 | clears the receive flag |

## Left out

- Opening the serial port (port name, 500000 baud, one-second timeout) and
  closing it: the port is modelled only by the bytes written and the reads'
  results. After `close` the real port raises on every write and read, so
  `request_config`, `set_sweep` and a receive thread started later fail;
  in the model `RequestConfig`, `SetSweep` and `Receive` still run after
  `Close`.
- The receive thread itself: `start_recieve_thread` only sets the flag, and
  `Receive` runs the loop sequentially over a given input. Interleavings
  with the main thread (a flag cleared while a frame is being read, the
  capture loop polling `len(frames)`) are not modelled.
- Explorer.RFExplorer.Receive: a read that would block waiting for more
  bytes is modelled as returning `AwaitingInput` once the remaining input
  holds no CR LF.
- Explorer.RFExplorer.ReadData: its precondition asks for a CR LF somewhere
  in the input, because the real call blocks until one arrives.
- NumPy arrays: a sample is a sequence of `real` levels. The levels are
  exact halves, so floating point does not change them.
- Printing an unknown frame is modelled as the outcome `Reported`; the text
  printed is not.
- Decimal.ParseInt: Python's `int()` also accepts whitespace around the
  number and after its sign; the model accepts only an optional sign followed by decimal
  digits, so a field padded with spaces fails with ValueError in the model.
- The `__main__` block (argument parsing, the capture and plot workflows,
  saving to `.npy`, matplotlib): only its `set_sweep(..., -51, -120)` call
  appears, in `CaptureSweepLengthByte` and `CaptureAmplitudeText`.
