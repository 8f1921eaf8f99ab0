/** The `RFExplorer` driver object: its receive flag, the list of spectrum
    samples it collects, the configuration attributes, and the bytes it has
    written to the serial port. The port's input is a parameter (the chunks
    that successive one-byte reads return); the receive thread's loop runs
    sequentially over such an input. */
module Explorer {
  import opened Bytes
  import opened Framing
  import opened Protocol
  import opened Commands

  /** Why the receive loop returned: the flag was off, the input ran out
      before the next CR LF (the device's real read would keep waiting), or
      `process_data` raised, which ends the receive thread. */
  datatype Halt = Stopped | AwaitingInput | Crashed(error: DecodeError)

  /** The state a receive loop leaves, the input bytes it did not consume,
      and why it returned. */
  datatype Session = Session(after: Snapshot, rest: seq<Byte>, halt: Halt)

  /** `_recieve` on the state `st` over the byte stream `stream`: while the
      flag is on, read the next frame and decode it. */
  ghost function Run(st: Snapshot, running: bool, stream: seq<Byte>): Session
    decreases |stream|
  {
    if !running then Session(st, stream, Stopped)
    else if !HasCrLf(stream) then Session(st, stream, AwaitingInput)
    else
      var step := Process(st, FrameOf(stream));
      var rest := stream[FrameEnd(stream)..];
      if step.outcome.Raised? then Session(step.after, rest, Crashed(step.outcome.error))
      else Run(step.after, running, rest)
  }

  /** One turn of the loop with the flag on: the first frame is decoded into
      `after`, and the loop goes on with the bytes after that frame unless
      decoding raised. */
  lemma RunOneFrame(st: Snapshot, stream: seq<Byte>, after: Snapshot, outcome: Outcome, rest: seq<Byte>)
    requires HasCrLf(stream) && rest == stream[FrameEnd(stream)..]
    requires Process(st, FrameOf(stream)) == Step(after, outcome)
    ensures Run(st, true, stream)
              == if outcome.Raised? then Session(after, rest, Crashed(outcome.error))
                 else Run(after, true, rest)
  {
  }

  predicate IsPrefix<T(==)>(a: seq<T>, b: seq<T>)
  {
    |a| <= |b| && b[..|a|] == a
  }

  /** One frame adds at most one sample, at the end of the list. */
  lemma ProcessAppendOnly(st: Snapshot, data: seq<Byte>)
    ensures var frames := Process(st, data).after.frames;
            IsPrefix(st.frames, frames) && |frames| <= |st.frames| + 1
  {
  }

  /** Append-only log: every receive loop leaves the earlier sample list as
      a prefix of the later one. */
  lemma {:induction false} RunAppendOnly(st: Snapshot, running: bool, stream: seq<Byte>)
    ensures IsPrefix(st.frames, Run(st, running, stream).after.frames)
    decreases |stream|
  {
    if running && HasCrLf(stream) {
      var step := Process(st, FrameOf(stream));
      ProcessAppendOnly(st, FrameOf(stream));
      if !step.outcome.Raised? {
        RunAppendOnly(step.after, running, stream[FrameEnd(stream)..]);
      }
    }
  }

  /** With the flag off the loop decodes nothing and consumes nothing. */
  lemma StoppedRunIsIdle(st: Snapshot, stream: seq<Byte>)
    ensures Run(st, false, stream) == Session(st, stream, Stopped)
  {
  }

  /** A frame the analyzer sends as a spectrum sample: `$S`, then the length
      byte and the levels, with no CR LF inside. */
  predicate IsSpectrumFrame(f: seq<Byte>)
  {
    |f| >= 2 && f[0] == DOLLAR && f[1] == 'S' as int && !HasCrLf(f)
  }

  /** The frames sent one after another, each with its terminator. */
  function Wire(fs: seq<seq<Byte>>): seq<Byte>
    decreases |fs|
  {
    if fs == [] then [] else fs[0] + [CR, LF] + Wire(fs[1..])
  }

  /** The samples those frames decode to, in order. */
  function Samples(fs: seq<seq<Byte>>): seq<seq<real>>
    decreases |fs|
  {
    if fs == [] then [] else [Levels(Tail(fs[0], 3))] + Samples(fs[1..])
  }

  /** Capture: with the flag on, K spectrum frames on the wire followed by
      an unterminated remainder append exactly their K samples in order,
      leave the configuration alone, and leave the remainder unread. */
  lemma {:induction false} RunSpectrumFrames(st: Snapshot, fs: seq<seq<Byte>>, tail: seq<Byte>)
    requires forall i | 0 <= i < |fs| :: IsSpectrumFrame(fs[i])
    requires !HasCrLf(tail)
    ensures Run(st, true, Wire(fs) + tail)
              == Session(st.(frames := st.frames + Samples(fs)), tail, AwaitingInput)
    decreases |fs|
  {
    if fs == [] {
      assert st.frames + Samples(fs) == st.frames;
      assert Wire(fs) + tail == tail;
    } else {
      var f := fs[0];
      var rest := Wire(fs[1..]) + tail;
      var next := st.(frames := st.frames + [Levels(Tail(f, 3))]);
      calc {
        Run(st, true, Wire(fs) + tail);
        { assert Wire(fs) + tail == f + [CR, LF] + rest; }
        Run(st, true, f + [CR, LF] + rest);
        { RunOneSpectrumFrame(st, f, rest); }
        Run(next, true, rest);
        { RunSpectrumFrames(next, fs[1..], tail); }
        Session(next.(frames := next.frames + Samples(fs[1..])), tail, AwaitingInput);
        { assert next.frames + Samples(fs[1..]) == st.frames + Samples(fs); }
        Session(st.(frames := st.frames + Samples(fs)), tail, AwaitingInput);
      }
    }
  }

  /** The first step of such a capture: one spectrum frame is read, its
      sample appended, and the loop goes on with the bytes after it. */
  lemma RunOneSpectrumFrame(st: Snapshot, f: seq<Byte>, rest: seq<Byte>)
    requires IsSpectrumFrame(f)
    ensures Run(st, true, f + [CR, LF] + rest)
              == Run(st.(frames := st.frames + [Levels(Tail(f, 3))]), true, rest)
  {
    var stream := f + [CR, LF] + rest;
    FrameRoundTrip(f, rest);
    assert stream[FrameEnd(stream)..] == rest;
    SpectrumDecode(st, f);
  }

  /** A spectrum frame whose levels hold the bytes 13, 10 is cut there by the
      reader. When only `$` follows them, the first part is decoded as a
      short sample and the `$` part raises IndexError, which ends the loop
      with the bytes after the frame unread. */
  lemma {:induction false} SpectrumLevelsHoldingCrLf(st: Snapshot, head: seq<Byte>, rest: seq<Byte>)
    requires IsSpectrumFrame(head)
    ensures Run(st, true, head + [CR, LF, DOLLAR] + [CR, LF] + rest)
              == Session(st.(frames := st.frames + [Levels(Tail(head, 3))]), rest, Crashed(IndexError))
  {
    var next := st.(frames := st.frames + [Levels(Tail(head, 3))]);
    var second := [DOLLAR] + [CR, LF] + rest;
    assert head + [CR, LF, DOLLAR] + [CR, LF] + rest == head + [CR, LF] + second;
    RunOneSpectrumFrame(st, head, second);
    assert !HasCrLf([DOLLAR]) by {
      assert !CrLfAt([DOLLAR], 0);
    }
    FrameRoundTrip([DOLLAR], rest);
    assert second[FrameEnd(second)..] == rest;
    ShortFrameRaises(next, [DOLLAR]);
    RunOneFrame(next, second, next, Raised(IndexError), rest);
  }

  class RFExplorer {
    var receiveRunning: bool
    /** Decoded spectrum samples, oldest first. */
    var frames: seq<seq<real>>
    /** Configuration attributes assigned so far. */
    var config: map<Attr, int>
    /** Every byte written to the serial port, in order. */
    var written: seq<Byte>

    function State(): Snapshot
      reads this
    {
      Snapshot(frames, config)
    }

    /** `__init__`: not receiving, no samples, no configuration yet. */
    constructor ()
      ensures !receiveRunning && frames == [] && config == map[] && written == []
    {
      receiveRunning := false;
      frames := [];
      config := map[];
      written := [];
    }

    /** `request_config`: writes the four-byte request. */
    method RequestConfig()
      modifies this`written
      ensures written == old(written) + RequestConfigMessage()
    {
      written := written + RequestConfigMessage();
    }

    /** `set_sweep`: writes the sweep command; no value is rejected. */
    method SetSweep(startFreq: int, endFreq: int, amplitudeMax: int, amplitudeMin: int)
      modifies this`written
      ensures written == old(written) + SweepMessage(startFreq, endFreq, amplitudeMax, amplitudeMin)
    {
      written := written + SweepMessage(startFreq, endFreq, amplitudeMax, amplitudeMin);
    }

    /** `read_data`: reads chunk after chunk until the bytes read end in
        CR LF. It consumes exactly the chunks up to the one that delivers the
        first LF of a CR LF (timeouts before it included, none after it) and
        returns the frame `FrameOf` describes. */
    method ReadData(input: seq<Chunk>) returns (frame: seq<Byte>, used: nat)
      requires HasCrLf(Flatten(input))
      ensures 1 <= used <= |input| && input[used - 1] != []
      ensures Flatten(input[used..]) == Flatten(input)[FrameEnd(Flatten(input))..]
      ensures frame == FrameOf(Flatten(input))
    {
      ghost var stream := Flatten(input);
      var buffer: seq<Byte> := [];
      used := 0;
      while true
        invariant used <= |input|
        invariant buffer + Flatten(input[used..]) == stream
        invariant !HasCrLf(buffer)
        decreases |input| - used
      {
        ReadMore(input, used, buffer);
        ghost var before := buffer;
        buffer := buffer + input[used];
        used := used + 1;
        GrowBuffer(before, input[used - 1]);
        MoveChunk(before, input[used - 1], Flatten(input[used..]), stream);
        if EndsWithCrLf(buffer) {
          FrameAtBufferEnd(before, input[used - 1], stream);
          SplitStream(buffer, Flatten(input[used..]), stream);
          break;
        }
      }
      if |buffer| > 2 {
        frame := buffer[..|buffer| - 2];
      } else {
        frame := buffer;
      }
    }

    /** Assigns attribute `ATTRS[k]` from field `POSITIONS[k]` of the split
        payload, or raises as `int(config_array[pos])` would; this is step
        `k` of the sequential assignment `AssignFrom` describes. */
    method Assign(parts: seq<seq<Byte>>, k: nat) returns (outcome: Outcome)
      requires k < |ATTRS|
      modifies this`config
      ensures match ConfigFields(parts)[k]
              case Parsed(v) => config == old(config)[ATTRS[k] := v] && outcome == Done
              case Failed(e) => config == old(config) && outcome == Raised(e)
      ensures var fields := ConfigFields(parts);
              if outcome.Raised? then AssignFrom(old(config), fields, k) == (config, outcome)
              else AssignFrom(old(config), fields, k) == AssignFrom(config, fields, k + 1)
    {
      var attr, pos := ATTRS[k], POSITIONS[k];
      assert ConfigFields(parts)[k] == ReadField(parts, pos);
      match ReadField(parts, pos)
      case Parsed(v) =>
        config := config[attr := v];
        outcome := Done;
      case Failed(e) =>
        outcome := Raised(e);
    }

    /** The body of `process_data` for a `#C2-F` reply: the nine attributes
        assigned one after another from the split payload, stopping at the
        first exception; fields 5 and 6 are skipped. */
    method AssignConfig(parts: seq<seq<Byte>>) returns (outcome: Outcome)
      modifies this`config
      ensures AssignFrom(old(config), ConfigFields(parts), 0) == (config, outcome)
    {
      ghost var fields := ConfigFields(parts);
      ghost var goal := AssignFrom(config, fields, 0);
      outcome := Assign(parts, 0); // start frequency, field 0
      if outcome.Raised? { return; }
      assert goal == AssignFrom(config, fields, 1);
      outcome := Assign(parts, 1); // frequency step, field 1
      if outcome.Raised? { return; }
      assert goal == AssignFrom(config, fields, 2);
      outcome := Assign(parts, 2); // top of the amplitude range, field 2
      if outcome.Raised? { return; }
      assert goal == AssignFrom(config, fields, 3);
      outcome := Assign(parts, 3); // bottom of the amplitude range, field 3
      if outcome.Raised? { return; }
      assert goal == AssignFrom(config, fields, 4);
      outcome := Assign(parts, 4); // sweep steps, field 4
      if outcome.Raised? { return; }
      assert goal == AssignFrom(config, fields, 5);
      outcome := Assign(parts, 5); // lowest frequency, field 7
      if outcome.Raised? { return; }
      assert goal == AssignFrom(config, fields, 6);
      outcome := Assign(parts, 6); // highest frequency, field 8
      if outcome.Raised? { return; }
      assert goal == AssignFrom(config, fields, 7);
      outcome := Assign(parts, 7); // widest span, field 9
      if outcome.Raised? { return; }
      assert goal == AssignFrom(config, fields, 8);
      outcome := Assign(parts, 8); // resolution bandwidth, field 10
      if outcome.Raised? { return; }
      assert goal == AssignFrom(config, fields, |ATTRS|) == (config, Done);
    }

    /** `process_data`: decodes one frame into the object's state as
        `Process` describes. */
    method ProcessData(data: seq<Byte>) returns (outcome: Outcome)
      modifies this`frames, this`config
      ensures Process(old(State()), data) == Step(State(), outcome)
    {
      if |data| == 0 {
        return Raised(IndexError);
      }
      if data[0] == DOLLAR {
        if |data| < 2 {
          return Raised(IndexError);
        }
        if data[1] == 'S' as int {
          frames := frames + [Levels(Tail(data, 3))];
        }
        return Done;
      } else if data[0] == HASH {
        if |data| >= 5 && data[1..5] == TAG_C2F {
          outcome := AssignConfig(Split(Tail(data, 7), COMMA));
          return;
        }
        return Done;
      } else {
        return Reported;
      }
    }

    /** `_recieve`: while the flag is on, reads a frame from the input and
        decodes it, as `Run` describes; returns how many chunks it read. */
    method Receive(input: seq<Chunk>) returns (used: nat, halt: Halt)
      modifies this`frames, this`config
      ensures used <= |input|
      ensures Run(old(State()), old(receiveRunning), Flatten(input)) == Session(State(), Flatten(input[used..]), halt)
    {
      ghost var goal := Run(State(), receiveRunning, Flatten(input));
      used := 0;
      while receiveRunning
        invariant used <= |input|
        invariant goal == Run(State(), receiveRunning, Flatten(input[used..]))
        decreases |input| - used
      {
        var remaining := input[used..];
        ghost var st := State();
        ghost var stream := Flatten(remaining);
        if !HasCrLf(Flatten(remaining)) {
          assert goal == Run(st, true, stream) == Session(st, stream, AwaitingInput);
          return used, AwaitingInput;
        }
        var frame, n := ReadData(remaining);
        var outcome := ProcessData(frame);
        assert receiveRunning;
        used := used + n;
        assert remaining[n..] == input[used..];
        RunOneFrame(st, stream, State(), outcome, Flatten(input[used..]));
        if outcome.Raised? {
          return used, Crashed(outcome.error);
        }
      }
      assert goal == Session(State(), Flatten(input[used..]), Stopped);
      halt := Stopped;
    }

    /** `start_recieve_thread`: raises the flag the receive loop polls. */
    method StartReceiveThread()
      modifies this`receiveRunning
      ensures receiveRunning
    {
      receiveRunning := true;
    }

    /** `stop_recieve_thread`: lowers the flag; the loop stops before its next frame. */
    method StopReceiveThread()
      modifies this`receiveRunning
      ensures !receiveRunning
    {
      receiveRunning := false;
    }

    /** `close`: lowers the flag whatever the state. */
    method Close()
      modifies this`receiveRunning
      ensures !receiveRunning
    {
      receiveRunning := false;
    }
  }
}
