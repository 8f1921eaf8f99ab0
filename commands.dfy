/** The two commands the driver sends to the analyzer, byte for byte. */
module Commands {
  import opened Bytes
  import opened Decimal
  import opened Framing

  /** The length byte `set_sweep` always sends, whatever its arguments. */
  const SWEEP_LENGTH_BYTE: Byte := 32

  /** The command that opens the sweep text. */
  const SWEEP_TAG: seq<Byte> := Ascii("C2-F:")

  /** `request_config`: '#', a length byte equal to the size of the whole
      command, then the command `C0`. */
  function RequestConfigMessage(): (m: seq<Byte>)
    ensures |m| == 4 && m[0] == HASH && m[1] == |m|
    ensures m[2..] == Ascii("C0")
  {
    [HASH, 4] + Ascii("C0")
  }

  /** The four fields of a sweep command, in order. */
  function SweepFields(startFreq: int, endFreq: int, amplitudeMax: int, amplitudeMin: int): seq<seq<Byte>>
  {
    [Pad(startFreq, 7), Pad(endFreq, 7), Pad(amplitudeMax, 3), Pad(amplitudeMin, 3)]
  }

  /** `set_sweep`: '#', the constant length byte 32, then
      `'C2-F:{0:07d},{1:07d},{2:03d},{3:03d}\r\n'` of the four arguments. */
  function SweepMessage(startFreq: int, endFreq: int, amplitudeMax: int, amplitudeMin: int): seq<Byte>
  {
    [HASH, SWEEP_LENGTH_BYTE] + SWEEP_TAG
      + Pad(startFreq, 7) + [COMMA] + Pad(endFreq, 7) + [COMMA]
      + Pad(amplitudeMax, 3) + [COMMA] + Pad(amplitudeMin, 3) + [CR, LF]
  }

  /** The sweep command as header, comma-joined fields and terminator. */
  lemma SweepShape(startFreq: int, endFreq: int, amplitudeMax: int, amplitudeMin: int)
    ensures var fields := SweepFields(startFreq, endFreq, amplitudeMax, amplitudeMin);
            SweepMessage(startFreq, endFreq, amplitudeMax, amplitudeMin)
              == [HASH, SWEEP_LENGTH_BYTE] + SWEEP_TAG + Join(fields, COMMA) + [CR, LF]
  {
    JoinFour(SWEEP_TAG, Pad(startFreq, 7), Pad(endFreq, 7), Pad(amplitudeMax, 3), Pad(amplitudeMin, 3));
  }

  lemma JoinFour(tag: seq<Byte>, a: seq<Byte>, b: seq<Byte>, c: seq<Byte>, d: seq<Byte>)
    ensures [HASH, SWEEP_LENGTH_BYTE] + tag + a + [COMMA] + b + [COMMA] + c + [COMMA] + d + [CR, LF]
              == [HASH, SWEEP_LENGTH_BYTE] + tag + Join([a, b, c, d], COMMA) + [CR, LF]
  {
    assert [a, b, c, d][1..] == [b, c, d];
    assert [b, c, d][1..] == [c, d];
    assert [c, d][1..] == [d];
    assert Join([c, d], COMMA) == c + [COMMA] + d;
    assert Join([b, c, d], COMMA) == b + [COMMA] + (c + [COMMA] + d);
    assert Join([a, b, c, d], COMMA) == a + [COMMA] + (b + [COMMA] + (c + [COMMA] + d));
  }

  /** Sweep command layout and round trip: after `#`, 32 and `C2-F:` come the
      four fields separated by commas and then CR LF, the only CR LF of the
      command; splitting the fields on commas and parsing each one gives back
      exactly the four arguments, whatever their values. */
  lemma SweepRoundTrip(startFreq: int, endFreq: int, amplitudeMax: int, amplitudeMin: int)
    ensures var m := SweepMessage(startFreq, endFreq, amplitudeMax, amplitudeMin);
            var fields := SweepFields(startFreq, endFreq, amplitudeMax, amplitudeMin);
            && |m| >= 9
            && m[2..7] == SWEEP_TAG
            && m[|m| - 2..] == [CR, LF]
            && !HasCrLf(m[..|m| - 2])
            && Split(m[7..|m| - 2], COMMA) == fields
            && ParseInt(fields[0]) == Some(startFreq)
            && ParseInt(fields[1]) == Some(endFreq)
            && ParseInt(fields[2]) == Some(amplitudeMax)
            && ParseInt(fields[3]) == Some(amplitudeMin)
  {
    var fields := SweepFields(startFreq, endFreq, amplitudeMax, amplitudeMin);
    SweepShape(startFreq, endFreq, amplitudeMax, amplitudeMin);
    assert forall i | 0 <= i < |SWEEP_TAG| :: SWEEP_TAG[i] != LF;
    forall i | 0 <= i < |fields|
      ensures COMMA !in fields[i] && LF !in fields[i]
    {
      assert fields[i] == Pad(startFreq, 7) || fields[i] == Pad(endFreq, 7)
          || fields[i] == Pad(amplitudeMax, 3) || fields[i] == Pad(amplitudeMin, 3);
    }
    FramedFields(SWEEP_TAG, fields);
    PadParses(startFreq, 7);
    PadParses(endFreq, 7);
    PadParses(amplitudeMax, 3);
    PadParses(amplitudeMin, 3);
  }

  /** Layout of a command `#`, length byte, five-byte tag, comma-joined
      fields, CR LF, for fields free of commas and line feeds. */
  lemma FramedFields(tag: seq<Byte>, fields: seq<seq<Byte>>)
    requires |tag| == 5 && LF !in tag
    requires |fields| >= 1
    requires forall i | 0 <= i < |fields| :: COMMA !in fields[i] && LF !in fields[i]
    ensures var m := [HASH, SWEEP_LENGTH_BYTE] + tag + Join(fields, COMMA) + [CR, LF];
            && |m| >= 9
            && m[2..7] == tag
            && m[|m| - 2..] == [CR, LF]
            && !HasCrLf(m[..|m| - 2])
            && Split(m[7..|m| - 2], COMMA) == fields
  {
    var body := Join(fields, COMMA);
    var m := [HASH, SWEEP_LENGTH_BYTE] + tag + body + [CR, LF];
    assert m[7..|m| - 2] == body;
    SplitOfJoin(fields, COMMA);
    JoinHasNoLineFeed(fields);
    var head := m[..|m| - 2];
    assert head == [HASH, SWEEP_LENGTH_BYTE] + tag + body;
  }

  lemma JoinHasNoLineFeed(fields: seq<seq<Byte>>)
    requires |fields| >= 1
    requires forall i | 0 <= i < |fields| :: LF !in fields[i]
    ensures LF !in Join(fields, COMMA)
    decreases |fields|
  {
    if |fields| > 1 {
      JoinHasNoLineFeed(fields[1..]);
    }
  }

  /** Frequency fields: for frequencies in [0, 10^7) each frequency takes
      exactly seven digits, at bytes 7-13 and 15-21 of the command. */
  lemma SweepFrequencyDigits(startFreq: int, endFreq: int, amplitudeMax: int, amplitudeMin: int)
    requires 0 <= startFreq < Pow10(7) && 0 <= endFreq < Pow10(7)
    ensures var m := SweepMessage(startFreq, endFreq, amplitudeMax, amplitudeMin);
            && |m| >= 23
            && m[7..14] == Pad(startFreq, 7) && AllDigits(m[7..14])
            && m[14] == COMMA
            && m[15..22] == Pad(endFreq, 7) && AllDigits(m[15..22])
            && m[22] == COMMA
  {
    PadExactWidth(startFreq, 7);
    PadExactWidth(endFreq, 7);
    FrequencySlices(SWEEP_TAG, Pad(startFreq, 7), Pad(endFreq, 7),
      Pad(amplitudeMax, 3) + [COMMA] + Pad(amplitudeMin, 3) + [CR, LF]);
  }

  lemma FrequencySlices(tag: seq<Byte>, s: seq<Byte>, e: seq<Byte>, rest: seq<Byte>)
    requires |tag| == 5 && |s| == 7 && |e| == 7
    ensures var m := [HASH, SWEEP_LENGTH_BYTE] + tag + s + [COMMA] + e + [COMMA] + rest;
            |m| >= 23 && m[7..14] == s && m[14] == COMMA && m[15..22] == e && m[22] == COMMA
  {
  }

  /** The constant length byte 32 counts every byte after '#' exactly when
      the four formatted fields take 21 bytes in all. */
  lemma SweepLengthByte(startFreq: int, endFreq: int, amplitudeMax: int, amplitudeMin: int)
    ensures var m := SweepMessage(startFreq, endFreq, amplitudeMax, amplitudeMin);
            m[1] == |m| - 1 <==>
              |Pad(startFreq, 7)| + |Pad(endFreq, 7)| + |Pad(amplitudeMax, 3)| + |Pad(amplitudeMin, 3)| == 21
  {
  }

  /** With the amplitude bounds -51 and -120 and seven-digit frequencies, as
      the capture workflow sends them, the command is 33 bytes long and its
      length byte counts every byte after '#' — whereas the length byte of
      `request_config` counts the '#' as well. */
  lemma CaptureSweepLengthByte(startFreq: int, endFreq: int)
    requires 0 <= startFreq < Pow10(7) && 0 <= endFreq < Pow10(7)
    ensures var m := SweepMessage(startFreq, endFreq, -51, -120);
            |m| == 33 && m[1] == |m| - 1
    ensures RequestConfigMessage()[1] == |RequestConfigMessage()|
  {
    PadExactWidth(startFreq, 7);
    PadExactWidth(endFreq, 7);
    assert Digits(51) == Digits(5) + [ZERO + 1];
    assert Digits(120) == Digits(12) + [ZERO + 0];
    assert Digits(12) == Digits(1) + [ZERO + 2];
  }
}

/** Worked instances of the sweep command, as the capture workflow sends it. */
module CommandExamples {
  import opened Bytes
  import opened Decimal
  import opened Commands

  /** The amplitude part of the capture workflow's sweep command is the
      text `-51,-120` and the terminator, after the two seven-digit
      frequencies. */
  lemma CaptureAmplitudeText(startFreq: int, endFreq: int)
    requires 0 <= startFreq < Pow10(7) && 0 <= endFreq < Pow10(7)
    ensures var m := SweepMessage(startFreq, endFreq, -51, -120);
            |m| == 33 && m[23..] == Ascii("-51,-120\r\n")
  {
    PadExactWidth(startFreq, 7);
    PadExactWidth(endFreq, 7);
    CaptureAmplitudes();
    var head := [HASH, SWEEP_LENGTH_BYTE] + SWEEP_TAG + Pad(startFreq, 7) + [COMMA] + Pad(endFreq, 7) + [COMMA];
    SpliceTail(head, Pad(-51, 3), Pad(-120, 3));
  }

  /** The two amplitude bounds as `'{:03d}'` writes them. */
  lemma CaptureAmplitudes()
    ensures Pad(-51, 3) == Ascii("-51") && Pad(-120, 3) == Ascii("-120")
  {
    assert Digits(51) == Digits(5) + [ZERO + 1];
    assert Digits(120) == Digits(12) + [ZERO + 0];
    assert Digits(12) == Digits(1) + [ZERO + 2];
  }

  lemma SpliceTail(head: seq<Byte>, a: seq<Byte>, b: seq<Byte>)
    requires |head| == 23 && a == Ascii("-51") && b == Ascii("-120")
    ensures |head + a + [COMMA] + b + [CR, LF]| == 33
    ensures (head + a + [COMMA] + b + [CR, LF])[23..] == Ascii("-51,-120\r\n")
  {
    assert (head + a + [COMMA] + b + [CR, LF])[23..] == a + [COMMA] + b + [CR, LF];
  }
}
