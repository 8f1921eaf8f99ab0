/** What `process_data` does to the driver's state with one inbound frame,
    as a function of the old state: spectrum frames append a sample,
    configuration frames assign the configuration attributes one after
    another, and anything else changes nothing. */
module Protocol {
  import opened Bytes
  import opened Decimal

  /** The configuration attributes a `#C2-F` reply sets. */
  datatype Attr =
    | StartFreq | FreqStep | AmplitudeMax | AmplitudeMin | SweepSteps
    | MinFreq | MaxFreq | MaxSpan | Rbw

  /** The attributes in the order they are assigned ... */
  const ATTRS: seq<Attr> :=
    [StartFreq, FreqStep, AmplitudeMax, AmplitudeMin, SweepSteps, MinFreq, MaxFreq, MaxSpan, Rbw]
  /** ... and the comma-separated field each is read from; fields 5 and 6 are skipped. */
  const POSITIONS: seq<nat> := [0, 1, 2, 3, 4, 7, 8, 9, 10]

  /** The two exceptions decoding can raise. */
  datatype DecodeError = IndexError | ValueError

  /** How a call to `process_data` ends: normally, after printing an unknown
      frame, or with an exception. */
  datatype Outcome = Done | Reported | Raised(error: DecodeError)

  /** The state `process_data` reads and writes: the list of spectrum
      samples and the configuration attributes assigned so far (a Python
      attribute that was never assigned is absent from the map). */
  datatype Snapshot = Snapshot(frames: seq<seq<real>>, config: map<Attr, int>)

  datatype Step = Step(after: Snapshot, outcome: Outcome)

  /** `int(config_array[pos])`: the field parsed, or the exception raised. */
  datatype Field = Parsed(value: int) | Failed(error: DecodeError)

  const TAG_C2F: seq<Byte> := Ascii("C2-F")

  /** The level in dBm of one spectrum byte: half a dB per unit below 0 dBm,
      so it is exact, at most 0 and at least -127.5. */
  function Level(v: Byte): (dbm: real)
    ensures -127.5 <= dbm <= 0.0
    ensures dbm * 2.0 == -(v as real)
  {
    -(v as real) / 2.0
  }

  /** One spectrum sample: the level of every payload byte, in order. */
  function Levels(payload: seq<Byte>): (sample: seq<real>)
    ensures |sample| == |payload|
  {
    seq(|payload|, i requires 0 <= i < |payload| => Level(payload[i]))
  }

  function ReadField(parts: seq<seq<Byte>>, pos: nat): Field
  {
    if pos >= |parts| then Failed(IndexError)
    else match ParseInt(parts[pos])
      case None => Failed(ValueError)
      case Some(v) => Parsed(v)
  }

  /** What `int(config_array[pos])` gives for each attribute's position, in
      assignment order. Reading a field has no effect, so reading them all
      first does not change what the sequential assignment does. */
  function ConfigFields(parts: seq<seq<Byte>>): (fields: seq<Field>)
    ensures |fields| == |ATTRS|
  {
    seq(|POSITIONS|, k requires 0 <= k < |POSITIONS| => ReadField(parts, POSITIONS[k]))
  }

  /** Assigns attributes `k`, `k + 1`, ... in order from their fields,
      stopping at the first field that is missing or not an integer; what
      was assigned before stays assigned. */
  function AssignFrom(config: map<Attr, int>, fields: seq<Field>, k: nat): (r: (map<Attr, int>, Outcome))
    requires |fields| == |ATTRS| && k <= |ATTRS|
    decreases |ATTRS| - k
  {
    if k == |ATTRS| then (config, Done)
    else match fields[k]
      case Failed(e) => (config, Raised(e))
      case Parsed(v) => AssignFrom(config[ATTRS[k] := v], fields, k + 1)
  }

  /** `process_data(data)` on the state `st`. */
  function Process(st: Snapshot, data: seq<Byte>): Step
  {
    if |data| == 0 then Step(st, Raised(IndexError))
    else if data[0] == DOLLAR then
      if |data| < 2 then Step(st, Raised(IndexError))
      else if data[1] == 'S' as int then
        Step(st.(frames := st.frames + [Levels(Tail(data, 3))]), Done)
      else Step(st, Done)
    else if data[0] == HASH then
      if |data| >= 5 && data[1..5] == TAG_C2F then
        var (config, outcome) := AssignFrom(st.config, ConfigFields(Split(Tail(data, 7), COMMA)), 0);
        Step(st.(config := config), outcome)
      else Step(st, Done)
    else Step(st, Reported)
  }

  /** The value of attribute `a`, or `None` while it was never assigned. */
  function Lookup(config: map<Attr, int>, a: Attr): Option<int>
  {
    if a in config then Some(config[a]) else None
  }

  /** How many attributes from the `k`-th on get assigned before the first
      field that fails: all of them have a field that parses, and the one
      after them (if any) has a field that fails. */
  function LeadingParsed(fields: seq<Field>, k: nat): (n: nat)
    requires |fields| == |ATTRS| && k <= |ATTRS|
    ensures k <= n <= |ATTRS|
    ensures forall i | k <= i < n :: fields[i].Parsed?
    ensures n < |ATTRS| ==> fields[n].Failed?
    decreases |ATTRS| - k
  {
    if k == |ATTRS| || fields[k].Failed? then k
    else LeadingParsed(fields, k + 1)
  }

  /** The sequential assignment: attributes `k` up to the first failing
      field get their parsed values, every other attribute keeps its old
      value (or stays unassigned), and the call ends normally exactly when
      no field failed, raising the failing field's exception otherwise. */
  lemma {:induction false} AssignFromEffect(config: map<Attr, int>, fields: seq<Field>, k: nat)
    requires |fields| == |ATTRS| && k <= |ATTRS|
    ensures var n := LeadingParsed(fields, k);
            var (c, outcome) := AssignFrom(config, fields, k);
            && (outcome == if n == |ATTRS| then Done else Raised(fields[n].error))
            && forall i | 0 <= i < |ATTRS| ::
                 Lookup(c, ATTRS[i]) == if k <= i < n then Some(fields[i].value) else Lookup(config, ATTRS[i])
    decreases |ATTRS| - k
  {
    if k < |ATTRS| && fields[k].Parsed? {
      var v := fields[k].value;
      var next := config[ATTRS[k] := v];
      AssignFromEffect(next, fields, k + 1);
      forall i | 0 <= i < |ATTRS|
        ensures Lookup(next, ATTRS[i]) == if i == k then Some(v) else Lookup(config, ATTRS[i])
      {
        AttrsDistinct(i, k);
      }
    }
  }

  /** No attribute is assigned from two positions. */
  lemma AttrsDistinct(i: nat, j: nat)
    requires i < |ATTRS| && j < |ATTRS|
    ensures ATTRS[i] == ATTRS[j] <==> i == j
  {
  }

  /** Spectrum decode: a `$S` frame appends exactly one sample with one level
      per byte from index 3 on (byte 2 is not read), each in [-127.5, 0];
      the configuration is untouched. */
  lemma SpectrumDecode(st: Snapshot, data: seq<Byte>)
    requires |data| >= 2 && data[0] == DOLLAR && data[1] == 'S' as int
    ensures var r := Process(st, data);
            && r.outcome == Done
            && r.after.config == st.config
            && |r.after.frames| == |st.frames| + 1
            && r.after.frames[..|st.frames|] == st.frames
            && var sample := r.after.frames[|st.frames|];
               && |sample| == (if |data| > 3 then |data| - 3 else 0)
               && forall i | 0 <= i < |sample| ::
                    sample[i] == Level(data[3 + i]) && -127.5 <= sample[i] <= 0.0
  {
  }

  /** Ignored frames: a `$` frame not followed by `S`, a `#` frame without
      the `C2-F` tag at bytes 1 to 4, and a frame starting with anything else
      leave the samples and the configuration as they were and raise
      nothing; only the last kind is reported. */
  lemma IgnoredFrames(st: Snapshot, data: seq<Byte>)
    requires |data| >= 1
    requires || (data[0] == DOLLAR && |data| >= 2 && data[1] != 'S' as int)
             || (data[0] == HASH && !(|data| >= 5 && data[1..5] == TAG_C2F))
             || (data[0] != DOLLAR && data[0] != HASH)
    ensures Process(st, data).after == st
    ensures Process(st, data).outcome == if data[0] == DOLLAR || data[0] == HASH then Done else Reported
  {
  }

  /** Decode errors outside the configuration payload: indexing byte 0 of an
      empty frame, or byte 1 of the one-byte frame `$`, raises IndexError
      and changes nothing. */
  lemma ShortFrameRaises(st: Snapshot, data: seq<Byte>)
    requires data == [] || data == [DOLLAR]
    ensures Process(st, data) == Step(st, Raised(IndexError))
  {
  }

  /** Configuration decode: for a `#C2-F` frame the fields of `data[7:]`
      split on commas are assigned in order to the nine attributes from
      positions 0-4 and 7-10 until one is missing or not an integer; fields 5
      and 6 are never parsed, the samples are untouched, and the frame raises
      exactly when some assigned field fails. */
  lemma ConfigDecode(st: Snapshot, data: seq<Byte>)
    requires |data| >= 5 && data[0] == HASH && data[1..5] == TAG_C2F
    ensures var parts := Split(Tail(data, 7), COMMA);
            var n := LeadingParsed(ConfigFields(parts), 0);
            var r := Process(st, data);
            && r.after.frames == st.frames
            && (forall i | 0 <= i < n :: ReadField(parts, POSITIONS[i]).Parsed?)
            && (r.outcome == if n == |ATTRS| then Done else Raised(ReadField(parts, POSITIONS[n]).error))
            && forall i | 0 <= i < |ATTRS| ::
                 Lookup(r.after.config, ATTRS[i]) ==
                   if i < n then Some(ReadField(parts, POSITIONS[i]).value) else Lookup(st.config, ATTRS[i])
  {
    var parts := Split(Tail(data, 7), COMMA);
    var fields := ConfigFields(parts);
    AssignFromEffect(st.config, fields, 0);
    var r := AssignFrom(st.config, fields, 0);
    assert Process(st, data) == Step(st.(config := r.0), r.1);
    assert forall i | 0 <= i < |ATTRS| :: fields[i] == ReadField(parts, POSITIONS[i]);
  }

  /** A configuration payload of fewer than 11 fields always raises: if no
      earlier field fails, reading field 10 is an IndexError. */
  lemma ShortConfigRaises(st: Snapshot, data: seq<Byte>)
    requires |data| >= 5 && data[0] == HASH && data[1..5] == TAG_C2F
    requires |Split(Tail(data, 7), COMMA)| < 11
    ensures Process(st, data).outcome.Raised?
    ensures Process(st, data).after.frames == st.frames
  {
    var fields := ConfigFields(Split(Tail(data, 7), COMMA));
    AssignFromEffect(st.config, fields, 0);
    assert fields[8].Failed?;
  }

  /** Where the configuration payload starts: `data[7:]` skips `#C2-F:` and
      also byte 6, which in a reply `#C2-F:` followed by comma-separated
      fields is the first byte of the first field. */
  lemma ConfigPayloadSkipsByteSix(fields: seq<seq<Byte>>)
    requires |fields| >= 1 && |fields[0]| >= 1
    requires forall i | 0 <= i < |fields| :: COMMA !in fields[i]
    ensures var data := [HASH] + TAG_C2F + Ascii(":") + Join(fields, COMMA);
            Split(Tail(data, 7), COMMA) == [fields[0][1..]] + fields[1..]
  {
    var header := [HASH] + TAG_C2F + Ascii(":");
    var body := Join(fields, COMMA);
    assert |header| == 6;
    assert (header + body)[7..] == body[1..];
    var moved := [fields[0][1..]] + fields[1..];
    JoinWithoutFirstByte(fields, COMMA);
    assert COMMA !in moved[0];
    assert forall i | 1 <= i < |moved| :: moved[i] == fields[i];
    SplitOfJoin(moved, COMMA);
  }

  /** Dropping the first byte of a joined text drops it from the first piece. */
  lemma JoinWithoutFirstByte(parts: seq<seq<Byte>>, sep: Byte)
    requires |parts| >= 1 && |parts[0]| >= 1
    ensures Join(parts, sep)[1..] == Join([parts[0][1..]] + parts[1..], sep)
  {
    var moved := [parts[0][1..]] + parts[1..];
    if |parts| > 1 {
      assert moved[1..] == parts[1..];
      assert (parts[0] + [sep] + Join(parts[1..], sep))[1..]
          == parts[0][1..] + [sep] + Join(parts[1..], sep);
    }
  }
}
