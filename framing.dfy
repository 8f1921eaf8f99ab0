/** CR LF framing of the bytes the analyzer sends. The serial port hands the
    reader one `read()` result at a time: one byte, or nothing when the
    one-second timeout expires. */
module Framing {
  import opened Bytes

  /** What one `serial.read()` returns: a byte, or nothing on a timeout. */
  type Chunk = c: seq<Byte> | |c| <= 1

  /** The byte stream a sequence of reads delivers. */
  function Flatten(chunks: seq<Chunk>): seq<Byte>
    decreases |chunks|
  {
    if chunks == [] then [] else chunks[0] + Flatten(chunks[1..])
  }

  /** A CR LF terminator starts at index `k` of `s`. */
  predicate CrLfAt(s: seq<Byte>, k: int)
  {
    0 <= k && k + 1 < |s| && s[k] == CR && s[k + 1] == LF
  }

  predicate HasCrLf(s: seq<Byte>)
  {
    exists k | 0 <= k < |s| - 1 :: CrLfAt(s, k)
  }

  /** Where the first terminator of `s` starts. */
  ghost function FirstCrLf(s: seq<Byte>): (k: nat)
    requires HasCrLf(s)
    ensures CrLfAt(s, k)
    ensures forall j | 0 <= j < k :: !CrLfAt(s, j)
    decreases |s|
  {
    if CrLfAt(s, 0) then 0
    else
      var k :| 0 <= k < |s| - 1 && CrLfAt(s, k);
      assert CrLfAt(s[1..], k - 1);
      assert forall j | 1 <= j < |s| :: CrLfAt(s, j) == CrLfAt(s[1..], j - 1);
      1 + FirstCrLf(s[1..])
  }

  /** The frame `read_data` returns from the stream `s`: everything up to and
      including the first CR LF, with the two terminator bytes cut off only
      when something is left before them. */
  ghost function FrameOf(s: seq<Byte>): seq<Byte>
    requires HasCrLf(s)
  {
    var buffer := s[..FirstCrLf(s) + 2];
    if |buffer| > 2 then buffer[..|buffer| - 2] else buffer
  }

  /** How many bytes of `s` one `read_data` call consumes. */
  ghost function FrameEnd(s: seq<Byte>): (n: nat)
    requires HasCrLf(s)
    ensures 2 <= n <= |s|
  {
    FirstCrLf(s) + 2
  }

  /** Frame round trip: a non-empty frame without a CR LF in it, sent with
      its terminator, is read back exactly, consuming `|f| + 2` bytes and
      nothing that follows. */
  lemma FrameRoundTrip(f: seq<Byte>, rest: seq<Byte>)
    requires |f| >= 1 && !HasCrLf(f)
    ensures HasCrLf(f + [CR, LF] + rest)
    ensures FrameEnd(f + [CR, LF] + rest) == |f| + 2
    ensures FrameOf(f + [CR, LF] + rest) == f
  {
    var s := f + [CR, LF] + rest;
    assert CrLfAt(s, |f|);
    forall j | 0 <= j < |f|
      ensures !CrLfAt(s, j)
    {
      if j + 1 < |f| {
        assert !CrLfAt(f, j);
      }
    }
    assert s[..|f| + 2][..|f|] == f;
  }

  /** Frame shape: the frame is never empty; it is the bare terminator
      exactly when the stream starts with CR LF; otherwise it is everything
      before the first CR LF and holds no CR LF itself. */
  lemma FrameShape(s: seq<Byte>)
    requires HasCrLf(s)
    ensures FrameOf(s) != []
    ensures FrameOf(s) == [CR, LF] <==> CrLfAt(s, 0)
    ensures !CrLfAt(s, 0) ==> FrameOf(s) == s[..FirstCrLf(s)] && !HasCrLf(FrameOf(s))
  {
    var k := FirstCrLf(s);
    if k > 0 {
      var f := FrameOf(s);
      assert f == s[..k];
      if HasCrLf(f) {
        var j :| 0 <= j < |f| - 1 && CrLfAt(f, j);
        assert CrLfAt(s, j);
      }
      assert CrLfAt([CR, LF], 0);
    }
  }

  /** The test `read_data` makes after every read: does the buffer end in
      CR LF? */
  predicate EndsWithCrLf(buffer: seq<Byte>)
  {
    |buffer| >= 2 && buffer[|buffer| - 2..] == [CR, LF]
  }

  /** While the bytes read so far hold no CR LF, some chunk is left to
      read, and it is the next part of the stream. */
  lemma ReadMore(input: seq<Chunk>, used: nat, buffer: seq<Byte>)
    requires used <= |input| && buffer + Flatten(input[used..]) == Flatten(input)
    requires HasCrLf(Flatten(input)) && !HasCrLf(buffer)
    ensures used < |input|
    ensures Flatten(input[used..]) == input[used] + Flatten(input[used + 1..])
  {
    assert input[|input|..] == [] && buffer + [] == buffer;
    assert input[used..][1..] == input[used + 1..];
  }

  /** Adding at most one byte to a buffer free of CR LF either keeps it free
      of CR LF or makes it end in CR LF, and then a byte was added. */
  lemma GrowBuffer(before: seq<Byte>, chunk: Chunk)
    requires !HasCrLf(before)
    ensures EndsWithCrLf(before + chunk) ==> chunk != []
    ensures !EndsWithCrLf(before + chunk) ==> !HasCrLf(before + chunk)
  {
    var b := before + chunk;
    forall j | 0 <= j < |before| - 1
      ensures !CrLfAt(b, j)
    {
      assert CrLfAt(b, j) == CrLfAt(before, j);
    }
    if |b| >= 2 {
      assert CrLfAt(b, |b| - 2) <==> EndsWithCrLf(b);
    }
  }

  /** When the bytes read first end in CR LF, they are the stream up to and
      including its first CR LF. */
  lemma FrameAtBufferEnd(before: seq<Byte>, chunk: Chunk, stream: seq<Byte>)
    requires !HasCrLf(before) && EndsWithCrLf(before + chunk)
    requires |before + chunk| <= |stream| && stream[..|before + chunk|] == before + chunk
    ensures HasCrLf(stream) && FrameEnd(stream) == |before + chunk|
  {
    var buffer := before + chunk;
    assert CrLfAt(stream, |buffer| - 2);
    assert forall j | 0 <= j < |buffer| - 2 :: CrLfAt(stream, j) == CrLfAt(before, j);
  }

  lemma SplitStream(read: seq<Byte>, unread: seq<Byte>, stream: seq<Byte>)
    requires read + unread == stream
    ensures stream[..|read|] == read && stream[|read|..] == unread
  {
  }

  /** Reading a chunk moves it from the unread bytes to the read ones. */
  lemma MoveChunk(read: seq<Byte>, chunk: seq<Byte>, unread: seq<Byte>, stream: seq<Byte>)
    requires read + (chunk + unread) == stream
    ensures (read + chunk) + unread == stream
  {
  }
}
