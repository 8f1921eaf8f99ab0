/** Bytes as the Python 2 `str` values of the RF Explorer driver carry them,
    the ASCII constants of the wire protocol, and `str.split` on one separator. */
module Bytes {

  /** One octet of a serial-port stream. */
  type Byte = b: int | 0 <= b < 256

  datatype Option<T> = None | Some(value: T)

  const CR: Byte := 0x0D     // '\r'
  const LF: Byte := 0x0A     // '\n'
  const HASH: Byte := 0x23   // '#'
  const DOLLAR: Byte := 0x24 // '$'
  const PLUS: Byte := 0x2B   // '+'
  const COMMA: Byte := 0x2C  // ','
  const MINUS: Byte := 0x2D  // '-'
  const ZERO: Byte := 0x30   // '0'
  const NINE: Byte := 0x39   // '9'

  /** The bytes of an ASCII literal. */
  function Ascii(s: string): (r: seq<Byte>)
    requires forall i | 0 <= i < |s| :: s[i] as int < 128
    ensures |r| == |s|
  {
    seq(|s|, i requires 0 <= i < |s| => s[i] as int)
  }

  /** `s[i:]` in Python: empty when `i` is past the end. */
  function Tail(s: seq<Byte>, i: nat): seq<Byte>
  {
    if i <= |s| then s[i..] else []
  }

  /** The pieces joined back with the separator between them; inverse of `Split`. */
  function Join(parts: seq<seq<Byte>>, sep: Byte): seq<Byte>
    requires |parts| >= 1
    decreases |parts|
  {
    if |parts| == 1 then parts[0] else parts[0] + [sep] + Join(parts[1..], sep)
  }

  /** Python's `s.split(sep)` for a one-byte separator: there is always at
      least one piece, no piece holds the separator, and joining the pieces
      gives `s` back. */
  function Split(s: seq<Byte>, sep: Byte): (parts: seq<seq<Byte>>)
    ensures |parts| >= 1
    ensures forall i | 0 <= i < |parts| :: sep !in parts[i]
    ensures Join(parts, sep) == s
    decreases |s|
  {
    if s == [] then [[]]
    else
      var rest := Split(s[1..], sep);
      if s[0] == sep then
        [[]] + rest
      else
        var parts := [[s[0]] + rest[0]] + rest[1..];
        assert parts[1..] == rest[1..];
        parts
  }

  /** Splitting a text that starts with a separator-free piece `p`. */
  lemma {:induction false} SplitAfterPiece(p: seq<Byte>, t: seq<Byte>, sep: Byte)
    requires sep !in p
    ensures Split(p + t, sep) == [p + Split(t, sep)[0]] + Split(t, sep)[1..]
    decreases |p|
  {
    if p != [] {
      assert (p + t)[1..] == p[1..] + t;
      SplitAfterPiece(p[1..], t, sep);
      assert [p[0]] + (p[1..] + Split(t, sep)[0]) == p + Split(t, sep)[0];
    } else {
      var q := Split(t, sep);
      assert p + t == t && p + q[0] == q[0];
      assert q == [q[0]] + q[1..];
    }
  }

  /** `Split` undoes `Join` when no piece holds the separator. */
  lemma {:induction false} SplitOfJoin(parts: seq<seq<Byte>>, sep: Byte)
    requires |parts| >= 1
    requires forall i | 0 <= i < |parts| :: sep !in parts[i]
    ensures Split(Join(parts, sep), sep) == parts
    decreases |parts|
  {
    if |parts| == 1 {
      SplitAfterPiece(parts[0], [], sep);
      assert parts[0] + [] == parts[0];
    } else {
      SplitOfJoin(parts[1..], sep);
      SplitAfterSeparator(parts[0], Join(parts[1..], sep), parts[1..], sep);
      assert Join(parts, sep) == parts[0] + ([sep] + Join(parts[1..], sep));
      assert parts == [parts[0]] + parts[1..];
    }
  }

  /** Splitting a piece, a separator and a text whose pieces are known. */
  lemma SplitAfterSeparator(p: seq<Byte>, rest: seq<Byte>, pieces: seq<seq<Byte>>, sep: Byte)
    requires sep !in p && Split(rest, sep) == pieces
    ensures Split(p + ([sep] + rest), sep) == [p] + pieces
  {
    var t := [sep] + rest;
    assert t[1..] == rest;
    assert Split(t, sep) == [[]] + pieces;
    SplitAfterPiece(p, t, sep);
    assert p + [] == p;
    assert ([[]] + pieces)[1..] == pieces;
  }
}
