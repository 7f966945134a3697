/**
 * Bytes as the NMEA code sees them. The C parser narrows each `char` to
 * `uint8_t`, and the Python reference decoder runs on Python 2 byte strings,
 * so in both a character stands for its code modulo 256.
 */
module Bytes {

  function ByteOf(c: char): bv8
  {
    ((c as int) % 256) as bv8
  }

  /** Running XOR of every byte of `s`, in the order the checksum loops visit them. */
  function XorAll(s: string): bv8
  {
    if s == [] then 0 else XorAll(s[..|s| - 1]) ^ ByteOf(s[|s| - 1])
  }

  /** The checksum of a concatenation is the XOR of the checksums of its parts. */
  lemma {:induction false} XorAllAppend(a: string, b: string)
    ensures XorAll(a + b) == XorAll(a) ^ XorAll(b)
    decreases |b|
  {
    if b == [] {
      assert a + b == a;
    } else {
      var b' := b[..|b| - 1];
      assert (a + b)[..|a + b| - 1] == a + b';
      XorAllAppend(a, b');
    }
  }

  /** Changing any one byte of a sentence changes its checksum. */
  lemma {:induction false} XorAllDetectsSingleChange(s: string, i: nat, c: char)
    requires i < |s| && ByteOf(c) != ByteOf(s[i])
    ensures XorAll(s[i := c]) != XorAll(s)
  {
    var a, b := s[..i], s[i + 1..];
    assert s == (a + [s[i]]) + b;
    assert s[i := c] == (a + [c]) + b;
    XorAllAppend(a + [s[i]], b);
    XorAllAppend(a, [s[i]]);
    XorAllAppend(a + [c], b);
    XorAllAppend(a, [c]);
    assert [s[i]][..0] == [] && [c][..0] == [];
  }
}
