/** Lengths in bytes of text in UTF-8. */
module Utf8 {
  /** RFC 3629, section 3. */
  function Utf8Width(c: char): (n: nat)
    ensures 1 <= n <= 4
  {
    var code := c as int;
    if code < 0x80 then 1 else if code < 0x800 then 2 else if code < 0x1_0000 then 3 else 4
  }

  /** The byte position after the first `i` characters. */
  function BytePosition(s: string, i: nat): nat
    requires i <= |s|
  {
    if i == 0 then 0 else BytePosition(s, i - 1) + Utf8Width(s[i - 1])
  }

  function ByteLength(s: string): nat {
    BytePosition(s, |s|)
  }
}
