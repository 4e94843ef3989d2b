/** Bytes, the byte constants of the multipart parser and the few character
    functions the form assembler needs. */
module Bytes {

  /** One element of a `Uint8Array`. */
  type byte = b: int | 0 <= b < 256

  const LF: byte := 10
  const CR: byte := 13
  const SPACE: byte := 32
  const HYPHEN: byte := 45
  const COLON: byte := 58
  const LOWER_A: byte := 97
  const LOWER_Z: byte := 122

  /** A letter of the ASCII alphabet, either case. */
  predicate IsAsciiLetter(c: byte) {
    65 <= c <= 90 || 97 <= c <= 122
  }

  /** `c | 0x20`: the byte with bit 5 set. */
  function Lower(c: byte): byte {
    if (c / 32) % 2 == 1 then c else c + 32
  }

  /** Setting bit 5 keeps the other bits. */
  lemma LowerSetsBit(c: byte)
    ensures Lower(c) % 32 == c % 32 && (Lower(c) / 32) % 2 == 1
    ensures Lower(c) / 64 == c / 64
  {
  }

  /** The header-name test of the parser: `c | 0x20` lies in `a`..`z`
      exactly when `c` is an ASCII letter. */
  lemma LowerIsLetterTest(c: byte)
    ensures LOWER_A <= Lower(c) <= LOWER_Z <==> IsAsciiLetter(c)
  {
    LowerSetsBit(c);
    if c < 64 {
      assert Lower(c) < 64;
    } else if c < 128 {
      assert 64 <= Lower(c) < 128;
      assert Lower(c) == if c < 96 then c + 32 else c;
    } else {
      assert Lower(c) >= 128;
    }
  }

  /** The byte a `Uint8Array` stores for a character's code. This is the
      source's `charCodeAt` only for characters below U+10000, which are one
      UTF-16 code unit each; a character above that is two code units there
      and one byte here. */
  function CodeUnitByte(ch: char): (r: byte)
    ensures (ch as int) < 256 ==> r == ch as int
  {
    (ch as int) % 256
  }

  /** ASCII lower-casing of one character. */
  function AsciiLowerChar(ch: char): (r: char)
    ensures 'A' <= ch <= 'Z' ==> r as int == ch as int + 32
    ensures !('A' <= ch <= 'Z') ==> r == ch
  {
    if 'A' <= ch <= 'Z' then (ch as int + 32) as char else ch
  }

  /** ASCII lower-casing of a string. */
  function AsciiLower(s: string): (r: string)
    ensures |r| == |s|
    ensures forall k :: 0 <= k < |s| ==> r[k] == AsciiLowerChar(s[k])
  {
    seq(|s|, k requires 0 <= k < |s| => AsciiLowerChar(s[k]))
  }

  /** Bytes read as the characters with the same code (ISO-8859-1).  It is
      the identity of UTF-8 decoding on ASCII input. */
  function Latin1(bs: seq<byte>): (r: string)
    ensures |r| == |bs|
    ensures forall k :: 0 <= k < |bs| ==> r[k] as int == bs[k]
  {
    seq(|bs|, k requires 0 <= k < |bs| => bs[k] as char)
  }
}
