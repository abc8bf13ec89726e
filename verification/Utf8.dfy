/** UTF-8 as section 4 of RFC 3629 defines it: which byte strings are text, and which text. */
module Utf8 {
  import opened Bytes

  predicate Tail(b: int) {
    0x80 <= b <= 0xBF
  }

  predicate TailsFrom(b: bytes, from: nat, upTo: nat) {
    upTo <= |b| && forall i :: from <= i < upTo ==> Tail(b[i])
  }

  /** The length of the character b starts with: UTF8-1 to UTF8-4 of the grammar, 0 for none. */
  function CharLength(b: bytes): (n: nat)
    ensures n <= 4 && n <= |b|
  {
    if b == [] then 0
    else if b[0] <= 0x7F then 1
    else if 0xC2 <= b[0] <= 0xDF && TailsFrom(b, 1, 2) then 2
    else if && 0xE0 <= b[0] <= 0xEF && TailsFrom(b, 1, 3)
            && (b[0] == 0xE0 ==> b[1] >= 0xA0)
            && (b[0] == 0xED ==> b[1] <= 0x9F) then 3
    else if && 0xF0 <= b[0] <= 0xF4 && TailsFrom(b, 1, 4)
            && (b[0] == 0xF0 ==> b[1] >= 0x90)
            && (b[0] == 0xF4 ==> b[1] <= 0x8F) then 4
    else 0
  }

  predicate Valid(b: bytes) {
    b == [] || (CharLength(b) > 0 && Valid(b[CharLength(b)..]))
  }

  /** The payload bits of a byte whose fixed leading bits are `mark`. */
  function Bits(b: int, mark: int): int {
    b - mark
  }

  /** The code point of the character b starts with. */
  function CodePoint(b: bytes): (c: nat)
    requires CharLength(b) > 0
    ensures c < 0x80 <==> CharLength(b) == 1
    ensures CharLength(b) == 1 ==> c == b[0]
  {
    match CharLength(b)
    case 1 => b[0]
    case 2 => Bits(b[0], 0xC0) * 0x40 + Bits(b[1], 0x80)
    case 3 => Bits(b[0], 0xE0) * 0x1000 + Bits(b[1], 0x80) * 0x40 + Bits(b[2], 0x80)
    case _ =>
      Bits(b[0], 0xF0) * 0x4_0000 + Bits(b[1], 0x80) * 0x1000 + Bits(b[2], 0x80) * 0x40 + Bits(b[3], 0x80)
  }

  /** The code points of a valid byte string. */
  function Decode(b: bytes): seq<int>
    requires Valid(b)
  {
    if b == [] then [] else [CodePoint(b)] + Decode(b[CharLength(b)..])
  }
}
