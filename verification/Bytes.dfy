/** Bytes, fixed-width big-endian integers, and the few sequence facts every layer uses. */
module Bytes {
  type byte = b: int | 0 <= b < 0x100
  type u16 = n: int | 0 <= n < 0x1_0000
  type u32 = n: int | 0 <= n < 0x1_0000_0000
  type bytes = seq<byte>

  const MAX_INT64 := 0x7FFF_FFFF_FFFF_FFFF

  datatype Option<+T> = None | Some(value: T)

  /** The outcome of an operation that either produces a value or says why it could not. */
  datatype Result<+T, +E> = Ok(value: T) | Err(error: E)

  function Min(a: int, b: int): int {
    if a <= b then a else b
  }

  function PutU16(n: u16): (b: bytes)
    ensures |b| == 2
  {
    [n / 0x100, n % 0x100]
  }

  function GetU16(b: bytes): u16
    requires |b| >= 2
  {
    b[0] as int * 0x100 + b[1]
  }

  /** The integer at position `at`. */
  function U16At(b: bytes, at: nat): u16
    requires at + 2 <= |b|
  {
    b[at] as int * 0x100 + b[at + 1]
  }

  function PutU32(n: u32): (b: bytes)
    ensures |b| == 4
  {
    PutU16(n / 0x1_0000) + PutU16(n % 0x1_0000)
  }

  function GetU32(b: bytes): u32
    requires |b| >= 4
  {
    GetU16(b[..2]) as int * 0x1_0000 + GetU16(b[2..])
  }

  lemma U16RoundTrip(n: u16)
    ensures GetU16(PutU16(n)) == n
  {
  }

  lemma U16Canonical(b: bytes)
    requires |b| >= 2
    ensures PutU16(GetU16(b)) == b[..2]
  {
    assert b[..2] == [b[0], b[1]];
  }

  lemma U32RoundTrip(n: u32)
    ensures GetU32(PutU32(n)) == n
  {
    assert PutU32(n)[..2] == PutU16(n / 0x1_0000);
    assert PutU32(n)[2..] == PutU16(n % 0x1_0000);
  }

  /** The bytes of a text literal; every literal in this project is ASCII. */
  function Ascii(s: string): (b: bytes)
    ensures |b| == |s|
    ensures forall i :: 0 <= i < |s| ==> b[i] == s[i] as int % 0x100
  {
    seq(|s|, i requires 0 <= i < |s| => s[i] as int % 0x100)
  }

  function Zeros(n: nat): (b: bytes)
    ensures |b| == n
  {
    seq(n, _ => 0)
  }

  lemma Assoc<T>(a: seq<T>, b: seq<T>, c: seq<T>)
    ensures (a + b) + c == a + (b + c)
  {
  }

  lemma Halves<T>(a: seq<T>, b: seq<T>)
    ensures (a + b)[..|a|] == a && (a + b)[|a|..] == b
  {
  }

  lemma HeadAndTail<T>(a: seq<T>, b: seq<T>)
    requires a != []
    ensures (a + b)[0] == a[0] && (a + b)[1..] == a[1..] + b
  {
  }

  function Flatten(parts: seq<bytes>): bytes {
    if parts == [] then [] else parts[0] + Flatten(parts[1..])
  }

  lemma {:induction false} FlattenAppend(a: seq<bytes>, b: seq<bytes>)
    ensures Flatten(a + b) == Flatten(a) + Flatten(b)
  {
    if a == [] {
      assert a + b == b;
    } else {
      FlattenAppend(a[1..], b);
      assert (a + b)[1..] == a[1..] + b;
      Assoc(a[0], Flatten(a[1..]), Flatten(b));
    }
  }

  lemma FlattenSnoc(a: seq<bytes>, x: bytes)
    ensures Flatten(a + [x]) == Flatten(a) + x
  {
    FlattenAppend(a, [x]);
    assert [x][1..] == [];
  }
}
