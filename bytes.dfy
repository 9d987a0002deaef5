/**
 * Bytes, byte strings and the two failure-carrying wrappers shared by the
 * device-side codec (C++) and the host-side tool (Python).
 */
module Bytes {

  /** An unsigned 8-bit value: `uint8_t` in the device code, an element of a `bytearray` on the host. */
  type byte = x: int | 0 <= x < 256

  datatype Option<+T> = None | Some(value: T)

  datatype Result<+T, +E> = Ok(value: T) | Err(error: E)

  /** The concatenation of a list of chunks, oldest first. */
  function Flatten(chunks: seq<seq<byte>>): seq<byte>
  {
    if chunks == [] then [] else chunks[0] + Flatten(chunks[1..])
  }

  lemma {:induction false} FlattenAppend(a: seq<seq<byte>>, b: seq<seq<byte>>)
    ensures Flatten(a + b) == Flatten(a) + Flatten(b)
  {
    if a == [] {
      assert a + b == b;
    } else {
      assert (a + b)[1..] == a[1..] + b;
      FlattenAppend(a[1..], b);
    }
  }

  lemma FlattenOne(c: seq<byte>)
    ensures Flatten([c]) == c
  {
    assert [c][1..] == [];
  }

  /** The chunks up to `j` and one more: the concatenation grows by that chunk and stays within the whole. */
  lemma FlattenPrefix(chunks: seq<seq<byte>>, j: nat)
    requires j < |chunks|
    ensures Flatten(chunks[..j + 1]) == Flatten(chunks[..j]) + chunks[j]
    ensures |Flatten(chunks[..j + 1])| <= |Flatten(chunks)|
  {
    assert chunks[..j + 1] == chunks[..j] + [chunks[j]];
    FlattenAppend(chunks[..j], [chunks[j]]);
    FlattenOne(chunks[j]);
    assert chunks == chunks[..j + 1] + chunks[j + 1..];
    FlattenAppend(chunks[..j + 1], chunks[j + 1..]);
  }

  /** No byte of `s` is the frame delimiter 0x00. */
  predicate ZeroFree(s: seq<byte>)
  {
    forall i :: 0 <= i < |s| ==> s[i] != 0
  }

  /** Every chunk is zero-free, hence so is their concatenation. */
  lemma {:induction false} FlattenZeroFree(chunks: seq<seq<byte>>)
    requires forall k :: 0 <= k < |chunks| ==> ZeroFree(chunks[k])
    ensures ZeroFree(Flatten(chunks))
  {
    if chunks != [] {
      FlattenZeroFree(chunks[1..]);
      assert Flatten(chunks) == chunks[0] + Flatten(chunks[1..]);
    }
  }

  /** The bytes of an ASCII string literal. */
  function Ascii(s: string): (r: seq<byte>)
    requires forall i :: 0 <= i < |s| ==> s[i] < 128 as char
    ensures |r| == |s| && forall i :: 0 <= i < |s| ==> r[i] == s[i] as int
  {
    if s == [] then [] else [s[0] as int] + Ascii(s[1..])
  }

  function Min(a: int, b: int): int
  {
    if a < b then a else b
  }
}
