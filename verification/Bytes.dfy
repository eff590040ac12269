/**
  Bytes, nibbles and the small sequence facts the other modules share.
  Nibble order is the order in which libdevcore/TrieCommon.h reads a byte: high half first.
 */
module Bytes {

  type Byte = b: int | 0 <= b < 256

  type Nibble = n: int | 0 <= n < 16

  type Bytes = seq<Byte>

  type Key = seq<Nibble>

  datatype Option<+T> = None | Some(value: T)

  /** The length of the longest common prefix of two nibble keys. */
  function Shared(a: Key, b: Key): (n: nat)
    ensures n <= |a| && n <= |b| && a[..n] == b[..n]
    ensures n < |a| && n < |b| ==> a[n] != b[n]
  {
    if a == [] || b == [] || a[0] != b[0] then 0
    else
      var n := 1 + Shared(a[1..], b[1..]);
      assert a[..n] == [a[0]] + a[1..][..n - 1] && b[..n] == [b[0]] + b[1..][..n - 1];
      n
  }

  /** The base-16 digits of a byte string, most significant half first. */
  function AsNibbles(s: Bytes): (k: Key)
    ensures |k| == 2 * |s|
    ensures forall i {:trigger s[i]} :: 0 <= i < |s| ==> k[2 * i] == s[i] / 16 && k[2 * i + 1] == s[i] % 16
  {
    if s == [] then []
    else
      var rest := AsNibbles(s[1..]);
      var k := [s[0] / 16, s[0] % 16] + rest;
      assert forall i {:trigger s[i]} :: 1 <= i < |s| ==> s[i] == s[1..][i - 1] && k[2 * i] == rest[2 * (i - 1)] && k[2 * i + 1] == rest[2 * (i - 1) + 1];
      k
  }

  /** Distinct byte strings have distinct nibble strings. */
  lemma {:induction false} AsNibblesInjective(a: Bytes, b: Bytes)
    requires AsNibbles(a) == AsNibbles(b)
    ensures a == b
  {
    assert |a| == |b|;
    forall i | 0 <= i < |a| ensures a[i] == b[i] {
      assert a[i] / 16 == b[i] / 16 && a[i] % 16 == b[i] % 16;
    }
  }
}
