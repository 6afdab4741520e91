/** Bytes, machine words and the little-endian records kept in flash and in image files. */
module Bytes {

  type byte = x: int | 0 <= x < 0x100
  type u16 = x: int | 0 <= x < 0x1_0000
  type u32 = x: int | 0 <= x < 0x1_0000_0000

  /** A checksum over bytes. Every statement in the project holds for all of them. */
  type Checksum = seq<byte> -> u32

  /** Number of values a field of w bytes can hold. */
  function Range(w: nat): (r: nat)
    ensures r >= 1
  {
    if w == 0 then 1 else 0x100 * Range(w - 1)
  }

  /** Little-endian bytes of v, w of them. */
  function Le(w: nat, v: nat): (b: seq<byte>)
    ensures |b| == w
  {
    if w == 0 then [] else [v % 0x100] + Le(w - 1, v / 0x100)
  }

  function FromLe(b: seq<byte>): (v: nat)
    ensures v < Range(|b|)
  {
    if b == [] then 0 else b[0] as int + 0x100 * FromLe(b[1..])
  }

  lemma {:induction false} FromLeLe(w: nat, v: nat)
    requires v < Range(w)
    ensures FromLe(Le(w, v)) == v
  {
    if w > 0 {
      FromLeLe(w - 1, v / 0x100);
      assert Le(w, v)[1..] == Le(w - 1, v / 0x100);
    }
  }

  lemma {:induction false} LeFromLe(b: seq<byte>)
    ensures Le(|b|, FromLe(b)) == b
  {
    if b != [] {
      LeFromLe(b[1..]);
      var v := FromLe(b);
      assert v % 0x100 == b[0] && v / 0x100 == FromLe(b[1..]);
    }
  }

  /** A record format: the byte width of each field, in order. */
  type Format = seq<nat>

  function Size(f: Format): nat {
    if f == [] then 0 else f[0] + Size(f[1..])
  }

  ghost predicate Fits(f: Format, vals: seq<nat>) {
    |vals| == |f| && forall i :: 0 <= i < |f| ==> vals[i] < Range(f[i])
  }

  function Pack(f: Format, vals: seq<nat>): (b: seq<byte>)
    requires |vals| == |f|
    ensures |b| == Size(f)
  {
    if f == [] then [] else Le(f[0], vals[0]) + Pack(f[1..], vals[1..])
  }

  function Unpack(f: Format, b: seq<byte>): (vals: seq<nat>)
    requires |b| == Size(f)
    ensures Fits(f, vals)
  {
    if f == [] then [] else [FromLe(b[..f[0]])] + Unpack(f[1..], b[f[0]..])
  }

  lemma {:induction false} UnpackPack(f: Format, vals: seq<nat>)
    requires Fits(f, vals)
    ensures Unpack(f, Pack(f, vals)) == vals
  {
    if f != [] {
      var b := Pack(f, vals);
      assert b[..f[0]] == Le(f[0], vals[0]) && b[f[0]..] == Pack(f[1..], vals[1..]);
      FromLeLe(f[0], vals[0]);
      UnpackPack(f[1..], vals[1..]);
    }
  }

  lemma {:induction false} PackUnpack(f: Format, b: seq<byte>)
    requires |b| == Size(f)
    ensures Pack(f, Unpack(f, b)) == b
  {
    if f != [] {
      var head, tail := b[..f[0]], b[f[0]..];
      LeFromLe(head);
      PackUnpack(f[1..], tail);
      var vals := [FromLe(head)] + Unpack(f[1..], tail);
      assert Unpack(f, b) == vals;
      assert vals[1..] == Unpack(f[1..], tail);
      assert b == head + tail;
    }
  }
}
