/** Bytes, fixed-width integers and the byte-string operations the servers use on blocks. */
module Bytes {

  type byte = b: int | 0 <= b < 256
  type uint16 = n: int | 0 <= n < 0x1_0000
  type uint32 = n: int | 0 <= n < 0x1_0000_0000

  /** A 256-bit file key. */
  type Uuid = u: seq<byte> | |u| == 32 witness seq(32, _ => 0)

  datatype Option<+T> = None | Some(value: T)

  function Min(a: int, b: int): int { if a <= b then a else b }
  function Max(a: int, b: int): int { if a <= b then b else a }

  function Zeros(n: nat): seq<byte> { seq(n, _ => 0) }

  /** std::string::resize: truncate, or pad with NUL bytes. */
  function Resize(s: seq<byte>, n: nat): seq<byte> {
    if n <= |s| then s[..n] else s + Zeros(n - |s|)
  }

  /** A block after `data` has been copied over it at `offset`, growing it when it is too short. */
  function Overlay(was: seq<byte>, offset: nat, data: seq<byte>): (r: seq<byte>)
    ensures |r| == Max(offset + |data|, |was|)
    ensures forall k | 0 <= k < |r| ::
              r[k] == if offset <= k < offset + |data| then data[k - offset]
                      else if k < |was| then was[k] else 0
  {
    var b := Resize(was, Max(offset + |data|, |was|));
    b[..offset] + data + b[offset + |data|..]
  }
}
