/** Shared vocabulary: bytes, optional values and small integer helpers. */
module Common {

  /** An 8-bit value as stored in a Uint8Array. */
  type Byte = x: int | 0 <= x < 256

  /** A JavaScript value that may be absent (`null`, `undefined`, `NaN`). */
  datatype Option<+T> = None | Some(value: T) {
    function GetOr(default: T): T {
      match this
      case Some(v) => v
      case None => default
    }
  }

  /** A computation that either yields a value or throws. */
  datatype Result<+T, +E> = Ok(value: T) | Err(error: E)

  function Min(a: int, b: int): int { if a <= b then a else b }

  function Max(a: int, b: int): int { if a >= b then a else b }
}

/** Clamped stores into a fixed-length byte buffer, as a Uint8Array performs them:
    a store outside `[0, length)` is silently dropped. */
module ByteBuffer {
  import opened Common

  /** `buf[k] = v` on a typed array. */
  function Store(buf: seq<Byte>, k: int, v: Byte): seq<Byte> {
    if 0 <= k < |buf| then buf[k := v] else buf
  }

  /** Stores `bytes[0]`, `bytes[1]`, ... at `pos`, `pos + 1`, ..., one at a time. */
  function WriteAt(buf: seq<Byte>, pos: int, bytes: seq<Byte>): seq<Byte>
    decreases |bytes|
  {
    if bytes == [] then buf else WriteAt(Store(buf, pos, bytes[0]), pos + 1, bytes[1..])
  }

  /** `count` copies of `v`; empty when `count` is not positive. */
  function Repeat(v: Byte, count: int): (r: seq<Byte>)
    ensures |r| == Max(count, 0)
    ensures forall k :: 0 <= k < |r| ==> r[k] == v
    decreases Max(count, 0)
  {
    if count <= 0 then [] else [v] + Repeat(v, count - 1)
  }

  /** The byte at `k` after a clamped write of `bytes` at `pos`. */
  function Written(buf: seq<Byte>, pos: int, bytes: seq<Byte>, k: int): Byte
    requires 0 <= k < |buf|
  {
    if pos <= k < pos + |bytes| then bytes[k - pos] else buf[k]
  }

  /** A sequence of clamped stores keeps the length and changes exactly the
      in-range positions it covers. */
  lemma {:induction false} WriteAtSpec(buf: seq<Byte>, pos: int, bytes: seq<Byte>)
    ensures |WriteAt(buf, pos, bytes)| == |buf|
    ensures forall k :: 0 <= k < |buf| ==> WriteAt(buf, pos, bytes)[k] == Written(buf, pos, bytes, k)
    decreases |bytes|
  {
    if bytes != [] {
      WriteAtSpec(Store(buf, pos, bytes[0]), pos + 1, bytes[1..]);
    }
  }

  /** Writing one more byte extends the previous write by one clamped store. */
  lemma WriteAtSnoc(buf: seq<Byte>, pos: int, bytes: seq<Byte>, v: Byte)
    ensures WriteAt(buf, pos, bytes + [v]) == Store(WriteAt(buf, pos, bytes), pos + |bytes|, v)
  {
    var l := WriteAt(buf, pos, bytes + [v]);
    var w := WriteAt(buf, pos, bytes);
    WriteAtSpec(buf, pos, bytes + [v]);
    WriteAtSpec(buf, pos, bytes);
    var r := Store(w, pos + |bytes|, v);
    assert |l| == |r|;
    forall k | 0 <= k < |l| ensures l[k] == r[k] {
      assert l[k] == Written(buf, pos, bytes + [v], k);
      assert w[k] == Written(buf, pos, bytes, k);
    }
  }
}
