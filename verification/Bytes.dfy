/** Little-endian fixed-width integers (src/common.h).
    The 32- and 64-bit integers of the source are natural numbers, with every narrowing cast written
    out as `% U32` or `% U64`. */
module Bytes {
  import opened Words

  type Byte = b: nat | b < 256

  /** 256^width: one more than the largest integer that fits in `width` bytes. */
  function Range(width: nat): (r: nat)
    ensures r > 0
  {
    if width == 0 then 1 else 256 * Range(width - 1)
  }

  lemma RangeOfWords()
    ensures Range(4) == U32 && Range(8) == U64
  {
    assert Range(2) == 256 * Range(1) == 65536;
    assert Range(4) == 256 * Range(3) && Range(3) == 256 * Range(2);
    assert Range(6) == 256 * Range(5) && Range(5) == 256 * Range(4);
    assert Range(8) == 256 * Range(7) && Range(7) == 256 * Range(6);
  }

  /** The `width` low-order bytes of `value`, least significant first. */
  function LE(value: nat, width: nat): (bytes: seq<Byte>)
    ensures |bytes| == width
  {
    if width == 0 then [] else [value % 256] + LE(value / 256, width - 1)
  }

  /** The integer that a little-endian byte string stands for. */
  function FromLE(bytes: seq<Byte>): (value: nat)
    ensures value < Range(|bytes|)
  {
    if bytes == [] then 0 else bytes[0] + 256 * FromLE(bytes[1..])
  }

  /** Decoding what was encoded gives the value back, cut to the width of the field. */
  lemma {:induction false} FromLEOfLE(value: nat, width: nat)
    ensures FromLE(LE(value, width)) == value % Range(width)
  {
    if width == 0 {
    } else {
      var lo, hi := value % 256, value / 256;
      FromLEOfLE(hi, width - 1);
      assert LE(value, width)[1..] == LE(hi, width - 1);
      ModSplit(value, Range(width - 1));
    }
  }

  /** Encoding is injective on byte strings: encoding the decoded value gives the bytes back. */
  lemma {:induction false} LEOfFromLE(bytes: seq<Byte>)
    ensures LE(FromLE(bytes), |bytes|) == bytes
  {
    if bytes == [] {
    } else {
      LEOfFromLE(bytes[1..]);
      var v := FromLE(bytes);
      assert v % 256 == bytes[0] && v / 256 == FromLE(bytes[1..]);
      assert bytes == [bytes[0]] + bytes[1..];
    }
  }

  lemma ModSplit(value: nat, m: nat)
    requires m > 0
    ensures value % (256 * m) == value % 256 + 256 * ((value / 256) % m)
  {
    var hi := value / 256;
    DivMod(value, 256 * m, hi / m, value % 256 + 256 * (hi % m));
  }

  /** Reading one more byte adds it at the next power of 256. */
  lemma {:induction false} FromLESnoc(bytes: seq<Byte>, last: Byte)
    ensures FromLE(bytes + [last]) == FromLE(bytes) + Range(|bytes|) * last
  {
    if bytes == [] {
    } else {
      assert (bytes + [last])[1..] == bytes[1..] + [last];
      FromLESnoc(bytes[1..], last);
      Regroup(Range(|bytes| - 1), last);
    }
  }

  lemma Regroup(m: nat, x: nat)
    ensures 256 * (m * x) == (256 * m) * x
  {}

  /** appendFixed32LE and appendFixed64LE: push the bytes one at a time. */
  method AppendFixedLE(out: seq<Byte>, value: nat, width: nat) returns (extended: seq<Byte>)
    ensures extended == out + LE(value, width)
  {
    extended := out;
    var rest := value;
    for i := 0 to width
      invariant extended + LE(rest, width - i) == out + LE(value, width)
    {
      extended := extended + [rest % 256];
      rest := rest / 256;
    }
  }

  /** `out` with the bytes from `offset` on replaced by `patch`. */
  function Patched(out: seq<Byte>, offset: nat, patch: seq<Byte>): (r: seq<Byte>)
    requires offset + |patch| <= |out|
    ensures |r| == |out|
  {
    out[..offset] + patch + out[offset + |patch|..]
  }

  /** writeFixed32LE and writeFixed64LE: overwrite bytes of a buffer in place. */
  method WriteFixedLE(out: seq<Byte>, offset: nat, value: nat, width: nat) returns (written: seq<Byte>)
    requires offset + width <= |out|
    ensures written == Patched(out, offset, LE(value, width))
  {
    written := out;
    var rest := value;
    for i := 0 to width
      invariant |written| == |out|
      invariant Patched(written, offset + i, LE(rest, width - i)) == Patched(out, offset, LE(value, width))
    {
      ghost var before := Patched(written, offset + i, LE(rest, width - i));
      written := written[offset + i := rest % 256];
      rest := rest / 256;
      assert Patched(written, offset + i + 1, LE(rest, width - i - 1)) == before;
    }
  }

  /** readFixed32LE and readFixed64LE: fail when too few bytes are left, else decode and advance. */
  method ReadFixedLE(bytes: seq<Byte>, offset: nat, width: nat) returns (ok: bool, value: nat, next: nat)
    ensures ok <==> offset + width <= |bytes|
    ensures !ok ==> next == offset
    ensures ok ==> next == offset + width && value == FromLE(bytes[offset..offset + width])
  {
    if offset + width > |bytes| {
      return false, 0, offset;
    }
    value := 0;
    var unit: nat := 1;
    for i := 0 to width
      invariant value == FromLE(bytes[offset..offset + i]) && unit == Range(i)
    {
      FromLESnoc(bytes[offset..offset + i], bytes[offset + i]);
      assert bytes[offset..offset + i + 1] == bytes[offset..offset + i] + [bytes[offset + i]];
      value := value + unit * bytes[offset + i];
      unit := 256 * unit;
    }
    return true, value, offset + width;
  }
}
