/** Bytes, byte buffers and the two wrapper datatypes shared by every module. */
module Bytes {

  type byte = b: int | 0 <= b < 256

  datatype Option<+T> = None | Some(value: T)

  datatype Result<+T, +E> = Ok(value: T) | Err(error: E)

  function Zeros(n: nat): (z: seq<byte>)
    ensures |z| == n
    ensures forall i :: 0 <= i < n ==> z[i] == 0
  {
    seq(n, _ => 0)
  }

  /** `buf` with `data` copied over the bytes that start at `at`. */
  function Overwrite(buf: seq<byte>, at: nat, data: seq<byte>): (r: seq<byte>)
    requires at + |data| <= |buf|
    ensures |r| == |buf|
  {
    buf[..at] + data + buf[at + |data|..]
  }

  /** `buf[at..at + data.len()].copy_from_slice(data)`. */
  method CopyFromSlice(buf: array<byte>, at: nat, data: seq<byte>)
    requires at + |data| <= buf.Length
    modifies buf
    ensures buf[..] == Overwrite(old(buf[..]), at, data)
  {
    forall i | 0 <= i < |data| {
      buf[at + i] := data[i];
    }
  }

  /** `u32::to_be_bytes`. */
  function ToBe32(v: nat): (s: seq<byte>)
    requires v < 0x1_0000_0000
    ensures |s| == 4
  {
    [v / 256 / 256 / 256, v / 256 / 256 % 256, v / 256 % 256, v % 256]
  }

  /** `u32::from_be_bytes`. */
  function FromBe32(s: seq<byte>): (v: nat)
    requires |s| == 4
    ensures v < 0x1_0000_0000
  {
    ((s[0] as int * 256 + s[1]) * 256 + s[2]) * 256 + s[3]
  }

  lemma ToThenFromBe32(v: nat)
    requires v < 0x1_0000_0000
    ensures FromBe32(ToBe32(v)) == v
  {
    assert v / 256 / 256 == v / 256 / 256 / 256 * 256 + v / 256 / 256 % 256;
  }

  lemma DigitSplit(high: nat, low: byte)
    ensures (high * 256 + low) / 256 == high && (high * 256 + low) % 256 == low
  {
  }

  lemma FromThenToBe32(s: seq<byte>)
    requires |s| == 4
    ensures ToBe32(FromBe32(s)) == s
  {
    var two := s[0] as int * 256 + s[1];
    var three := two * 256 + s[2];
    DigitSplit(s[0], s[1]);
    DigitSplit(two, s[2]);
    DigitSplit(three, s[3]);
  }
}
