/** The channel between the ftp process and the privileged process: bytes, with passed
    descriptors in between, read and written in pieces of any size. */
module PrivChannel {
  import SysUtil
  import opened Wrappers

  /** A byte, or the byte that carries a descriptor for an open file. */
  datatype Item = Byte(b: nat) | Fd(file: int)

  const INT_RANGE: int := 0x1_0000_0000

  ghost predicate IsInt(n: int) {
    -0x8000_0000 <= n < 0x8000_0000
  }

  /** The four bytes of an int in memory. */
  function EncodeInt(n: int): (bytes: seq<Item>)
    ensures |bytes| == 4
  {
    var u := n % INT_RANGE;
    [Byte(u % 256), Byte(u / 256 % 256), Byte(u / 256 / 256 % 256), Byte(u / 256 / 256 / 256)]
  }

  function Value(item: Item): nat {
    if item.Byte? then item.b else 0
  }

  function DecodeInt(bytes: seq<Item>): int
    requires |bytes| == 4
  {
    var u := Value(bytes[0]) + 256 * (Value(bytes[1]) + 256 * (Value(bytes[2]) + 256 * Value(bytes[3])));
    if u < 0x8000_0000 then u else u - INT_RANGE
  }

  lemma IntRoundTrip(n: int)
    requires IsInt(n)
    ensures DecodeInt(EncodeInt(n)) == n
  {
  }

  /** One direction of the channel. */
  class Pipe {
    var data: seq<Item>

    constructor ()
      ensures data == []
    {
      data := [];
    }

    method Writen(buf: seq<Item>, sizes: nat -> nat)
      modifies this
      ensures data == old(data) + buf
    {
      data := SysUtil.Writen(data, buf, sizes);
    }

    method Readn(count: nat, sizes: nat -> nat) returns (buf: seq<Item>)
      modifies this
      ensures var n := Min(count, |old(data)|);
              buf == old(data)[..n] && data == old(data)[n..]
    {
      buf, data := SysUtil.Readn(data, count, sizes);
    }

    method SendByte(b: nat, sizes: nat -> nat)
      modifies this
      ensures data == old(data) + [Byte(b)]
    {
      Writen([Byte(b)], sizes);
    }

    /** None stands for the exit on a missing byte. */
    method GetByte(sizes: nat -> nat) returns (b: Option<nat>)
      modifies this
      ensures b.Some? <==> old(data) != []
      ensures b.Some? ==> b.value == Value(old(data)[0]) && data == old(data)[1..]
    {
      var buf := Readn(1, sizes);
      if |buf| != 1 {
        return None;
      }
      return Some(Value(buf[0]));
    }

    method SendInt(n: int, sizes: nat -> nat)
      modifies this
      ensures data == old(data) + EncodeInt(n)
    {
      Writen(EncodeInt(n), sizes);
    }

    method GetInt(sizes: nat -> nat) returns (n: Option<int>)
      modifies this
      ensures n.Some? <==> |old(data)| >= 4
      ensures n.Some? ==> n.value == DecodeInt(old(data)[..4]) && data == old(data)[4..]
    {
      var buf := Readn(4, sizes);
      if |buf| != 4 {
        return None;
      }
      return Some(DecodeInt(buf));
    }

    method SendBuf(buf: seq<Item>, sizes: nat -> nat)
      modifies this
      ensures data == old(data) + EncodeInt(|buf|) + buf
    {
      SendInt(|buf|, sizes);
      Writen(buf, sizes);
    }

    /** The length prefix must fit the receiver's buffer of `len` bytes. */
    method RecvBuf(len: nat, sizes: nat -> nat) returns (buf: Option<seq<Item>>)
      modifies this
      ensures forall b, rest :: |b| <= len < 0x8000_0000 && old(data) == EncodeInt(|b|) + b + rest ==>
                buf == Some(b) && data == rest
    {
      ghost var d := data;
      var n := GetInt(sizes);
      if n.None? || !(0 <= n.value <= len) {
        RecvBufFits(d, len);
        return None;
      }
      var b := Readn(n.value, sizes);
      RecvBufFits(d, len);
      if |b| != n.value {
        return None;
      }
      return Some(b);
    }

    lemma RecvBufFits(d: seq<Item>, len: nat)
      ensures forall b, rest :: |b| <= len < 0x8000_0000 && d == EncodeInt(|b|) + b + rest ==>
                && |d| >= 4 && DecodeInt(d[..4]) == |b| && d[4..] == b + rest
                && (b + rest)[..|b|] == b && (b + rest)[|b|..] == rest
    {
      forall b, rest | |b| <= len < 0x8000_0000 && d == EncodeInt(|b|) + b + rest
        ensures && |d| >= 4 && DecodeInt(d[..4]) == |b| && d[4..] == b + rest
                && (b + rest)[..|b|] == b && (b + rest)[|b|..] == rest
      {
        IntRoundTrip(|b|);
        assert d[..4] == EncodeInt(|b|);
      }
    }

    method SendFd(file: int)
      modifies this
      ensures data == old(data) + [Fd(file)]
    {
      data := data + [Fd(file)];
    }

    /** None stands for the exit when no descriptor is attached. */
    method RecvFd() returns (file: Option<int>)
      modifies this
      ensures old(data) != [] && old(data)[0].Fd? ==> file == Some(old(data)[0].file) && data == old(data)[1..]
      ensures file.Some? ==> old(data) != [] && old(data)[0] == Fd(file.value)
    {
      if data == [] {
        return None;
      }
      var item := data[0];
      data := data[1..];
      if item.Byte? {
        return None;
      }
      return Some(item.file);
    }
  }
}
