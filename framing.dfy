/**
  The framing layer shared by both roles: a connection as an object whose
  `send` and `recv` move an arbitrary, transport-chosen number of bytes, the
  exact-count loops `send_all` and `recv_exact` built on them, and the
  16-bit and 64-bit big-endian integer fields.
 */
module Framing {
  import opened Bytes

  /** The payload chunk size both roles use (ft.py `CHUNK`). */
  const CHUNK: nat := 8192

  /** The three control tokens, as ASCII bytes. */
  const OK: seq<byte> := [79, 75]       // "OK"
  const NO: seq<byte> := [78, 79]       // "NO"
  const ACK: seq<byte> := [65, 67, 75]  // "ACK"

  /** One end of a reliable, ordered byte-stream connection.
      `sent` is everything this end has handed to the transport, in order;
      `inbox` is everything the peer will still deliver before it closes;
      `room` is how many more bytes the peer takes before it stops reading.
      How many bytes one `Send` or `Recv` moves is the transport's choice. */
  class Stream {
    var sent: seq<byte>
    var inbox: seq<byte>
    var room: nat

    constructor (inbox: seq<byte>, room: nat)
      ensures this.sent == [] && this.inbox == inbox && this.room == room
    {
      this.sent := [];
      this.inbox := inbox;
      this.room := room;
    }

    /** `socket.send`: takes a non-empty prefix of `data` and reports its
        length, or reports 0 once the peer no longer reads. */
    method Send(data: seq<byte>) returns (n: int)
      requires |data| > 0
      modifies this
      ensures n <= |data|
      ensures n > 0 <==> old(room) > 0
      ensures n > 0 ==> sent == old(sent) + data[..n] && room == old(room) - n
      ensures n <= 0 ==> sent == old(sent) && room == old(room)
      ensures inbox == old(inbox)
    {
      if room == 0 {
        n := 0;
      } else {
        n :| 1 <= n <= |data| && n <= room;
        sent := sent + data[..n];
        room := room - n;
      }
    }

    /** `socket.recv(m)`: the next 1 to `m` bytes from the peer, or nothing
        when the peer has closed. */
    method Recv(m: nat) returns (part: seq<byte>)
      requires m > 0
      modifies this
      ensures part == [] <==> old(inbox) == []
      ensures |part| <= m && |part| <= |old(inbox)| && part == old(inbox)[..|part|]
      ensures inbox == old(inbox)[|part|..]
      ensures sent == old(sent) && room == old(room)
    {
      if inbox == [] {
        part := [];
      } else {
        var k :| 1 <= k <= m && k <= |inbox|;
        part := inbox[..k];
        inbox := inbox[k..];
      }
    }
  }

  /** `send_all`: hands all of `data` to the connection, in order, or fails
      as soon as a send makes no progress, having handed over a prefix. */
  method SendAll(s: Stream, data: seq<byte>) returns (ok: bool)
    modifies s
    ensures ok <==> |data| <= old(s.room)
    ensures s.sent == old(s.sent) + Take(data, old(s.room))
    ensures s.room == old(s.room) - |Take(data, old(s.room))|
    ensures s.inbox == old(s.inbox)
  {
    var rest := data;
    while rest != []
      invariant |rest| <= |data| && rest == data[|data| - |rest|..]
      invariant s.sent == old(s.sent) + data[..|data| - |rest|]
      invariant s.room + |data| - |rest| == old(s.room)
      invariant s.inbox == old(s.inbox)
      decreases |rest|
    {
      var n := s.Send(rest);
      if n <= 0 {
        return false;
      }
      assert data[..|data| - |rest| + n] == data[..|data| - |rest|] + rest[..n];
      rest := rest[n..];
    }
    assert data[..|data|] == data;
    return true;
  }

  /** `recv_exact`: exactly the next `n` bytes the peer sent, in order, or a
      failure when the peer closes first. Never consumes beyond those `n`. */
  method RecvExact(s: Stream, n: nat) returns (ok: bool, data: seq<byte>)
    modifies s
    ensures ok <==> n <= |old(s.inbox)|
    ensures ok ==> data == old(s.inbox)[..n] && s.inbox == old(s.inbox)[n..]
    ensures !ok ==> data == [] && s.inbox == []
    ensures s.sent == old(s.sent) && s.room == old(s.room)
  {
    var buf: seq<byte> := [];
    while |buf| < n
      invariant |buf| <= n
      invariant old(s.inbox) == buf + s.inbox
      invariant s.sent == old(s.sent) && s.room == old(s.room)
      decreases n - |buf|
    {
      var part := s.Recv(n - |buf|);
      if part == [] {
        return false, [];
      }
      assert old(s.inbox) == (buf + part) + s.inbox;
      buf := buf + part;
    }
    assert old(s.inbox)[..n] == buf;
    return true, buf;
  }

  /** `struct.pack("!H", x)`: two bytes, or the error it raises when `x`
      does not fit in 16 bits. */
  function PackU16(x: nat): (r: Option<seq<byte>>)
    ensures r.Some? <==> x < 65536
    ensures r.Some? ==> |r.value| == 2
  {
    if x < Pow256(2) then Some(EncodeBE(x, 2)) else None
  }

  /** `struct.unpack("!H", b)[0]`. */
  function UnpackU16(b: seq<byte>): (x: nat)
    requires |b| == 2
    ensures x < 65536
  {
    DecodeBE(b)
  }

  /** `struct.pack("!Q", x)`: eight bytes, or the error it raises when `x`
      does not fit in 64 bits. */
  function PackU64(x: nat): (r: Option<seq<byte>>)
    ensures r.Some? <==> x < 0x1_0000_0000_0000_0000
    ensures r.Some? ==> |r.value| == 8
  {
    if x < Pow256(8) then Some(EncodeBE(x, 8)) else None
  }

  /** `struct.unpack("!Q", b)[0]`. */
  function UnpackU64(b: seq<byte>): (x: nat)
    requires |b| == 8
    ensures x < 0x1_0000_0000_0000_0000
  {
    DecodeBE(b)
  }

  /** Every 16-bit value survives the round trip in exactly two bytes, high
      byte first; and every two bytes are the packing of what they unpack to. */
  lemma U16RoundTrip(x: nat, b: seq<byte>)
    requires x < 65536 && |b| == 2
    ensures PackU16(x).Some? && |PackU16(x).value| == 2
    ensures UnpackU16(PackU16(x).value) == x
    ensures PackU16(x).value == [(x / 256) as byte, (x % 256) as byte]
    ensures PackU16(UnpackU16(b)) == Some(b)
  {
    DecodeEncode(x, 2);
    EncodeDigit(x, 2, 0);
    EncodeDigit(x, 2, 1);
    EncodeDecode(b);
  }

  /** Every 64-bit value survives the round trip in exactly eight bytes, most
      significant first; and every eight bytes are the packing of what they
      unpack to. */
  lemma U64RoundTrip(x: nat, b: seq<byte>)
    requires x < 0x1_0000_0000_0000_0000 && |b| == 8
    ensures PackU64(x).Some? && |PackU64(x).value| == 8
    ensures UnpackU64(PackU64(x).value) == x
    ensures PackU64(x).value[0] as nat == x / 0x1_0000_0000_0000_00
    ensures PackU64(x).value[7] as nat == x % 256
    ensures PackU64(UnpackU64(b)) == Some(b)
  {
    DecodeEncode(x, 8);
    EncodeDigit(x, 8, 0);
    EncodeDigit(x, 8, 7);
    EncodeDecode(b);
  }

  /** The opening message: 16-bit name length, then the name. */
  function Request(name: seq<byte>): (m: seq<byte>)
    requires |name| < 65536
    ensures |m| == 2 + |name| && m[2..] == name
    ensures UnpackU16(m[..2]) == |name|
  {
    U16RoundTrip(|name|, PackU16(|name|).value);
    PackU16(|name|).value + name
  }

  /** The upload: 64-bit size, then the contents. */
  function Upload(content: seq<byte>): (m: seq<byte>)
    requires |content| < 0x1_0000_0000_0000_0000
    ensures |m| == 8 + |content| && m[8..] == content
    ensures UnpackU64(m[..8]) == |content|
  {
    U64RoundTrip(|content|, PackU64(|content|).value);
    PackU64(|content|).value + content
  }

  /** `send_u16`: fails, sending nothing, when `x` does not fit in 16 bits. */
  method SendU16(s: Stream, x: nat) returns (ok: bool)
    modifies s
    ensures ok <==> x < 65536 && 2 <= old(s.room)
    ensures s.sent == old(s.sent) + (if x < 65536 then Take(PackU16(x).value, old(s.room)) else [])
    ensures s.room == old(s.room) - (if x < 65536 then |Take(PackU16(x).value, old(s.room))| else 0)
    ensures s.inbox == old(s.inbox)
  {
    var packed := PackU16(x);
    if packed.None? {
      return false;
    }
    ok := SendAll(s, packed.value);
  }

  /** `recv_u16`. */
  method RecvU16(s: Stream) returns (ok: bool, x: nat)
    modifies s
    ensures ok <==> 2 <= |old(s.inbox)|
    ensures ok ==> x == UnpackU16(old(s.inbox)[..2]) && s.inbox == old(s.inbox)[2..]
    ensures !ok ==> s.inbox == []
    ensures s.sent == old(s.sent) && s.room == old(s.room)
  {
    var b;
    ok, b := RecvExact(s, 2);
    x := if ok then UnpackU16(b) else 0;
  }

  /** `send_u64`: fails, sending nothing, when `x` does not fit in 64 bits. */
  method SendU64(s: Stream, x: nat) returns (ok: bool)
    modifies s
    ensures ok <==> x < 0x1_0000_0000_0000_0000 && 8 <= old(s.room)
    ensures s.sent == old(s.sent) + (if x < 0x1_0000_0000_0000_0000 then Take(PackU64(x).value, old(s.room)) else [])
    ensures s.room == old(s.room) - (if x < 0x1_0000_0000_0000_0000 then |Take(PackU64(x).value, old(s.room))| else 0)
    ensures s.inbox == old(s.inbox)
  {
    var packed := PackU64(x);
    if packed.None? {
      return false;
    }
    ok := SendAll(s, packed.value);
  }

  /** `recv_u64`. */
  method RecvU64(s: Stream) returns (ok: bool, x: nat)
    modifies s
    ensures ok <==> 8 <= |old(s.inbox)|
    ensures ok ==> x == UnpackU64(old(s.inbox)[..8]) && s.inbox == old(s.inbox)[8..]
    ensures !ok ==> s.inbox == []
    ensures s.sent == old(s.sent) && s.room == old(s.room)
  {
    var b;
    ok, b := RecvExact(s, 8);
    x := if ok then UnpackU64(b) else 0;
  }
}
