/**
  The sending role (ft.py `client`): send the length-prefixed file name,
  read the two-byte decision, then send the 64-bit size and the file in
  chunks, and read the three-byte acknowledgement. The result is the
  process exit code: 0 success, 1 refused, 255 anything else.
 */
module Sender {
  import opened Bytes
  import opened Framing

  /** What one run of the sender does: its exit code and the bytes it
      handed to the connection. */
  datatype Sent = Sent(code: nat, wire: seq<byte>)

  /** The sender after the receiver said "OK": the size and the contents go
      out, then the three-byte answer decides the exit code. */
  function AfterAccept(content: seq<byte>, input: seq<byte>, room: nat): (r: Sent)
    ensures r.code == 0 || r.code == 255
    // No more goes out than the receiver reads.
    ensures |r.wire| <= room
    ensures |content| < 0x1_0000_0000_0000_0000 ==> r.wire <= Upload(content)
    ensures r.code == 0 ==>
      |input| >= 3 && input[..3] == ACK &&
      |content| < 0x1_0000_0000_0000_0000 && r.wire == Upload(content)
  {
    if 0x1_0000_0000_0000_0000 <= |content| then Sent(255, [])
    else
      var body := Upload(content);
      if room < |body| then Sent(255, Take(body, room))
      else if |input| < 3 then Sent(255, body)
      else Sent(if input[..3] == ACK then 0 else 255, body)
  }

  /** The sender's state machine for a file called `name` holding `content`,
      over everything the receiver sends back (`input`) and how much the
      receiver reads (`room`). */
  function Transfer(name: seq<byte>, content: seq<byte>, input: seq<byte>, room: nat): (r: Sent)
    // Three outcomes only.
    ensures r.code in {0, 1, 255}
    // No more goes out than the receiver reads, so a receiver that stops
    // reading before the name is out leaves the sender with 255.
    ensures |r.wire| <= room
    // What goes out is always a prefix of the honest message sequence.
    ensures |name| < 65536 && |content| < 0x1_0000_0000_0000_0000 ==>
      r.wire <= Request(name) + Upload(content)
    // Success means the receiver answered "OK" then "ACK", and the whole file went out.
    ensures r.code == 0 ==>
      |input| >= 5 && input[..2] == OK && input[2..5] == ACK &&
      |name| < 65536 && |content| < 0x1_0000_0000_0000_0000 &&
      r.wire == Request(name) + Upload(content)
    // A refusal means the receiver answered "NO", and nothing but the name went out.
    ensures r.code == 1 ==>
      |input| >= 2 && input[..2] == NO && |name| < 65536 && r.wire == Request(name)
  {
    if 65536 <= |name| then Sent(255, [])
    else
      var hello := Request(name);
      if room < |hello| then Sent(255, Take(hello, room))
      else
        var rest := AfterRequest(content, input, room - |hello|);
        Sent(rest.code, hello + rest.wire)
  }

  /** The sender once the name is out: the two-byte decision, then, after
      "OK", the upload. */
  function AfterRequest(content: seq<byte>, input: seq<byte>, room: nat): (r: Sent)
    ensures r.code in {0, 1, 255}
    ensures |r.wire| <= room
    ensures |content| < 0x1_0000_0000_0000_0000 ==> r.wire <= Upload(content)
    ensures r.code == 0 ==>
      |input| >= 5 && input[..2] == OK && input[2..5] == ACK &&
      |content| < 0x1_0000_0000_0000_0000 && r.wire == Upload(content)
    ensures r.code == 1 <==> |input| >= 2 && input[..2] == NO
    ensures r.code == 1 ==> r.wire == []
  {
    if |input| < 2 then Sent(255, [])
    else if input[..2] == NO then Sent(1, [])
    else if input[..2] != OK then Sent(255, [])
    else
      var r := AfterAccept(content, input[2..], room);
      assert r.code == 0 ==> input[2..][..3] == input[2..5];
      r
  }

  /** The decision table of the sender, once the name message has been
      read by the receiver: "NO" gives 1 and any token other than "OK" gives
      255 at once; after "OK" the exit code is never 1, and when the whole
      upload is read it is 0 exactly when "ACK" follows. */
  lemma OutcomeTable(name: seq<byte>, content: seq<byte>, input: seq<byte>, room: nat)
    requires |name| < 65536 && |content| < 0x1_0000_0000_0000_0000
    requires room >= |Request(name)| && |input| >= 2
    ensures input[..2] == NO ==> Transfer(name, content, input, room) == Sent(1, Request(name))
    ensures input[..2] != NO && input[..2] != OK ==> Transfer(name, content, input, room) == Sent(255, Request(name))
    ensures input[..2] == OK ==> Transfer(name, content, input, room).code != 1
    ensures input[..2] == OK && room >= |Request(name) + Upload(content)| ==>
      (Transfer(name, content, input, room).code == 0 <==> |input| >= 5 && input[2..5] == ACK)
    ensures input[..2] == OK && room < |Request(name) + Upload(content)| ==>
      Transfer(name, content, input, room).code == 255
  {
  }

  /** The file being sent, opened for reading; its contents do not change
      while it is sent. */
  class SourceFile {
    const content: seq<byte>
    var pos: nat

    constructor (content: seq<byte>)
      ensures this.content == content && pos == 0
    {
      this.content := content;
      pos := 0;
    }

    /** `os.fstat(f.fileno()).st_size`. */
    method Size() returns (n: nat)
      ensures n == |content|
    {
      n := |content|;
    }

    /** `f.read(k)`: the next `k` bytes, fewer at the end of the file, none
        once the end is reached. */
    method Read(k: nat) returns (chunk: seq<byte>)
      requires k > 0 && pos <= |content|
      modifies this
      ensures old(pos) + |chunk| == pos <= |content|
      ensures chunk == content[old(pos)..pos]
      ensures chunk == [] <==> old(pos) == |content|
      ensures |chunk| <= k
    {
      var end := if pos + k <= |content| then pos + k else |content|;
      chunk := content[pos..end];
      pos := end;
    }
  }

  /** The upload loop: reads the file chunk by chunk until the end and hands
      each chunk to the connection before reading the next. */
  method SendFile(s: Stream, f: SourceFile) returns (ok: bool)
    requires f.pos == 0
    modifies s, f
    ensures ok <==> |f.content| <= old(s.room)
    ensures s.sent == old(s.sent) + Take(f.content, old(s.room))
    ensures s.room == old(s.room) - |Take(f.content, old(s.room))|
    ensures s.inbox == old(s.inbox)
  {
    while true
      invariant f.pos <= |f.content| && f.pos <= old(s.room)
      invariant s.sent == old(s.sent) + f.content[..f.pos]
      invariant s.room == old(s.room) - f.pos
      invariant s.inbox == old(s.inbox)
      decreases |f.content| - f.pos
    {
      ghost var before := f.pos;
      var chunk := f.Read(CHUNK);
      if chunk == [] {
        break;
      }
      ok := SendAll(s, chunk);
      if !ok {
        assert f.content[..before] + Take(chunk, s.room + |Take(chunk, old(s.room) - before)|)
            == Take(f.content, old(s.room));
        return false;
      }
      assert f.content[..before] + chunk == f.content[..f.pos];
    }
    assert f.content[..f.pos] == f.content;
    return true;
  }

  /** `send_u16(s, len(name))` then `send_all(s, name)`. */
  method SendRequest(s: Stream, name: seq<byte>) returns (ok: bool)
    modifies s
    ensures ok <==> |name| < 65536 && 2 + |name| <= old(s.room)
    ensures s.sent == old(s.sent) + (if |name| < 65536 then Take(Request(name), old(s.room)) else [])
    ensures s.room == old(s.room) - (if |name| < 65536 then |Take(Request(name), old(s.room))| else 0)
    ensures s.inbox == old(s.inbox)
  {
    if 65536 <= |name| {
      ok := SendU16(s, |name|);
      return;
    }
    ghost var len := PackU16(|name|).value;
    assert Request(name) == len + name;
    TakeConcat(len, name, s.room);
    ok := SendU16(s, |name|);
    if !ok {
      return false;
    }
    assert s.sent == old(s.sent) + len;
    ok := SendAll(s, name);
  }

  /** `send_u64(s, size)` then the upload loop. */
  method SendUpload(s: Stream, f: SourceFile) returns (ok: bool)
    requires f.pos == 0
    modifies s, f
    ensures ok <==> |f.content| < 0x1_0000_0000_0000_0000 && 8 + |f.content| <= old(s.room)
    ensures s.sent == old(s.sent) +
      (if |f.content| < 0x1_0000_0000_0000_0000 then Take(Upload(f.content), old(s.room)) else [])
    ensures s.room == old(s.room) -
      (if |f.content| < 0x1_0000_0000_0000_0000 then |Take(Upload(f.content), old(s.room))| else 0)
    ensures s.inbox == old(s.inbox)
  {
    var size := f.Size();
    ok := SendU64(s, size);
    if !ok {
      if size < 0x1_0000_0000_0000_0000 {
        TakeConcat(PackU64(size).value, f.content, old(s.room));
      }
      return false;
    }
    ok := SendFile(s, f);
    TakeConcat(PackU64(size).value, f.content, old(s.room));
  }

  /** ft.py `client` from the "OK" on: `send_u64`, the upload loop, and
      the wait for "ACK". */
  method FinishTransfer(s: Stream, f: SourceFile) returns (code: nat)
    requires f.pos == 0
    modifies s, f
    ensures var r := AfterAccept(f.content, old(s.inbox), old(s.room));
      code == r.code && s.sent == old(s.sent) + r.wire
  {
    var ok := SendUpload(s, f);
    if !ok {
      return 255;
    }
    var ack;
    ok, ack := RecvExact(s, 3);
    if !ok {
      return 255;
    }
    return if ack == ACK then 0 else 255;
  }

  /** ft.py `client` from the name on: read the decision and, after "OK",
      upload the file and wait for "ACK". */
  method AwaitDecision(s: Stream, f: SourceFile) returns (code: nat)
    requires f.pos == 0
    modifies s, f
    ensures var r := AfterRequest(f.content, old(s.inbox), old(s.room));
      code == r.code && s.sent == old(s.sent) + r.wire
  {
    ghost var input := s.inbox;
    var ok, resp := RecvExact(s, 2);
    if !ok {
      return 255;
    }
    if resp == NO {
      return 1;
    }
    if resp != OK {
      return 255;
    }
    code := FinishTransfer(s, f);
  }

  /** One run of ft.py `client` over an open connection and an open file. */
  method RunTransfer(s: Stream, name: seq<byte>, f: SourceFile) returns (code: nat)
    requires f.pos == 0
    modifies s, f
    ensures var r := Transfer(name, f.content, old(s.inbox), old(s.room));
      code == r.code && s.sent == old(s.sent) + r.wire
  {
    var ok := SendRequest(s, name);
    if !ok {
      return 255;
    }
    ghost var hello := Request(name);
    assert s.sent == old(s.sent) + hello && s.room == old(s.room) - |hello|;
    ghost var rest := AfterRequest(f.content, s.inbox, s.room);
    assert Transfer(name, f.content, old(s.inbox), old(s.room)) == Sent(rest.code, hello + rest.wire);
    code := AwaitDecision(s, f);
  }
}
