/**
  The receiving role (ft.py `server`): per connection, read a length-prefixed
  file name, refuse with "NO" when `<outdir>/<name>-received` exists, else
  answer "OK", read the 64-bit size, write the payload chunk by chunk and
  answer "ACK" once exactly that many bytes are written. Any failure ends
  the connection and the service goes on with the next one.
 */
module Receiver {
  import opened Bytes
  import opened Framing

  type Path = seq<byte>
  type Files = map<Path, seq<byte>>

  const SLASH: byte := 47
  /** "-received" */
  const SUFFIX: seq<byte> := [45, 114, 101, 99, 101, 105, 118, 101, 100]

  /** The destination directory, as a map from path to file contents. */
  class FileSystem {
    var files: Files

    constructor (files: Files)
      ensures this.files == files
    {
      this.files := files;
    }

    /** `os.path.exists`. */
    method Exists(p: Path) returns (b: bool)
      ensures b <==> p in files
    {
      b := p in files;
    }

    /** `open(p, "wb")`: creates the file, or empties it. */
    method Create(p: Path)
      modifies this
      ensures files == old(files)[p := []]
    {
      files := files[p := []];
    }

    /** `f.write(data)` on the file opened at `p`. */
    method Append(p: Path, data: seq<byte>)
      requires p in files
      modifies this
      ensures files == old(files)[p := old(files)[p] + data]
    {
      files := files[p := files[p] + data];
    }
  }

  /** `os.path.join(dir, leaf)` for POSIX paths: an absolute `leaf` replaces
      `dir`; otherwise a separator is inserted unless `dir` is empty or
      already ends in one. */
  function Join(dir: Path, leaf: Path): (p: Path)
    ensures |leaf| > 0 && leaf[0] == SLASH ==> p == leaf
    ensures !(|leaf| > 0 && leaf[0] == SLASH) ==> exists sep :: sep <= [SLASH] && p == dir + sep + leaf
  {
    if |leaf| > 0 && leaf[0] == SLASH then leaf
    else if dir == [] || dir[|dir| - 1] == SLASH then (assert dir + [] + leaf == dir + leaf; dir + leaf)
    else dir + [SLASH] + leaf
  }

  /** Where a file called `name` is stored: `<outdir>/<name>-received`. */
  function DestPath(outdir: Path, name: seq<byte>): (p: Path)
    ensures |SUFFIX| <= |p| && p[|p| - |SUFFIX|..] == SUFFIX
  {
    Join(outdir, name + SUFFIX)
  }

  /** Names that do not start with a separator get distinct destinations. */
  lemma DestPathInjective(outdir: Path, a: seq<byte>, b: seq<byte>)
    requires !(|a| > 0 && a[0] == SLASH) && !(|b| > 0 && b[0] == SLASH)
    requires DestPath(outdir, a) == DestPath(outdir, b)
    ensures a == b
  {
    var p := DestPath(outdir, a);
    var pre := p[..|p| - |a + SUFFIX|];
    assert p == pre + a + SUFFIX;
    assert p == pre + b + SUFFIX;
    assert |a| == |b|;
    assert a == p[|pre|..|pre| + |a|];
  }

  /** The size of the next payload read: a full chunk, or what is left. */
  function ChunkSize(left: nat): (k: nat)
    requires left > 0
    ensures 1 <= k <= CHUNK && k <= left
    ensures k == CHUNK || k == left
  {
    if left > CHUNK then CHUNK else left
  }

  /** How much of a payload of `p` bytes gets written when the sender stops
      early: whole chunks only, since a chunk is written once fully read. */
  function WholeChunks(p: nat): (w: nat)
    ensures w <= p < w + CHUNK && w % CHUNK == 0
  {
    p - p % CHUNK
  }

  /** How one connection ends. */
  datatype ServerOutcome = Rejected | Completed | Aborted

  /** What one connection does: how it ends, the files afterwards, and the
      bytes the receiver sent back. */
  datatype Served = Served(outcome: ServerOutcome, files: Files, reply: seq<byte>)

  /** The receiver's per-connection state machine, over everything the peer
      sends (`input`) and how much the peer reads back (`room`). */
  function Receive(files: Files, outdir: Path, input: seq<byte>, room: nat): (r: Served)
    // An existing file is never overwritten or removed.
    ensures forall p :: p in files ==> p in r.files && r.files[p] == files[p]
    // Only the three tokens are sent, in protocol order.
    ensures r.reply <= NO || r.reply <= OK + ACK
    // "ACK" goes out exactly when the connection completes.
    ensures r.outcome == Completed <==> r.reply == OK + ACK
    // A refusal sends "NO" and changes nothing.
    ensures r.outcome == Rejected ==> r.reply == NO && r.files == files
    // Nothing is written before "OK" has gone out.
    ensures r.files != files ==> OK <= r.reply
  {
    if |input| < 2 then Served(Aborted, files, [])
    else
      var n := UnpackU16(input[..2]);
      if |input| < 2 + n then Served(Aborted, files, [])
      else
        var path := DestPath(outdir, input[2..2 + n]);
        if path in files then
          Served(if 2 <= room then Rejected else Aborted, files, Take(NO, room))
        else if room < 2 then Served(Aborted, files, Take(OK, room))
        else
          var r := ReceiveUpload(files, path, input[2 + n..], room - 2);
          Served(r.outcome, r.files, OK + r.reply)
  }

  /** The receiver once "OK" has gone out for the free destination `path`:
      read the 64-bit size, store that many bytes, answer "ACK". `input` is
      what the peer sends after the name, `room` how much it still reads. */
  function ReceiveUpload(files: Files, path: Path, input: seq<byte>, room: nat): (r: Served)
    requires path !in files
    // Only `path` is created; nothing else changes.
    ensures r.files == files || (r.files.Keys == files.Keys + {path} &&
      forall p :: p in files ==> r.files[p] == files[p])
    ensures r.outcome != Rejected && r.reply <= ACK
    ensures r.outcome == Completed <==> r.reply == ACK
    // On completion the file holds exactly the announced number of bytes,
    // taken in order from the stream right after the size field.
    ensures r.outcome == Completed ==>
      8 <= |input| && 8 + UnpackU64(input[..8]) <= |input| &&
      path in r.files && r.files[path] == input[8..8 + UnpackU64(input[..8])]
  {
    if |input| < 8 then Served(Aborted, files, [])
    else
      var total := UnpackU64(input[..8]);
      var payload := input[8..];
      if |payload| < total then
        Served(Aborted, files[path := payload[..WholeChunks(|payload|)]], [])
      else
        Served(if 3 <= room then Completed else Aborted, files[path := payload[..total]], Take(ACK, room))
  }

  /** One connection of the accept loop (the body of ft.py `server`). */
  method Serve(c: Stream, fs: FileSystem, outdir: Path) returns (outcome: ServerOutcome)
    modifies c, fs
    ensures var r := Receive(old(fs.files), outdir, old(c.inbox), old(c.room));
      outcome == r.outcome && fs.files == r.files && c.sent == old(c.sent) + r.reply
  {
    ghost var input := c.inbox;
    var ok, n := RecvU16(c);
    if !ok {
      return Aborted;
    }
    var name;
    ok, name := RecvExact(c, n);
    if !ok {
      return Aborted;
    }
    assert name == input[2..2 + n];
    var path := DestPath(outdir, name);
    var present := fs.Exists(path);
    if present {
      ok := SendAll(c, NO);
      return if ok then Rejected else Aborted;
    }
    ok := SendAll(c, OK);
    if !ok {
      return Aborted;
    }
    assert c.inbox == input[2 + n..];
    outcome := ServeUpload(c, fs, path);
  }

  /** ft.py `server` from the "OK" on: `recv_u64`, the payload loop, and the
      "ACK". */
  method ServeUpload(c: Stream, fs: FileSystem, path: Path) returns (outcome: ServerOutcome)
    requires path !in fs.files
    modifies c, fs
    ensures var r := ReceiveUpload(old(fs.files), path, old(c.inbox), old(c.room));
      outcome == r.outcome && fs.files == r.files && c.sent == old(c.sent) + r.reply
  {
    ghost var input := c.inbox;
    var ok, total := RecvU64(c);
    if !ok {
      return Aborted;
    }
    ok := ReceivePayload(c, fs, path, total);
    if !ok {
      return Aborted;
    }
    ok := SendAll(c, ACK);
    return if ok then Completed else Aborted;
  }

  /** A request whose destination exists is refused with "NO", and nothing
      changes, whatever else the peer sends. */
  lemma RefusesExisting(files: Files, outdir: Path, name: seq<byte>, rest: seq<byte>, room: nat)
    requires |name| < 65536 && DestPath(outdir, name) in files && 2 <= room
    ensures Receive(files, outdir, Request(name) + rest, room) == Served(Rejected, files, NO)
  {
    var input := Request(name) + rest;
    assert input[..2] == Request(name)[..2];
    assert input[2..2 + |name|] == name;
  }

  /** A peer that closes after the name is answered "OK" and the connection
      is aborted before any file is created. */
  lemma AbortsWithoutSize(files: Files, outdir: Path, name: seq<byte>, rest: seq<byte>, room: nat)
    requires |name| < 65536 && DestPath(outdir, name) !in files && 2 <= room && |rest| < 8
    ensures Receive(files, outdir, Request(name) + rest, room) == Served(Aborted, files, OK)
  {
    var input := Request(name) + rest;
    assert input[..2] == Request(name)[..2];
    assert input[2..2 + |name|] == name;
  }

  /** After "OK", exactly `total` bytes are stored, however many more follow,
      and "ACK" is sent. */
  lemma StoresExactlyTotal(files: Files, outdir: Path, name: seq<byte>, total: nat,
                           payload: seq<byte>, room: nat)
    requires |name| < 65536 && total < 0x1_0000_0000_0000_0000
    requires DestPath(outdir, name) !in files && total <= |payload| && 5 <= room
    ensures Receive(files, outdir, Request(name) + PackU64(total).value + payload, room)
         == Served(Completed, files[DestPath(outdir, name) := payload[..total]], OK + ACK)
  {
    ParseHeader(name, total, payload);
  }

  /** A payload that ends before `total` bytes leaves the whole chunks read
      so far in the new file, and no "ACK" is sent. */
  lemma StopsOnShortPayload(files: Files, outdir: Path, name: seq<byte>, total: nat,
                            payload: seq<byte>, room: nat)
    requires |name| < 65536 && total < 0x1_0000_0000_0000_0000
    requires DestPath(outdir, name) !in files && |payload| < total && 2 <= room
    ensures Receive(files, outdir, Request(name) + PackU64(total).value + payload, room)
         == Served(Aborted, files[DestPath(outdir, name) := payload[..WholeChunks(|payload|)]], OK)
  {
    ParseHeader(name, total, payload);
  }

  lemma ParseHeader(name: seq<byte>, total: nat, payload: seq<byte>)
    requires |name| < 65536 && total < 0x1_0000_0000_0000_0000
    ensures var input := Request(name) + PackU64(total).value + payload;
      |input| == 2 + |name| + 8 + |payload| &&
      UnpackU16(input[..2]) == |name| && input[2..2 + |name|] == name &&
      UnpackU64(input[2 + |name|..][..8]) == total && input[2 + |name|..][8..] == payload
  {
    var size := PackU64(total).value;
    var input := Request(name) + size + payload;
    U64RoundTrip(total, size);
    assert input[..2] == Request(name)[..2];
    assert input[2..2 + |name|] == name;
    assert input[2 + |name|..][..8] == size;
    assert input[2 + |name|..][8..] == payload;
  }

  /** The payload loop: opens `path` for writing, then reads `total` bytes in
      chunks of at most CHUNK, writing each chunk once it is complete. */
  method ReceivePayload(c: Stream, fs: FileSystem, path: Path, total: nat) returns (ok: bool)
    modifies c, fs
    ensures ok <==> total <= |old(c.inbox)|
    ensures ok ==> fs.files == old(fs.files)[path := old(c.inbox)[..total]]
    ensures !ok ==> fs.files == old(fs.files)[path := old(c.inbox)[..WholeChunks(|old(c.inbox)|)]]
    // Nothing past the payload is read.
    ensures ok ==> c.inbox == old(c.inbox)[total..]
    ensures !ok ==> c.inbox == []
    ensures c.sent == old(c.sent) && c.room == old(c.room)
  {
    ghost var payload := c.inbox;
    var left: nat := total;
    fs.Create(path);
    while left > 0
      invariant left <= total
      invariant total - left <= |payload| && c.inbox == payload[total - left..]
      invariant fs.files == old(fs.files)[path := payload[..total - left]]
      invariant left > 0 ==> (total - left) % CHUNK == 0
      invariant c.sent == old(c.sent) && c.room == old(c.room)
    {
      var k := ChunkSize(left);
      var data;
      ok, data := RecvExact(c, k);
      if !ok {
        assert WholeChunks(|payload|) == total - left;
        return false;
      }
      assert payload[..total - left] + data == payload[..total - left + k];
      fs.Append(path, data);
      left := left - |data|;
    }
    return true;
  }

  /** How a peer behaves on one connection: all it sends, and how many bytes
      it reads back before it stops reading. */
  datatype Peer = Peer(input: seq<byte>, room: nat)

  /** The outcomes of a sequence of connections served one after another,
      and the files afterwards. */
  datatype Log = Log(outcomes: seq<ServerOutcome>, files: Files)

  /** The accept loop over the connections `peers`, in order. */
  function ReceiveAll(files: Files, outdir: Path, peers: seq<Peer>): (r: Log)
    // Every connection is served, whatever the earlier ones did (each peer
    // here eventually sends all it will send and closes).
    ensures |r.outcomes| == |peers|
    // No existing file is ever overwritten or removed.
    ensures forall p :: p in files ==> p in r.files && r.files[p] == files[p]
  {
    if peers == [] then Log([], files)
    else
      var prev := ReceiveAll(files, outdir, peers[..|peers| - 1]);
      var last := peers[|peers| - 1];
      var r := Receive(prev.files, outdir, last.input, last.room);
      Log(prev.outcomes + [r.outcome], r.files)
  }

  /** Two connections in a row: the second is served against the files the
      first one left. */
  lemma ReceiveTwo(files: Files, outdir: Path, first: Peer, second: Peer)
    ensures var r0 := Receive(files, outdir, first.input, first.room);
      var r1 := Receive(r0.files, outdir, second.input, second.room);
      ReceiveAll(files, outdir, [first, second]) == Log([r0.outcome, r1.outcome], r1.files)
  {
    var peers := [first, second];
    var r0 := Receive(files, outdir, first.input, first.room);
    ReceiveAllStep(files, outdir, peers, 0);
    assert peers[..0] == [] && peers[..1] == [first];
    assert ReceiveAll(files, outdir, peers[..1]) == Log([r0.outcome], r0.files);
    ReceiveAllStep(files, outdir, peers, 1);
    assert peers[..2] == peers;
  }

  /** Serving one more connection extends the log by its outcome. */
  lemma ReceiveAllStep(files: Files, outdir: Path, peers: seq<Peer>, i: nat)
    requires i < |peers|
    ensures var prev := ReceiveAll(files, outdir, peers[..i]);
      var r := Receive(prev.files, outdir, peers[i].input, peers[i].room);
      ReceiveAll(files, outdir, peers[..i + 1]) == Log(prev.outcomes + [r.outcome], r.files)
  {
    assert peers[..i + 1][..i] == peers[..i];
  }

  /** The accept loop of ft.py `server`, over a finite sequence of accepted
      connections; each failure ends only its own connection. */
  method ServeAll(fs: FileSystem, outdir: Path, peers: seq<Peer>) returns (outcomes: seq<ServerOutcome>)
    modifies fs
    ensures ReceiveAll(old(fs.files), outdir, peers) == Log(outcomes, fs.files)
  {
    outcomes := [];
    var i := 0;
    while i < |peers|
      invariant 0 <= i <= |peers|
      invariant ReceiveAll(old(fs.files), outdir, peers[..i]) == Log(outcomes, fs.files)
    {
      var c := new Stream(peers[i].input, peers[i].room);
      var outcome := Serve(c, fs, outdir);
      ReceiveAllStep(old(fs.files), outdir, peers, i);
      outcomes := outcomes + [outcome];
      i := i + 1;
    }
    assert peers[..|peers|] == peers;
  }
}
