/**
  Both roles over one lossless connection: what the sender hands to the
  transport is what the receiver reads, and what the receiver answers is
  what the sender reads.
 */
module Session {
  import opened Bytes
  import opened Framing
  import opened Receiver
  import opened Sender

  /** An honest sender and the receiver, with a free destination: the
      receiver reads exactly the sender's messages, answers "OK" and "ACK",
      which the sender turns into exit code 0, and the new file holds
      exactly the source file's bytes. */
  lemma TransferDelivers(files: Files, outdir: Path, name: seq<byte>, content: seq<byte>, room: nat)
    requires |name| < 65536 && |content| < 0x1_0000_0000_0000_0000
    requires DestPath(outdir, name) !in files
    requires |Request(name) + Upload(content)| <= room
    ensures var c := Transfer(name, content, OK + ACK, room);
      var r := Receive(files, outdir, c.wire, |OK + ACK|);
      c.code == 0 && c.wire == Request(name) + Upload(content) &&
      r == Served(Completed, files[DestPath(outdir, name) := content], OK + ACK)
  {
    var c := Transfer(name, content, OK + ACK, room);
    assert (OK + ACK)[..2] == OK && (OK + ACK)[2..] == ACK;
    assert c.wire == Request(name) + Upload(content);
    assert Upload(content) == PackU64(|content|).value + content;
    assert c.wire == Request(name) + PackU64(|content|).value + content;
    StoresExactlyTotal(files, outdir, name, |content|, content, 5);
    assert content[..|content|] == content;
  }

  /** With the destination taken, the receiver answers "NO" after the name,
      the sender sends nothing more and exits with 1, and no file changes. */
  lemma TransferRefused(files: Files, outdir: Path, name: seq<byte>, content: seq<byte>, room: nat)
    requires |name| < 65536 && DestPath(outdir, name) in files
    requires |Request(name)| <= room
    ensures var c := Transfer(name, content, NO, room);
      c == Sent(1, Request(name)) &&
      Receive(files, outdir, c.wire, |NO|) == Served(Rejected, files, NO)
  {
    assert NO[..2] == NO;
    RefusesExisting(files, outdir, name, [], 2);
    assert Request(name) + [] == Request(name);
  }

  /** Sending the same file twice to the same directory: the first transfer
      completes, the second is refused, and the stored file keeps the first
      transfer's bytes. */
  lemma SecondTransferRefused(files: Files, outdir: Path, name: seq<byte>, content: seq<byte>, room: nat)
    requires |name| < 65536 && |content| < 0x1_0000_0000_0000_0000
    requires DestPath(outdir, name) !in files
    requires |Request(name) + Upload(content)| <= room
    ensures var first := Transfer(name, content, OK + ACK, room);
      var second := Transfer(name, content, NO, room);
      first.code == 0 && second.code == 1 &&
      ReceiveAll(files, outdir, [Peer(first.wire, |OK + ACK|), Peer(second.wire, |NO|)])
        == Log([Completed, Rejected], files[DestPath(outdir, name) := content])
  {
    var path := DestPath(outdir, name);
    var first := Transfer(name, content, OK + ACK, room);
    var second := Transfer(name, content, NO, room);
    TransferDelivers(files, outdir, name, content, room);
    TransferRefused(files[path := content], outdir, name, content, room);
    ReceiveTwo(files, outdir, Peer(first.wire, |OK + ACK|), Peer(second.wire, |NO|));
  }

  /** A sender that closes after the name aborts its connection without
      creating a file, and the next connection is served exactly as if the
      aborted one had never happened. */
  lemma AbortKeepsServing(files: Files, outdir: Path, name: seq<byte>, next: Peer, room: nat)
    requires |name| < 65536 && DestPath(outdir, name) !in files && 2 <= room
    ensures var r := Receive(files, outdir, next.input, next.room);
      ReceiveAll(files, outdir, [Peer(Request(name), room), next]) == Log([Aborted, r.outcome], r.files)
  {
    AbortsWithoutSize(files, outdir, name, [], room);
    assert Request(name) + [] == Request(name);
    ReceiveTwo(files, outdir, Peer(Request(name), room), next);
  }

  /** A connection that drops during the payload leaves the file it created
      behind, so a later attempt with the same name is refused with "NO". */
  lemma AbortedUploadBlocksRetry(files: Files, outdir: Path, name: seq<byte>, total: nat,
                                 payload: seq<byte>, room: nat, retry: seq<byte>, retryRoom: nat)
    requires |name| < 65536 && total < 0x1_0000_0000_0000_0000 && |payload| < total
    requires DestPath(outdir, name) !in files && 2 <= room && 2 <= retryRoom
    ensures var peers := [Peer(Request(name) + PackU64(total).value + payload, room),
                          Peer(Request(name) + retry, retryRoom)];
      ReceiveAll(files, outdir, peers).outcomes == [Aborted, Rejected]
  {
    var path := DestPath(outdir, name);
    var first := Peer(Request(name) + PackU64(total).value + payload, room);
    StopsOnShortPayload(files, outdir, name, total, payload, room);
    var left := files[path := payload[..WholeChunks(|payload|)]];
    RefusesExisting(left, outdir, name, retry, retryRoom);
    ReceiveTwo(files, outdir, first, Peer(Request(name) + retry, retryRoom));
  }
}
