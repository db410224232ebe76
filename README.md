# ft — a verified model of a minimal file-transfer protocol

`ft.py` pushes one file from a sender to a receiver over TCP. The sender
writes the file name's length (16-bit, big-endian) and the name. The
receiver answers `NO` if `<outdir>/<name>-received` already exists and stops
there; otherwise it answers `OK`. The sender then writes the file size
(64-bit, big-endian) and the contents. The receiver reads exactly that many
bytes in chunks of at most `CHUNK` (8192), writes each chunk to the new file
and answers `ACK`. The sender's exit code is 0 after `ACK`, 1 after `NO`
and 255 for anything else. The receiver serves connections one after the
other, and a failure ends only the current connection.

This Dafny project models that protocol core and proves its properties.

- `bytes.dfy` (module `Bytes`): octets, plus generic big-endian
  encoding and decoding with their round-trip and byte-order lemmas.
- `framing.dfy` (module `Framing`): the connection as a class `Stream`
  - `Send` and `Recv` move a number of bytes that the transport chooses
    nondeterministically.
  - `SendAll` and `RecvExact` are the exact-count loops, with invariants.
  - Also here: the `struct.pack`/`unpack` fields, the three tokens, and
    the two sender messages (`Request` = length + name, `Upload` =
    size + contents).
- `receiver.dfy` (module `Receiver`): the body of `server`.
  - The filesystem is a class over a map from path to bytes.
  - `Receive` specifies one connection as a function of what the peer
    sends. `Serve` implements it step by step and is proved equal to it.
  - `ReceiveAll` and `ServeAll` model the accept loop over a finite
    sequence of connections.
- `sender.dfy` (module `Sender`): the body of `client`.
  - `Transfer` specifies one run as a function of what the receiver
    answers. `RunTransfer` implements it, including the read-until-EOF
    upload loop.
- `session.dfy` (module `Session`): both roles over one lossless
  connection.
  - The receiver reads exactly what the sender wrote, and the sender
    reads exactly what the receiver answered.

How the connection is modelled: a `Stream` holds three things.

- `sent`: every byte this end has handed to the transport.
- `inbox`: every byte the peer will still deliver before it closes.
- `room`: how many more bytes the peer reads before it stops reading.

A `recv` returns nothing only when `inbox` is empty. A `send` makes
progress only while `room` is positive. Every method contract is stated
for all the ways the transport may split the bytes. So the result never
depends on chunk boundaries.

Three behaviours of ft.py that the model keeps:

- The receiver opens the destination with `open(path, "wb")` (ft.py:54).
  This creates or truncates the file; it is not an exclusive create.
- If the peer stops during the payload, the file created at ft.py:54 stays
  behind. It holds the whole chunks read so far (`WholeChunks`). A later
  attempt with the same name is then refused (`AbortedUploadBlocksRetry`).
- A name of 65536 bytes or more, or a file of 2^64 bytes or more, makes
  `struct.pack` raise, so the sender exits with 255. In the first case
  nothing is sent.

## Model

| member | source | states |
|---|---|---|
| `Bytes.EncodeBE` | ft.py:23-26 | the big-endian encoding of x in `width` bytes has exactly `width` bytes |
| `Bytes.DecodeBE` | ft.py:24-26 | the number a byte string denotes is below 256^length |
| `Bytes.DecodeEncode` | ft.py:23-26 | decoding the encoding of any x < 256^width gives x back |
| `Bytes.EncodeDecode` | ft.py:23-26 | every byte string is the encoding of the number it decodes to, so decoding is one-to-one |
| `Bytes.EncodeInjective` | ft.py:23-26 | two numbers with the same encoding are equal |
| `Bytes.EncodeDigit` | ft.py:23-26 | byte i of the encoding is the digit of weight 256^(width-1-i), so the most significant byte comes first (network order) |
| `Framing.Stream.Send` | ft.py:9-10 | `send` either takes a non-empty prefix of the data, appended to the outgoing bytes, or reports 0 once the peer has stopped reading |
| `Framing.Stream.Recv` | ft.py:17-18 | `recv(m)` yields the next 1..m incoming bytes in order, or nothing exactly when the peer has closed |
| `Framing.SendAll` | ft.py:6-12 | succeeds iff the peer takes all of `data`; the outgoing bytes grow by `data` in order, or by the prefix handed over before a send made no progress; the remaining view shrinks strictly (loop `decreases`) |
| `Framing.RecvExact` | ft.py:14-21 | succeeds iff at least n bytes are coming; then it yields exactly the next n bytes in order and consumes nothing beyond them; otherwise it fails with the stream drained |
| `Framing.PackU16` | ft.py:23 | `struct.pack("!H")` gives exactly 2 bytes iff x < 65536, and fails otherwise |
| `Framing.UnpackU16` | ft.py:24 | `struct.unpack("!H")` gives a value below 65536 |
| `Framing.PackU64` | ft.py:25 | `struct.pack("!Q")` gives exactly 8 bytes iff x < 2^64, and fails otherwise |
| `Framing.UnpackU64` | ft.py:26 | `struct.unpack("!Q")` gives a value below 2^64 |
| `Framing.U16RoundTrip` | ft.py:23-24 | for every x in [0, 65535]: packing gives 2 bytes [x/256, x%256], unpacking them gives x, and every 2 bytes re-pack to themselves |
| `Framing.U64RoundTrip` | ft.py:25-26 | for every x in [0, 2^64-1]: packing gives 8 bytes, high byte x/2^56 first and low byte x%256 last; unpacking gives x; every 8 bytes re-pack to themselves |
| `Framing.Request` | ft.py:77-78 | the opening message is 2 + len(name) bytes; its first two bytes decode to len(name) and the rest is the name |
| `Framing.Upload` | ft.py:86-93 | the upload is 8 + len(content) bytes; its first eight bytes decode to len(content) and the rest is the content |
| `Framing.SendU16` | ft.py:23 | sends the 2-byte field when it fits; when x does not fit in 16 bits it fails and sends nothing |
| `Framing.RecvU16` | ft.py:24 | succeeds iff 2 bytes are coming, and returns their big-endian value |
| `Framing.SendU64` | ft.py:25 | sends the 8-byte field when it fits; when x does not fit in 64 bits it fails and sends nothing |
| `Framing.RecvU64` | ft.py:26 | succeeds iff 8 bytes are coming, and returns their big-endian value |
| `Receiver.FileSystem.Exists` | ft.py:47 | true exactly when a file is stored at the path |
| `Receiver.FileSystem.Create` | ft.py:54 | `open(path, "wb")` leaves an empty file at the path and changes nothing else |
| `Receiver.FileSystem.Append` | ft.py:58 | `f.write(data)` appends data to that file and changes nothing else |
| `Receiver.Join` | ft.py:45 | `os.path.join`: an absolute leaf replaces the directory; otherwise the result is the directory, at most one separator, then the leaf |
| `Receiver.DestPath` | ft.py:45 | the destination path always ends in "-received" |
| `Receiver.DestPathInjective` | ft.py:45 | two names that do not start with "/" never share a destination |
| `Receiver.ChunkSize` | ft.py:56 | each payload read asks for k bytes with 1 <= k <= CHUNK and k <= left; k is either CHUNK or all that is left |
| `Receiver.WholeChunks` | ft.py:55-59 | on an early stop the bytes written are the largest multiple of CHUNK not above what arrived |
| `Receiver.Receive` | ft.py:43-63 | one connection: an existing file is never overwritten or removed; only NO or OK then ACK go out, in that order; ACK goes out exactly when the connection completes; a refusal sends exactly NO and changes nothing; nothing is written before OK |
| `Receiver.ReceiveUpload` | ft.py:52-61 | after OK, only the destination is created; ACK goes out exactly on completion; on completion the file holds exactly the announced number of bytes, in stream order |
| `Receiver.Serve` | ft.py:41-63 | the step-by-step receiver produces the outcome, files and reply that `Receive` specifies, for every way the transport splits the bytes |
| `Receiver.ServeUpload` | ft.py:52-61 | the receiver after OK (size, payload loop, ACK) behaves as `ReceiveUpload` specifies |
| `Receiver.ReceivePayload` | ft.py:53-59 | the payload loop: `left` falls strictly, and every read is `ChunkSize(left)`. It succeeds iff `total` bytes arrive, and the file then holds exactly the next `total` bytes and nothing past them has been read. Otherwise the file holds the whole chunks read and the stream is drained |
| `Receiver.RefusesExisting` | ft.py:45-49 | a name whose destination exists gets exactly NO and no file changes, whatever follows on the connection |
| `Receiver.AbortsWithoutSize` | ft.py:50-52 | a peer that closes before the size field gets OK and the connection aborts with no file created |
| `Receiver.StoresExactlyTotal` | ft.py:52-61 | with a free destination, the new file holds exactly the first `total` payload bytes, whatever follows them, and OK then ACK are sent |
| `Receiver.StopsOnShortPayload` | ft.py:53-63 | a payload shorter than announced aborts without ACK and leaves the whole chunks received in the new file |
| `Receiver.ParseHeader` | ft.py:43-52 | the receiver's parse of a well-formed request recovers the name length, the name, the size and the payload |
| `Receiver.ReceiveAll` | ft.py:39-63 | the accept loop serves every connection whatever earlier ones did, provided each peer eventually sends all it sends and closes (a stalled peer is not modelled, see Left out); it never overwrites or removes an existing file |
| `Receiver.ReceiveAllStep` | ft.py:39-41 | serving one more connection appends its outcome and continues from the files it left |
| `Receiver.ReceiveTwo` | ft.py:39-41 | two connections in a row: the second is served against the files the first left |
| `Receiver.ServeAll` | ft.py:39-63 | the loop over accepted connections produces the outcomes and files that `ReceiveAll` specifies |
| `Sender.AfterAccept` | ft.py:86-96 | after OK the sender only ever sends a prefix of the upload, and no more than the receiver reads; exit 0 only when ACK follows and the whole upload went out; else 255 |
| `Sender.AfterRequest` | ft.py:80-96 | after the name: exit 1 exactly when the decision is NO, and then nothing more is sent; exit 0 only after OK and ACK with the whole upload sent; never more sent than the receiver reads |
| `Sender.Transfer` | ft.py:76-98 | one run exits with 0, 1 or 255 only. What goes out is a prefix of name message + upload, and no longer than what the receiver reads, so a send that cannot complete gives 255. 0 means OK then ACK came back and everything went out. 1 means NO came back and only the name message went out |
| `Sender.OutcomeTable` | ft.py:80-96 | once the name message is read: decision NO gives 1 and a decision that is neither NO nor OK gives 255, with only the name sent; after OK the exit is never 1; if the whole upload is read, 0 exactly when ACK follows; if not, 255 |
| `Sender.SourceFile.Size` | ft.py:86 | `fstat` reports the file's length |
| `Sender.SourceFile.Read` | ft.py:90 | `f.read(k)` gives the next at most k bytes of the file, and nothing only at the end |
| `Sender.SendFile` | ft.py:89-93 | the read-until-EOF loop hands the file's bytes to the connection in order; it succeeds iff the peer takes them all |
| `Sender.SendRequest` | ft.py:77-78 | sends the 2-byte length and the name, or fails; when the name is too long it fails and sends nothing |
| `Sender.SendUpload` | ft.py:86-93 | sends the 8-byte size and the contents, or fails having sent a prefix |
| `Sender.FinishTransfer` | ft.py:86-96 | the sender after OK behaves as `AfterAccept` specifies |
| `Sender.AwaitDecision` | ft.py:80-96 | the sender after the name behaves as `AfterRequest` specifies |
| `Sender.RunTransfer` | ft.py:76-98 | the step-by-step sender gives the exit code and outgoing bytes that `Transfer` specifies, for every way the transport splits the bytes |
| `Session.TransferDelivers` | ft.py:43-96 | honest sender and receiver over a lossless connection, free destination: the sender exits 0 and the new file equals the source file byte for byte (any length, including 0) |
| `Session.TransferRefused` | ft.py:45-82 | destination taken: the receiver sends exactly NO and changes nothing; the sender sends only the name and exits 1 |
| `Session.SecondTransferRefused` | ft.py:45-61 | sending the same file twice to one directory: the first completes, the second is refused with exit 1, and the stored file keeps the first transfer's bytes |
| `Session.AbortKeepsServing` | ft.py:39-63 | a sender that closes after the name aborts its connection without creating a file, and the next connection is served as if it had not happened |
| `Session.AbortedUploadBlocksRetry` | ft.py:47-63 | a connection that drops during the payload leaves its file behind, so a retry with the same name is refused |

## Left out

- Sockets are not modelled: socket creation, `SO_REUSEADDR`, bind, listen,
  accept, IPv4/IPv6 families and connect (ft.py:29-35, 40, 68-74). A
  connection is a `Stream` object.
- Transport resets are not modelled separately. A reset that cuts the
  stream short behaves like a peer that closes early, which is modelled.
- Command-line handling is not modelled: `argparse`, `main` and
  `sys.exit`, including the rule that a missing `--file` exits with 255
  (ft.py:100-119).
- UTF-8 is not modelled. File names are opaque bytes (ft.py:44, 76). A
  name that is not valid UTF-8 would make the receiver abort before
  answering; the model accepts every byte string as a name.
- These file operations are not modelled: `os.makedirs` (ft.py:37),
  `os.path.basename` (ft.py:67), and the sender's `open` (ft.py:70).
  `RunTransfer` is given the name bytes and an open `SourceFile`, so the
  exit code 255 for an unopenable file is not modelled.
- Filesystem errors are not modelled: `Create`, `Append` and `Exists`
  always succeed.
- Paths are compared as byte strings, with no normalisation and no
  symbolic links.
- `os.path.exists` is also true for a directory. The map holds files only.
- The accept loop runs forever in the source (ft.py:39). The model serves
  a finite sequence of connections, so liveness is not stated.
- The source file is assumed not to change during the transfer. A file
  that changes size between `fstat` and the reads (ft.py:86-93) is a known
  limitation of the source and is not modelled.
- A peer that connects and then neither sends nor closes is not modelled.
  In the source `recv` blocks with no timeout (ft.py:17), so such a peer
  stalls the receiver in `recv_u16` (ft.py:43) and no later connection is
  served. A `Stream`'s `inbox` is finite and every `Recv` returns, so
  `ReceiveAll` and `ServeAll` describe only peers that eventually send
  all they send and close.
- The receiver is assumed to be the only writer of the output directory.
  The existence check (ft.py:47) and the truncating open (ft.py:54) are
  separated by the `OK` send and the `recv_u64` wait (ft.py:50-52), which
  last as long as the peer chooses. A file another process creates at the
  destination in that window is overwritten by the source; `Receive`'s
  promise never to overwrite an existing file holds only because
  `FileSystem` has no other writer.
