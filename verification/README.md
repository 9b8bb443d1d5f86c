# Connection layer of the login and map servers

This project models the per-connection core of `lib/server.py`. That file
holds the TCP front end of the login and map servers.

- A server keeps `client_list`, the list of its live clients. `handle_client`
  appends a new client for each accepted socket.
- Each client runs a receive loop (`run`). The loop appends every chunk read
  from the socket to the buffer `buf`. It then calls `handle_packet` once.
- `handle_packet` takes one step of a three-phase protocol:
  - wait for the 8-byte init marker `PACKET_INIT`, then answer with the fixed
    529-byte key reply `KEY_HEAD+KEY_PRIME+KEY_PUBLIC`;
  - wait for the 5-byte client key `PACKET_KEY`;
  - from then on, cut one length-prefixed frame per call and hand it to the
    application.
- `stop` is idempotent. The first call closes the socket and removes the
  client from its server's list.

The key exchange is fixed. The prime and the public key are 256 zero bytes
each, and the only accepted client key is the one-byte field `"0"`. No key is
derived and nothing is decrypted in this file.

Modules:

- `Wire` (wire.dfy): bytes, the handshake constants, the 4-byte big-endian
  length word, and the cut of one frame off the buffer.
- `ClientList` (client_list.dfy): Python's `list.append` and `list.remove`
  on the client list.
- `Protocol` (protocol.dfy): the receive state machine as values.
  - `Step` is one `handle_packet` call.
  - `Handle` is its effect on a whole connection.
  - `Receive` is one iteration of `run`.
  - `Feed` is `run` over a finite sequence of reads.
- `Server` (server.dfy): the classes `StandardServer` and `StandardClient`.
  Their methods update fields in place. `HandlePacket` is proved to follow
  `Handle`, and `Run` is proved to follow `Feed`.
- `Wrappers` (wrappers.dfy): `Option`.

Sockets are replaced by ghost logs on the client:

- `sent` holds what `handle_packet` sends through `send`;
- `delivered` holds each frame passed to `decode`/`handle_data`;
- `closed` records `socket.close()`.

`general.unpack_int` is not part of this model. It is assumed to decode
exactly four bytes as a big-endian unsigned integer and to raise on any other
length. A header shorter than four bytes therefore makes `handle_packet`
raise. The inner `try` of `run` catches that exception, and the client keeps
its buffer and goes on reading.

Behaviour of the code worth knowing, each stated by a lemma:

- Partial input is not buffered in the handshake. A first read shorter than
  the init marker stops the client (`RejectBadInit`).
- Partial frames are not buffered either. A frame that arrives split after
  its 4-byte header stops the client (`SplitFrameStops`). A split inside the
  header is survived, because it only raises (`SplitHeaderSurvives`).
- The marker is matched as a prefix. Bytes after it stay in the buffer.
- Each read drives one step. Marker and key arriving in one read leave the
  key buffered until the next read (`CoalescedHandshake`). Two whole frames
  arriving in one read hand on only the first; the second waits for another
  read (`CoalescedFrames`).

## Model

| member | source | states |
|---|---|---|
| `Wire.UnpackInt` | lib/server.py:86 | the length word decodes only from exactly four bytes, and its value fits in 32 bits |
| `Wire.PackInt` | lib/server.py:11-15 | the encoder of the length word always gives four bytes |
| `Wire.UnpackPack` | lib/server.py:86 | decoding the encoding of any 32-bit length gives that length back |
| `Wire.PackUnpack` | lib/server.py:86 | any four bytes are the encoding of the value they decode to |
| `Wire.Field` | lib/server.py:11-15 | a length-prefixed field is four bytes that decode to the payload's length, followed by the payload itself |
| `Wire.ConstantLayout` | lib/server.py:11-15 | KEY_HEAD is a zero word plus the field "1"; KEY_PRIME and KEY_PUBLIC are 256-zero-byte fields; PACKET_KEY is the field "0"; the reply is 529 bytes; PACKET_INIT is 8 bytes |
| `Wire.Head` | lib/server.py:86 | `buf[:4]` is a prefix of the buffer of at most four bytes, exactly four long iff the buffer is, and the whole buffer when it is shorter |
| `Wire.SplitFrameShort` | lib/server.py:86 | reading the frame header fails exactly when the buffer holds fewer than four bytes |
| `Wire.SplitFrameComplete` | lib/server.py:86-89 | a cut frame followed by the rest is the old buffer, and the frame's length word plus 8 is its size |
| `Wire.SplitFrameIncomplete` | lib/server.py:86-93 | with a full header, the frame is incomplete exactly when the declared length plus 8 exceeds the buffer |
| `Wire.SplitEncoded` | lib/server.py:86-89 | framing round trip: an encoded frame at the front of any buffer is cut off exactly, leaving the rest |
| `Wire.DocCommentFrame` | lib/server.py:85-89 | the worked example (length 0x10, sub-header 0x0c, 16 bytes) is one 24-byte frame |
| `Wire.SplitFrame` | lib/server.py:86-93 | definition of the established-phase frame cut (raise, incomplete, or frame and rest); specified by `SplitFrameShort`, `SplitFrameComplete`, `SplitFrameIncomplete` and `SplitEncoded` |
| `ClientList.IndexOf` | lib/server.py:103 | `list.remove` acts at the first position holding the client, with none before it |
| `ClientList.RemoveFirst` | lib/server.py:103 | definition of `list.remove`: the list with the first occurrence of the client dropped; specified by `IndexOf`, `RemoveFirstCount`, `RemoveFirstNoDup` and `AppendThenRemove` |
| `ClientList.RemoveFirstCount` | lib/server.py:103 | `remove` shortens the list by one and takes away exactly one copy of the client |
| `ClientList.RemoveFirstNoDup` | lib/server.py:103 | on a list without duplicates, `remove` leaves every other client, drops the removed one, and keeps the list duplicate-free |
| `ClientList.AppendThenRemove` | lib/server.py:103-112 | appending a new client and then removing it gives the list back unchanged |
| `ClientList.AppendNoDup` | lib/server.py:108-112 | appending a client not yet listed keeps the list duplicate-free |
| `Protocol.Step` | lib/server.py:70-94 | definition of one `handle_packet` call on the buffer and flags, including the `stop` and raise outcomes; specified by `InitPhaseStep`, `KeyPhaseStep`, `EstablishedStep`, `StepFlags` and `StepOnePhase` |
| `Protocol.Handle` | lib/server.py:70-94 | definition of the effect of one `handle_packet` call on the whole connection (logs and running flag); `StandardClient.HandlePacket` is proved to follow it |
| `Protocol.Receive` | lib/server.py:54-64 | definition of one loop iteration: an empty read stops, any other read is appended and handled once; specified by `ReceiveConservesBytes` and `ReceiveFramesAfterHandshake` |
| `Protocol.Feed` | lib/server.py:51-66 | definition of the receive loop over a sequence of reads; `StandardClient.Run` is proved to follow it, and `FeedStopped`, `FeedMonotone`, `FeedReplyOnce`, `FeedSnoc`, `FeedFramesAfterHandshake` and `FeedConservesBytes` state its properties |
| `Protocol.InitPhaseStep` | lib/server.py:71-77 | before init, a step succeeds iff the buffer starts with PACKET_INIT; it then drops exactly those 8 bytes, sets recv_init and sends exactly the 529-byte reply; otherwise, including a buffer shorter than the marker, the client stops |
| `Protocol.KeyPhaseStep` | lib/server.py:78-83 | after init and before the key, a step succeeds iff the buffer starts with PACKET_KEY; it then drops exactly those 5 bytes, sets recv_key and sends nothing; otherwise the client stops |
| `Protocol.EstablishedStep` | lib/server.py:84-94 | once established, a step raises iff fewer than 4 bytes are buffered, stops iff the declared length plus 8 exceeds the buffer, and otherwise hands on one frame of that size with frame ++ new buffer == old buffer |
| `Protocol.StepFlags` | lib/server.py:70-94 | a step never resets a flag, sets recv_key only when recv_init is set, keeps the flags ordered, and only drops bytes from the front of the buffer |
| `Protocol.StepOnePhase` | lib/server.py:70-94 | a successful step either advances exactly one phase with no frame, or stays established and hands on exactly one frame |
| `Protocol.FeedStopped` | lib/server.py:52-56 | once `running` is false, the loop processes nothing more |
| `Protocol.FeedMonotone` | lib/server.py:46-66 | over any reads, the flags stay ordered and never reset, a stopped client stays stopped, and the sent and delivered logs only grow |
| `Protocol.FeedReplyOnce` | lib/server.py:71-75 | the only bytes `handle_packet` ever sends are the key reply, exactly once, when the init phase is passed |
| `Protocol.ReceiveFramesAfterHandshake` | lib/server.py:54-94 | a read hands a frame to the application only if both handshake flags were set before that read |
| `Protocol.FeedSnoc` | lib/server.py:51-66 | the loop over one more read is one more iteration on the state the earlier reads left, unless the client has stopped |
| `Protocol.FeedFramesAfterHandshake` | lib/server.py:51-94 | in any run, the k-th read hands on a frame only if both handshake flags were already set after the reads before it |
| `Protocol.ReceiveConservesBytes` | lib/server.py:54-94 | one established read that keeps the client running leaves delivered frames ++ buffer equal to the old frames ++ old buffer ++ the chunk |
| `Protocol.FeedConservesBytes` | lib/server.py:52-94 | across established reads that keep the client running, no byte is lost or repeated: delivered frames ++ buffer == old frames ++ old buffer ++ all chunks |
| `Protocol.RejectBadInit` | lib/server.py:51-77 | a first read that does not start with the init marker stops a new client with nothing sent and no flag set |
| `Protocol.HandshakeThenFrame` | lib/server.py:51-94 | reads of marker, key and one encoded frame leave the client established and running, with exactly the key reply sent and exactly that frame delivered |
| `Protocol.CoalescedHandshake` | lib/server.py:59-75 | marker and key in one read advance one phase only; the key stays buffered |
| `Protocol.SplitFrameStops` | lib/server.py:86-93 | an established client whose frame arrives split after its header stops on the first piece |
| `Protocol.CoalescedFrames` | lib/server.py:59-94 | of two whole frames arriving in one read, only the first is handed on and the second stays buffered |
| `Protocol.SplitHeaderSurvives` | lib/server.py:51-94 | a frame split inside its 4-byte header raises on the first piece, stays buffered, and is handed on whole after the second |
| `Server.StandardServer.constructor` | lib/server.py:19-29 | a new server has an empty client list and satisfies its invariant |
| `Server.StandardServer.HandleClient` | lib/server.py:107-112 | appends exactly one new client, owned by this server and in its initial state, and keeps the list invariant |
| `Server.StandardClient.constructor` | lib/server.py:39-50 | a new client has an empty buffer, both flags false, is running and has sent and delivered nothing |
| `Server.StandardClient.Send` | lib/server.py:67-69 | the data is appended to what was sent before |
| `Server.StandardClient.Stop` | lib/server.py:95-105 | the first call clears running, closes the socket and removes exactly this client from the list; a later call changes nothing; the buffer and flags are untouched |
| `Server.StandardClient.HandlePacket` | lib/server.py:70-94 | the new state is `Handle` of the old; it raises exactly on a short header; it removes the client from the list exactly when it stops it |
| `Server.StandardClient.Run` | lib/server.py:51-66 | the state after the loop is `Feed` of the old state over the reads; if the client stopped it was removed once from the list, and otherwise the list is unchanged |
| `Server.AcceptThenStop` | lib/server.py:95-112 | accepting a client and stopping it twice leaves the server's list as it was, with the client closed |

## Left out

- Threads, `setDaemon`, the `RLock`s and the accept loop of `StandardServer.run` (lib/server.py:18-37) are not modelled. Every method runs to completion before another starts.
- The race in which a client thread calls `stop` before `handle_client` has appended it is not modelled. `list.remove` would then raise. `Stop` instead requires that a running client is in its server's list.
- `general.unpack_int` and `general.decode` are not part of this model. `unpack_int` is modelled as described above. Frames are logged undecoded, as handed to `decode`.
- `handle_data` and the `LoginDataHandle`/`MapDataHandle` handlers are not modelled. Exceptions they raise are caught by `run` after the frame has left the buffer, so they change nothing in the model. The two roles appear only as `Role`.
- `handle_data` is assumed to send nothing and to leave `buf`, `recv_init`, `recv_key` and `running` unchanged. The handlers are mixed into the client class (lib/server.py:113-122), so in the program they could call `send` or `stop`; bytes they or other threads send through `send` are not in `sent`, and `FeedReplyOnce` speaks only of what `handle_packet` sends.
- A socket error raised by `recv` stops the client just as an empty read does. The model shows only the empty read. Errors raised by `sendall` are not modelled.
- The 1024-byte limit on a single `recv` is not modelled. `Run` takes its reads as a finite sequence, and a socket that would block forever ends that sequence.
- `load`, configuration reading, `print` logging and `del self` (lib/server.py:104-105, 124-133) are not modelled.
- Key derivation, ciphers and per-IP admission limits are not modelled, because lib/server.py has none of them.
