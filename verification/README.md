# Snapshot restore client and deployment environment, in Dafny

This project models two pieces of the Waypoint code base.

- The client side of `waypoint server restore`. The command picks a byte source:
  a named file, `-` for standard input, or implicit standard input, which is
  refused when stdin is a terminal. It then opens a `RestoreSnapshot` stream,
  sends one `Open` event, and fills a 1024-byte buffer with `io.ReadFull` again
  and again. Each non-empty fill goes out as one `Chunk` event. Finally it
  half-closes the stream and waits for the server's reply (`CloseAndRecv`). It
  exits with status 1 at the first failure and with 0 otherwise.
- `DeploymentConfig.Env`, which turns a deployment's identity, server address
  and insecure flag into the `DEVFLOW_*` environment variables for the
  deployment's entrypoint.

Files:

- `wrappers.dfy` (module `Wrappers`): `Option` and `Result`.
- `framing.dfy` (module `Framing`): bytes, `ReadFull` on a byte sequence, and
  `Frames`, the chunks the read loop produces. `FramesFrom(src, pos)` gives the
  chunks still to come once `pos` bytes are consumed. Also the facts about them:
  they concatenate back to the source, they are well framed, there are
  ceil(n/1024) of them, and no other split has these properties.
- `snapshot_restore.dfy` (module `SnapshotRestore`): source selection
  (`InitReader`), the transport calls as a trace of `Call` values, the
  all-success trace `Plan`, and the methods `SendChunks` (the read loop),
  `Upload` (the stream calls around it) and `Run`.
- `deployment.dfy` (module `Deployment`): `Env`, plus a reference reading
  `Decode` that shows exactly what information `Env` keeps.

Things the command cannot see are parameters, not I/O:

- The byte source is a finite `seq<byte>`. `World.stdinBytes` and
  `World.fileBytes` give what stdin and the opened file would yield.
- The terminal check on stdin is a boolean.
- The outcome of `os.Open(args[0])` is an `Option<string>`: the error, or
  `None` when the file opened.
- `c.Init` succeeding is a boolean.
- The transport is an oracle `callOk: nat -> bool`. It gives the outcome of
  the i-th transport call the command makes: 0 is `RestoreSnapshot`, 1 is
  the `Open` send, then come the chunk sends, and the last is `CloseAndRecv`.

`Run` returns the calls it made, in order, together with its exit status.
Its contract says the following:

- The calls are always a prefix of `Plan` for the selected source.
- They stop right after the first failing call, and then the status is 1.
- The status is 0 only when the whole plan was carried out and every call
  succeeded.
- The chunk payloads sent so far always concatenate to a prefix of the
  source. After a successful run they concatenate to the whole source.

## Model

| member | source | states |
|---|---|---|
| SnapshotRestore.InitReader | internal/cli/snapshot_restore.go:20-41 | `-` gives stdin with no closer; any other first argument gives the opened file as both reader and closer, or the open error; no argument gives stdin with no closer unless stdin is a terminal, which is an error; the reader is stdin exactly when stdin was asked for, and a closer exists exactly for an opened file |
| SnapshotRestore.OnlyFirstArgConsulted | internal/cli/snapshot_restore.go:20-32 | only `args[0]` influences source selection; later arguments are ignored |
| Framing.ReadFull | internal/cli/snapshot_restore.go:86-96 | a read fills the buffer with the next source bytes, returns fewer than 1024 only at the end of the source, and returns zero bytes exactly when the source is exhausted |
| Framing.FramesSound | internal/cli/snapshot_restore.go:83-107 | `Framing.Frames` and `Framing.FramesFrom` model the read loop of these lines over a source whose end is final; its chunks concatenate back to the source, each holds 1 to 1024 bytes, all but the last hold exactly 1024, and there are ceil(len/1024) of them (none for an empty source) |
| Framing.FramesUnique | internal/cli/snapshot_restore.go:86-96 | a split of the source is well framed and concatenates to the source if and only if it is the read loop's split |
| SnapshotRestore.PlanReassembles | internal/cli/snapshot_restore.go:83-107 | the `Chunk` payloads of a run in which every call succeeds (`Plan`), in send order, reproduce the source exactly, are well framed and number ceil(len/1024); an empty source sends no chunk |
| SnapshotRestore.PlanEventOrder | internal/cli/snapshot_restore.go:65-109 | `SnapshotRestore.Plan` models the sequence of calls of these lines when every call succeeds; in it the stream is opened first; `Open` is sent exactly once, before every chunk; every call between `Open` and the last call is a chunk; `CloseAndRecv` happens exactly once, after the last chunk |
| SnapshotRestore.PlanPrefixSendsPrefix | internal/cli/snapshot_restore.go:85-107 | a run cut short after any number of calls has sent a prefix of the source, in source order |
| SnapshotRestore.SendChunks | internal/cli/snapshot_restore.go:83-107 | once the stream is open and `Open` was sent, the read loop sends the planned chunks in source order; it either stops right after the first failed chunk send (status 1, every earlier call succeeded), or sends every chunk successfully, leaving only `CloseAndRecv` in the plan |
| SnapshotRestore.Upload | internal/cli/snapshot_restore.go:65-121 | the calls follow the plan and stop at the first failed call (open stream, `Open`, any chunk, or `CloseAndRecv`), with status 1 then; status 0 only when every planned call was made and succeeded, and then the chunk payloads are exactly the source in well-framed chunks |
| SnapshotRestore.Run | internal/cli/snapshot_restore.go:43-121 | a failed `Init` or source selection exits 1 with no transport call; otherwise the selected source is uploaded as `Upload` states, and the chunks sent are always a prefix of that source |
| Deployment.Env | sdk/component/deployment.go:14-31 | the identity is always set; without an address the result is exactly identity plus `DEVFLOW_SERVER_DISABLE`=1; with one, `DEVFLOW_SERVER_ADDR` is the address and the server is not disabled; `DEVFLOW_SERVER_INSECURE`=1 is set if and only if there is an address and the flag is true; disable and address are never both set; 2 or 3 keys, all from the four `DEVFLOW_*` names |
| Deployment.EnvDecodes | sdk/component/deployment.go:14-31 | reading the variables back recovers the configuration, except for the insecure flag when there is no address |
| Deployment.EnvInjective | sdk/component/deployment.go:14-31 | two configurations give the same environment if and only if they agree on identity and address and, when there is an address, on the insecure flag |

## Left out

- The gRPC transport (`client.RestoreSnapshot`, `stream.Send`, `CloseAndRecv`): each call's success or failure is an oracle input, and the server's reply value is not modelled.
- Terminal detection (`sshterm.IsTerminal`) and `os.Open`: they are parameters of `InitReader`.
- Read errors other than end-of-file: the code drops any error from `io.ReadFull` (`err` is overwritten at line 98) and ends the loop on any zero-byte read (lines 89-96). So a read error after some bytes silently ends the upload early, and the rest of the upload proceeds as if the source had ended. The model takes the source to be a finite byte sequence and does not model read errors.
- Framing.ReadFull: the source is one finite byte sequence whose end, once reached, is final. A reader that yields more bytes after reporting end of input is not modelled. An example is a terminal accepted through `-` (lines 22-23), where every Ctrl-D ends a short fill. With such a reader the code clears `ErrUnexpectedEOF` (lines 90-92), sends the short chunk (lines 98-102) and keeps reading. A chunk other than the last can then hold fewer than 1024 bytes, and there can be more than ceil(len/1024) chunks. The claims that all but the last chunk are full, and the chunk count, hold only under the finite-source assumption.
- SendChunk payloads: each payload is the value of `buf[:n]` at the moment of `Send` (line 100). The code reuses the single array `buf` (line 83), and the next `io.ReadFull` (line 89) overwrites it. The round trip of the payloads therefore relies on `stream.Send` encoding the message before it returns. Buffer aliasing is not modelled.
- `c.Init`, flags, autocomplete, `Synopsis` and `Help` (lines 45-51, 124-150): presentation and CLI surface. Only the outcome of `Init` is modelled, as a boolean.
- The messages written to stderr and the UI completion message (lines 57, 67, 77, 104, 111, 115-119): presentation only.
- The deferred `closer.Close()` (lines 61-63): resource lifetime. `InitReader` states only that a closer exists exactly for an opened file.
- The server side of restore: rebuilding the snapshot from chunks, validating it, swapping state atomically and serializing commits. That code is not part of this model.
- `Env` on a nil `*DeploymentConfig` would panic. The model takes a value.
