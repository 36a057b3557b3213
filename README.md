# go-imap-sync: a verified model of the incremental mirror

`imapsync.Sync` copies an IMAP folder into a local directory, one `.eml` file
per message. A message's file name is derived from its Message-ID alone, so
the existence of that file is the only record that the message was already
downloaded. Repeated runs therefore fetch only what is missing.

This project models the part of `sync.go` that makes that work, once a session
is open and the folder is listed:

- **Naming** (`naming.dfy`, with `hex.dfy`). `messageFileName` is
  `<dir>/<hex>.eml`, where `<hex>` is the lowercase hex of the first 31 bytes
  of the SHA-512 digest of the Message-ID. That makes 62 hex digits.
  - The digest is a parameter `sha512: Hash`: any function from strings to
    64-byte sequences.
  - The hex encoding is modelled concretely, with its inverse.
- **Existence check** (`localfs.dfy`). `fileExists` answers in three ways over
  an abstract disk:
  - a file map;
  - the paths whose `stat` fails with an error other than "does not exist";
  - the paths whose write fails.
- **Selection** (`inventory.dfy`). `getMessagesToFetch` walks the snapshot map
  in an unspecified order. It keeps the sequence numbers whose file does not
  exist and counts them. Any other stat error is fatal.
- **Fetch engine** (`fetch.dfy`). `fetchMessages` and the loop in `Sync` fetch
  each selected number on its own, from a `server` parameter. Taking the
  reply as a finished list of messages (see "## Left out" on the channel
  handoff), they write every message of the reply and stop at the first refused fetch, unreadable body or
  failed write. The disk keeps file contents: after a delivery without failure,
  each file holds the body last written to it, and other files are untouched.
- **Result assembly and the whole run** (`imapsync.dfy`). The new names come
  in fetch-list order. The existing names cover every other snapshot entry.

Each step that works by changing things in place is a method with loops and
invariants. Each method is proved against a specification function
(`FetchOne`, `FetchFrom`) or against sets (`Missing`). The properties that
relate several runs are lemmas about those functions:

- completeness;
- no rollback after a failure;
- idempotence.

`SyncTwice` runs `Sync` twice and states, in its postcondition, what the
package comment promises. If the first run succeeds and every reply carries
the listed Message-ID, the second writes nothing and reports nothing new. It reports as existing the same names, each
as often, as the first run reported as new or existing.

Points where the model and the code meet:

- The code takes 31 digest bytes (`b[0:31]`, sync.go:166). The doc comment at
  sync.go:159 says 32. The model follows the code: 62 hex digits.
- `fetchMessages` writes each message under the Message-ID that the fetch
  reply carries (sync.go:151). The result reports the name of the ID from the
  listing (sync.go:71). Completeness therefore assumes, via `Fetch.Serves`,
  that the reply for a number carries the listed ID.
- Messages that share a Message-ID share one file (`Naming.FileNameCollision`).
  This includes all messages whose ID is empty. A later write of that file
  replaces an earlier one.
- `Sync` is modelled from line 51 on. Its inputs are the listing, the server
  and the disk. Its outputs are the disk afterwards and the result or the
  error. The disk is returned on the error paths too, because writes are not
  undone.
- The `log.Fatal` inside `getMessagesToFetch` ends the process. The model
  turns it into the error `Fatal(StatFailed(path))`, returned before anything
  is written.

## Model

| member | source | states |
|---|---|---|
| Hex.Encode | sync.go:166 | the hex text has two characters per byte, and every character is a lowercase hex digit |
| Hex.DecodeEncode | sync.go:166 | decoding the hex text gives back exactly the bytes that were encoded |
| Hex.EncodeDecode | sync.go:166 | any string that decodes is the encoding of the bytes it decodes to, so the hex form is canonical |
| Hex.EncodeInjective | sync.go:166 | different byte strings never have the same hex text |
| Naming.TruncatedHexForm | sync.go:159-167 | `Sha512TruncatedHex` gives 62 lowercase hex digits, and they decode to the first 31 bytes of the Message-ID's digest |
| Naming.FileNameLayout | sync.go:169-172 | the name `MessageFileName` gives is the directory prefix, then 62 hex digits, then `.eml`; reading the digits back gives the first 31 digest bytes |
| Naming.FileNameCollision | sync.go:160-172 | two Message-IDs get the same file name exactly when their digests agree on the first 31 bytes (both directions) |
| Naming.DistinctIdsDistinctFiles | sync.go:160-172 | on a finite set of Message-IDs whose truncated digests do not collide, distinct IDs get distinct file names |
| LocalFs.FileExists | sync.go:174-184 | present gives (true, no error); not-found gives (false, no error); any other stat error gives (true, that error), and only then is there an error |
| LocalFs.WriteFile | sync.go:151 | a write fails only on an unwritable path; otherwise that path alone gets the body and nothing else on the disk changes |
| Inventory.GetMessagesToFetch | sync.go:124-137 | succeeds exactly when no derived name hits a stat error, and otherwise reports one such name; on success the list has no duplicates, holds exactly the numbers whose file does not exist, and the count equals both its length and the number of missing files |
| Fetch.Deliver | sync.go:146-156 | the disk only grows; if no body or write error occurs, every message of the reply has its file on disk |
| Fetch.DeliveredBodiesReadable | sync.go:146-150 | a delivery that ends without failure read every body of the reply |
| Fetch.DeliveredLastWrite | sync.go:146-156 | after a delivery without failure, a message's file holds that message's body unless a later message of the reply went to the same file |
| Fetch.DeliveredKeepsOthers | sync.go:146-156 | after a delivery without failure, every file that no message of the reply names keeps its earlier contents |
| Fetch.FetchOne | sync.go:140-157 | a fetch step never deletes a file or changes the error oracles; a successful step leaves on disk the file of every Message-ID the reply carried |
| Fetch.FetchFrom | sync.go:55-63 | the loop never deletes a file; an abort names a position inside the list and the sequence number at that position |
| Fetch.FetchMessages | sync.go:139-157 | the loop over the reply ends with the disk and the failure that the step specification `FetchOne` gives |
| Fetch.FetchAll | sync.go:55-63 | the per-message loop ends in the state the loop specification `FetchFrom` gives: `Completed` with the final disk, or `Aborted` at the first failing position |
| Fetch.CompletedWritesServed | sync.go:55-63 | after a completed loop, every listed number whose reply carried its listed Message-ID has that ID's file on disk |
| Fetch.AbortedKeepsPrefix | sync.go:55-61 | an abort at position k leaves the disk of the completed run over the first k numbers, plus the partial writes of the failing step: nothing is rolled back |
| ImapSync.AssembleResult | sync.go:66-82 | the new names are the names of `messagesToFetch` in order; the existing names are those of a duplicate-free listing of exactly the other snapshot numbers; for a duplicate-free selection inside the snapshot, the two lengths add up to the snapshot's size |
| ImapSync.Sync | sync.go:51-83 | a stat error is fatal before any write; otherwise the selection is exactly the missing numbers, the disk afterwards is the fetch loop's, an abort returns the failing sequence number and its cause, and success returns the assembled result; the result covers the whole snapshot, and an empty folder gives two empty lists |
| ImapSync.ResultNamesDistinct | sync.go:66-82 | when the listing's Message-IDs differ and their truncated digests do not collide, the existing and new names together have no duplicates |
| ImapSync.MissingShrinks | sync.go:125-137 | on a disk that only grew, the set of missing numbers can only shrink |
| ImapSync.Completeness | sync.go:55-63 | after a successful run whose replies carried the listed IDs, every Message-ID of the snapshot has its file on disk |
| ImapSync.SecondRunSelectsNothing | sync.go:1-2 | on the disk a successful run leaves, a second selection over the same snapshot finds no stat error and nothing missing |
| ImapSync.AbortRetainsEarlierFetches | sync.go:55-61 | after an abort at position k, each earlier number whose reply carried its ID keeps its file, and a later run does not select it again |
| ImapSync.SyncTwice | sync.go:1-2 | two runs on an unchanged mailbox whose replies carry the listed IDs: if the first succeeds, the second writes nothing, reports no new names, and reports as existing a reordering of the first run's new and existing names |

## Left out

- Opening and closing the session is not modelled: `connect`, `DialTLS`, `Login`, `Select` and the deferred `Logout` (sync.go:33-48, 86-102). They are network I/O through a client library.
- `getMessageIDMap` (sync.go:105-122) is not modelled. It streams the listing over a channel from a goroutine. Its result is the `snapshot` parameter.
- `os.MkdirAll` (sync.go:28) is not modelled. The directory is assumed to exist.
- SHA-512 and `io.WriteString` (sync.go:161-165) are not modelled; the hash is the uninterpreted `sha512` parameter. No collision-freedom is claimed for the hash as a whole. `Naming.DistinctIdsDistinctFiles` and `ImapSync.ResultNamesDistinct` assume only that a given finite set of Message-IDs has no truncated-digest collision; `Naming.FileNameCollision` states exactly when two names collide.
- The channel handoff inside `fetchMessages` is not modelled. The reply to a fetch is a finished list of messages, or a refusal. This is an assumption: the model takes the messages to reach the write loop after `connection.Fetch` returns. The code makes an unbuffered channel (sync.go:141), calls `Fetch` synchronously (sync.go:142), and starts draining the channel only after that call returns (sync.go:146). `getMessageIDMap` instead calls the same API from a goroutine while it drains the channel (sync.go:112-118). If `Fetch` sends on the channel before returning, `fetchMessages` would block on its first message and write nothing. The client library is not part of this model, so which behaviour holds is not settled here. `Completeness`, `SecondRunSelectsNothing` and `SyncTwice` depend on the assumption.
- Go strings are byte strings, but Message-IDs and the directory are modelled as Dafny `string`, a sequence of Unicode characters. A Message-ID that is not valid UTF-8 has no counterpart in the model. Nothing proved depends on this: the hash is an uninterpreted function of the string, and `Join` only concatenates.
- Reading bodies (`ioutil.ReadAll`), `os.Stat` and file permissions (0600, 0700) are replaced by oracles: a body may be missing, and a path may be in the stat-failure or write-failure set. `os.Stat` (sync.go:176) is `LocalFs.Stat`, read off those sets.
- Partly written files are not modelled. In the model a write either succeeds fully or fails without changing the disk. `ioutil.WriteFile` can also fail after it has created or truncated the file, with no crash involved (a full disk, say). A truncated `.eml` then stays under its final name, and every later run counts that message as existing and never fetches it again. The model hides that error path and its effect on later runs, as well as crash safety.
- `filepath.Join` (sync.go:171) is modelled by `Naming.Join` as `dir + "/" + name`, or just `name` when `dir` is empty. Path cleaning (`filepath.Clean`) and OS-specific separators are not modelled.
- Go maps are iterated in random order. The model picks keys with a nondeterministic choice. Its postconditions hold for every order, and the ghost outputs of `Sync` report the order taken.
- `toFetchCount` is a Go `uint`. It is modelled as an unbounded natural. IMAP sequence numbers start at 1 (section 2.3.1.2 of RFC 3501), so a folder has at most 2^32 - 1 messages and the count fits even a 32-bit `uint`. The model's `SeqNum` also admits 0, which a server never sends.
- The process exit of `log.Fatal` (sync.go:129) is not modelled. In Go a stat error there ends the program: `Sync` never returns, and the deferred `Logout` (sync.go:38-43) does not run, because `os.Exit` skips deferred calls. The model returns `Fatal(StatFailed(path))` instead, before anything is written.
- Logging and progress output (sync.go:50-64) are not modelled.
- The command-line tool `cmd/go-imap-sync/go-imap-sync.go` is not modelled: flag parsing, and reading the password from `IMAP_PASSWORD` or a prompt. Its call to `Sync` passes a sixth `disableTls` argument that `Sync` (sync.go:27) does not take. `connect` always uses TLS (sync.go:88), so there is no TLS switch to model.
