/**
 * The fetch engine: each selected sequence number is fetched on its own and
 * every message of the reply is written under the file name of the
 * Message-ID the server returned; the first failure ends the run, and the
 * files written before it stay on disk.
 */
module Fetch {
  import opened Wrappers
  import opened Hex
  import opened Naming
  import opened LocalFs
  import opened Inventory

  /** One message of a fetch reply: its envelope Message-ID and its body (`None` when reading it fails). */
  datatype Message = Message(messageId: string, body: Option<seq<Byte>>)

  /** The server's answer to fetching one sequence number. */
  datatype Reply = Replied(messages: seq<Message>) | Refused(reason: string)

  /** The IMAP connection, as the reply it gives for each sequence number. */
  type Server = SeqNum -> Reply

  /** Why fetching one sequence number failed. */
  datatype Cause = ServerError(reason: string) | BodyUnreadable | Io(io: IoError)

  /** The disk after a fetch step, and the failure that ended it, if any. */
  datatype Step = Step(fs: FileSystem, failure: Option<Cause>)

  /** The disk after the whole fetch loop; `Aborted` names the position and sequence number that failed. */
  datatype Run =
    | Completed(fs: FileSystem)
    | Aborted(fs: FileSystem, position: nat, seqNum: SeqNum, cause: Cause)

  /** The reply to fetching `seqNum` carries a message with the Message-ID `messageId`. */
  predicate Serves(server: Server, seqNum: SeqNum, messageId: string) {
    server(seqNum).Replied? &&
    exists j :: 0 <= j < |server(seqNum).messages| && server(seqNum).messages[j].messageId == messageId
  }

  /** Every path of the first disk is a path of the second, and the oracles agree. */
  predicate Grows(before: FileSystem, after: FileSystem) {
    before.files.Keys <= after.files.Keys &&
    before.statFails == after.statFails && before.writeFails == after.writeFails
  }

  /** Writing the messages of one reply in order, stopping at the first body or write error. */
  function Deliver(sha512: Hash, dir: string, messages: seq<Message>, fs: FileSystem): (step: Step)
    ensures Grows(fs, step.fs)
    ensures step.failure.None? ==>
      forall j :: 0 <= j < |messages| ==>
        MessageFileName(sha512, dir, messages[j].messageId) in step.fs.files
    decreases |messages|
  {
    if messages == [] then Step(fs, None)
    else
      match messages[0].body
      case None => Step(fs, Some(BodyUnreadable))
      case Some(body) =>
        match WriteFile(fs, MessageFileName(sha512, dir, messages[0].messageId), body)
        case Err(e) => Step(fs, Some(Io(e)))
        case Ok(written) => Deliver(sha512, dir, messages[1..], written)
  }

  /** A delivery without failure read every body of the reply. */
  lemma {:induction false} DeliveredBodiesReadable(sha512: Hash, dir: string, messages: seq<Message>, fs: FileSystem)
    requires Deliver(sha512, dir, messages, fs).failure.None?
    ensures forall j :: 0 <= j < |messages| ==> messages[j].body.Some?
    decreases |messages|
  {
    if messages != [] && messages[0].body.Some? {
      var written := WriteFile(fs, MessageFileName(sha512, dir, messages[0].messageId), messages[0].body.value);
      if written.Ok? {
        var rest := messages[1..];
        DeliveredBodiesReadable(sha512, dir, rest, written.value);
        assert forall j :: 0 < j < |messages| ==> messages[j] == rest[j - 1];
      }
    }
  }

  /**
   * After a delivery without failure, the file of message `j` holds that
   * message's body when no later message of the reply is written to it.
   */
  lemma {:induction false} DeliveredLastWrite(sha512: Hash, dir: string, messages: seq<Message>, fs: FileSystem, j: nat)
    requires Deliver(sha512, dir, messages, fs).failure.None?
    requires j < |messages| && messages[j].body.Some?
    requires forall k :: j < k < |messages| ==>
      MessageFileName(sha512, dir, messages[k].messageId) != MessageFileName(sha512, dir, messages[j].messageId)
    ensures MessageFileName(sha512, dir, messages[j].messageId) in Deliver(sha512, dir, messages, fs).fs.files
    ensures Deliver(sha512, dir, messages, fs).fs.files[MessageFileName(sha512, dir, messages[j].messageId)]
         == messages[j].body.value
    decreases |messages|
  {
    var name := MessageFileName(sha512, dir, messages[0].messageId);
    var written := WriteFile(fs, name, messages[0].body.value);
    if messages[0].body.Some? && written.Ok? {
      var rest := messages[1..];
      if j > 0 {
        assert messages[j] == rest[j - 1];
        assert forall k :: j - 1 < k < |rest| ==> rest[k] == messages[k + 1];
        DeliveredLastWrite(sha512, dir, rest, written.value, j - 1);
      } else {
        assert forall k :: 0 <= k < |rest| ==> rest[k] == messages[k + 1];
        DeliveredKeepsOthers(sha512, dir, rest, written.value, name);
      }
    }
  }

  /** A delivery without failure leaves a path that no message of the reply names as it was. */
  lemma {:induction false} DeliveredKeepsOthers(sha512: Hash, dir: string, messages: seq<Message>, fs: FileSystem, path: string)
    requires Deliver(sha512, dir, messages, fs).failure.None?
    requires path in fs.files
    requires forall k :: 0 <= k < |messages| ==> MessageFileName(sha512, dir, messages[k].messageId) != path
    ensures path in Deliver(sha512, dir, messages, fs).fs.files
    ensures Deliver(sha512, dir, messages, fs).fs.files[path] == fs.files[path]
    decreases |messages|
  {
    if messages != [] && messages[0].body.Some? {
      var written := WriteFile(fs, MessageFileName(sha512, dir, messages[0].messageId), messages[0].body.value);
      if written.Ok? {
        var rest := messages[1..];
        assert forall k :: 0 <= k < |rest| ==> rest[k] == messages[k + 1];
        DeliveredKeepsOthers(sha512, dir, rest, written.value, path);
      }
    }
  }

  /** Fetching one sequence number: a refused fetch writes nothing. */
  function FetchOne(sha512: Hash, dir: string, server: Server, seqNum: SeqNum, fs: FileSystem): (step: Step)
    ensures Grows(fs, step.fs)
    ensures step.failure.None? ==>
      forall id :: Serves(server, seqNum, id) ==> MessageFileName(sha512, dir, id) in step.fs.files
  {
    match server(seqNum)
    case Refused(reason) => Step(fs, Some(ServerError(reason)))
    case Replied(messages) => Deliver(sha512, dir, messages, fs)
  }

  /** The fetch loop from position `i` of `toFetch` on. */
  function FetchFrom(sha512: Hash, dir: string, server: Server, toFetch: seq<SeqNum>, i: nat, fs: FileSystem): (run: Run)
    requires i <= |toFetch|
    ensures Grows(fs, run.fs)
    ensures run.Aborted? ==> i <= run.position < |toFetch| && run.seqNum == toFetch[run.position]
    decreases |toFetch| - i
  {
    if i == |toFetch| then Completed(fs)
    else
      var step := FetchOne(sha512, dir, server, toFetch[i], fs);
      if step.failure.Some? then Aborted(step.fs, i, toFetch[i], step.failure.value)
      else FetchFrom(sha512, dir, server, toFetch, i + 1, step.fs)
  }

  /** `fetchMessages` for a one-number set: consumes the reply and writes each message. */
  method FetchMessages(sha512: Hash, dir: string, server: Server, seqNum: SeqNum, fs: FileSystem)
    returns (step: Step)
    ensures step == FetchOne(sha512, dir, server, seqNum, fs)
  {
    match server(seqNum)
    case Refused(reason) =>
      return Step(fs, Some(ServerError(reason)));
    case Replied(messages) =>
      var current := fs;
      var i := 0;
      while i < |messages|
        invariant 0 <= i <= |messages|
        invariant Deliver(sha512, dir, messages[i..], current) == Deliver(sha512, dir, messages, fs)
      {
        var msg := messages[i];
        if msg.body.None? {
          return Step(current, Some(BodyUnreadable));
        }
        var written := WriteFile(current, MessageFileName(sha512, dir, msg.messageId), msg.body.value);
        if written.Err? {
          return Step(current, Some(Io(written.error)));
        }
        assert messages[i..][1..] == messages[i + 1..];
        current := written.value;
        i := i + 1;
      }
      return Step(current, None);
  }

  /** The loop of `Sync` over the selected sequence numbers, in order. */
  method FetchAll(sha512: Hash, dir: string, server: Server, toFetch: seq<SeqNum>, fs: FileSystem)
    returns (run: Run)
    ensures run == FetchFrom(sha512, dir, server, toFetch, 0, fs)
  {
    var current := fs;
    for i := 0 to |toFetch|
      invariant FetchFrom(sha512, dir, server, toFetch, i, current) == FetchFrom(sha512, dir, server, toFetch, 0, fs)
    {
      var step := FetchMessages(sha512, dir, server, toFetch[i], current);
      if step.failure.Some? {
        return Aborted(step.fs, i, toFetch[i], step.failure.value);
      }
      current := step.fs;
    }
    return Completed(current);
  }

  /**
   * Completeness: when the loop completes, every listed number whose reply
   * carried the listed Message-ID has that ID's file on disk.
   */
  lemma {:induction false} CompletedWritesServed(
    sha512: Hash, dir: string, server: Server, snapshot: Snapshot, toFetch: seq<SeqNum>, i: nat, fs: FileSystem)
    requires i <= |toFetch|
    requires FetchFrom(sha512, dir, server, toFetch, i, fs).Completed?
    ensures forall j :: i <= j < |toFetch| && Serves(server, toFetch[j], Lookup(snapshot, toFetch[j])) ==>
      MessageFileName(sha512, dir, Lookup(snapshot, toFetch[j])) in FetchFrom(sha512, dir, server, toFetch, i, fs).fs.files
    decreases |toFetch| - i
  {
    if i < |toFetch| {
      var step := FetchOne(sha512, dir, server, toFetch[i], fs);
      CompletedWritesServed(sha512, dir, server, snapshot, toFetch, i + 1, step.fs);
    }
  }

  /**
   * No rollback: an abort at position k leaves the disk of the completed
   * prefix `toFetch[..k]` with the failed step's partial writes on top.
   */
  lemma {:induction false} AbortedKeepsPrefix(
    sha512: Hash, dir: string, server: Server, toFetch: seq<SeqNum>, i: nat, fs: FileSystem)
    requires i <= |toFetch|
    requires FetchFrom(sha512, dir, server, toFetch, i, fs).Aborted?
    ensures
      var run := FetchFrom(sha512, dir, server, toFetch, i, fs);
      var prefix := FetchFrom(sha512, dir, server, toFetch[..run.position], i, fs);
      && prefix.Completed?
      && FetchOne(sha512, dir, server, toFetch[run.position], prefix.fs) == Step(run.fs, Some(run.cause))
    decreases |toFetch| - i
  {
    var run := FetchFrom(sha512, dir, server, toFetch, i, fs);
    var step := FetchOne(sha512, dir, server, toFetch[i], fs);
    if step.failure.None? {
      AbortedKeepsPrefix(sha512, dir, server, toFetch, i + 1, step.fs);
      assert toFetch[..run.position][i] == toFetch[i];
    }
  }
}
