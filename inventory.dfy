/**
 * The inventory snapshot (sequence number to Message-ID) and the selection
 * of the messages whose local artifact does not exist yet.
 */
module Inventory {
  import opened Wrappers
  import opened Naming
  import opened LocalFs
  import opened Lists

  /** An IMAP sequence number, a Go `uint32`. */
  type SeqNum = n: int | 0 <= n < 0x1_0000_0000

  /** The listing of one session: sequence number to Message-ID. */
  type Snapshot = map<SeqNum, string>

  /** Go's map index: the empty string for a key the map does not hold. */
  function Lookup(snapshot: Snapshot, k: SeqNum): string {
    if k in snapshot then snapshot[k] else ""
  }

  /** The sequence numbers whose derived file is reported as not existing. */
  function Missing(sha512: Hash, dir: string, snapshot: Snapshot, fs: FileSystem): set<SeqNum> {
    set k | k in snapshot && Stat(fs, MessageFileName(sha512, dir, snapshot[k])) == NotExist
  }

  /** No file name derived from the snapshot hits a stat error other than "does not exist". */
  predicate NoStatFailure(sha512: Hash, dir: string, snapshot: Snapshot, fs: FileSystem) {
    forall k :: k in snapshot ==> MessageFileName(sha512, dir, snapshot[k]) !in fs.statFails
  }

  /** The file names of the snapshot whose stat fails. */
  function FailingNames(sha512: Hash, dir: string, snapshot: Snapshot, fs: FileSystem): set<string> {
    set k | k in snapshot && MessageFileName(sha512, dir, snapshot[k]) in fs.statFails
      :: MessageFileName(sha512, dir, snapshot[k])
  }

  /** The two results of `getMessagesToFetch`. */
  datatype Selection = Selection(messagesToFetch: seq<SeqNum>, toFetchCount: nat)

  /**
   * `getMessagesToFetch`: visits every entry of the snapshot once, in an
   * unspecified order, and keeps the sequence numbers whose file does not
   * exist. A stat error other than "does not exist" is fatal.
   */
  method GetMessagesToFetch(sha512: Hash, dir: string, snapshot: Snapshot, fs: FileSystem)
    returns (r: Outcome<Selection, IoError>)
    ensures r.Ok? <==> NoStatFailure(sha512, dir, snapshot, fs)
    ensures r.Err? ==>
      r.error.StatFailed? && r.error.path in FailingNames(sha512, dir, snapshot, fs)
    ensures r.Ok? ==>
      var sel := r.value;
      && Distinct(sel.messagesToFetch)
      && (forall k :: k in sel.messagesToFetch <==> k in Missing(sha512, dir, snapshot, fs))
      && sel.toFetchCount == |sel.messagesToFetch| == |Missing(sha512, dir, snapshot, fs)|
  {
    var messagesToFetch: seq<SeqNum> := [];
    var toFetchCount: nat := 0;
    var remaining := snapshot.Keys;
    ghost var missing := Missing(sha512, dir, snapshot, fs);
    while remaining != {}
      invariant remaining <= snapshot.Keys
      invariant forall k :: k in snapshot && k !in remaining ==>
        MessageFileName(sha512, dir, snapshot[k]) !in fs.statFails
      invariant Distinct(messagesToFetch)
      invariant forall k :: k in messagesToFetch <==>
        k !in remaining && k in missing
      invariant toFetchCount == |messagesToFetch|
      decreases remaining
    {
      var seqNum :| seqNum in remaining;
      var messageId := snapshot[seqNum];
      var (found, err) := FileExists(fs, MessageFileName(sha512, dir, messageId));
      if err.Some? {
        assert MessageFileName(sha512, dir, snapshot[seqNum]) in FailingNames(sha512, dir, snapshot, fs);
        return Err(err.value);
      }
      if !found {
        DistinctAppend(messagesToFetch, seqNum);
        messagesToFetch := messagesToFetch + [seqNum];
        toFetchCount := toFetchCount + 1;
      }
      remaining := remaining - {seqNum};
    }
    ListsSet(messagesToFetch, missing);
    return Ok(Selection(messagesToFetch, toFetchCount));
  }
}
