/**
 * `Sync` once the session is open and the folder listed: select the missing
 * messages, fetch them one by one, and report which files already existed
 * and which were newly written.
 */
module ImapSync {
  import opened Wrappers
  import opened Naming
  import opened LocalFs
  import opened Inventory
  import opened Fetch
  import opened Lists

  /** The summary `Sync` returns. */
  datatype Result = Result(existingEmails: seq<string>, newEmails: seq<string>)

  /** The errors `Sync` reports once the snapshot is taken. */
  datatype SyncError =
    | Fatal(io: IoError)
    | FetchFailed(seqNum: SeqNum, cause: Cause)

  /** The file names of the listed sequence numbers, in list order. */
  function FileNames(sha512: Hash, dir: string, snapshot: Snapshot, keys: seq<SeqNum>): (names: seq<string>)
  {
    seq(|keys|, j requires 0 <= j < |keys| => MessageFileName(sha512, dir, Lookup(snapshot, keys[j])))
  }

  /** Two duplicate-free lists that split the snapshot's keys between them are as long as the snapshot. */
  lemma PartitionLength(snapshot: Snapshot, a: seq<SeqNum>, b: seq<SeqNum>)
    requires Distinct(a) && Distinct(b)
    requires forall k :: k in a ==> k in snapshot
    requires forall k :: k in b <==> k in snapshot && k !in a
    ensures |a| + |b| == |snapshot|
  {
    var sa := set k | k in a;
    var sb := set k | k in b;
    ListsSet(a, sa);
    ListsSet(b, sb);
    assert sa + sb == snapshot.Keys;
    assert sa * sb == {};
  }

  lemma FileNamesConcat(sha512: Hash, dir: string, snapshot: Snapshot, a: seq<SeqNum>, b: seq<SeqNum>)
    ensures FileNames(sha512, dir, snapshot, a + b)
         == FileNames(sha512, dir, snapshot, a) + FileNames(sha512, dir, snapshot, b)
  {
  }

  /** Listing the same keys in another order lists the same names in another order. */
  lemma {:induction false} PermutedNames(sha512: Hash, dir: string, snapshot: Snapshot, a: seq<SeqNum>, b: seq<SeqNum>)
    requires multiset(a) == multiset(b)
    ensures multiset(FileNames(sha512, dir, snapshot, a)) == multiset(FileNames(sha512, dir, snapshot, b))
    decreases |a|
  {
    if a == [] {
      assert |b| == |multiset(b)| == 0;
    } else {
      var x := a[0];
      assert x in multiset(b);
      var j :| 0 <= j < |b| && b[j] == x;
      RemoveMatching(a, b, j);
      PermutedNames(sha512, dir, snapshot, a[1..], b[..j] + b[j + 1..]);
      assert a == [x] + a[1..];
      assert b == b[..j] + [x] + b[j + 1..];
      FileNamesConcat(sha512, dir, snapshot, [x], a[1..]);
      FileNamesConcat(sha512, dir, snapshot, b[..j] + [x], b[j + 1..]);
      FileNamesConcat(sha512, dir, snapshot, b[..j], [x]);
      FileNamesConcat(sha512, dir, snapshot, b[..j], b[j + 1..]);
    }
  }

  /**
   * Result assembly: one new name per entry of `messagesToFetch`, in order;
   * then, over the snapshot in an unspecified order (`existingKeys`, ghost),
   * the name of every number that was not fetched.
   */
  method AssembleResult(sha512: Hash, dir: string, snapshot: Snapshot, messagesToFetch: seq<SeqNum>)
    returns (result: Result, ghost existingKeys: seq<SeqNum>)
    ensures result.newEmails == FileNames(sha512, dir, snapshot, messagesToFetch)
    ensures result.existingEmails == FileNames(sha512, dir, snapshot, existingKeys)
    ensures Distinct(existingKeys)
    ensures forall k :: k in existingKeys <==> k in snapshot && k !in messagesToFetch
    ensures Distinct(messagesToFetch) && (forall k :: k in messagesToFetch ==> k in snapshot) ==>
      |result.newEmails| + |result.existingEmails| == |snapshot|
  {
    var isNew: map<SeqNum, bool> := map[];
    var existingEmails: seq<string> := [];
    var newEmails: seq<string> := [];
    for i := 0 to |messagesToFetch|
      invariant newEmails == FileNames(sha512, dir, snapshot, messagesToFetch[..i])
      invariant forall k :: (k in isNew && isNew[k]) <==> k in messagesToFetch[..i]
    {
      var seqNum := messagesToFetch[i];
      FileNamesConcat(sha512, dir, snapshot, messagesToFetch[..i], [seqNum]);
      newEmails := newEmails + [MessageFileName(sha512, dir, Lookup(snapshot, seqNum))];
      isNew := isNew[seqNum := true];
      assert messagesToFetch[..i + 1] == messagesToFetch[..i] + [seqNum];
    }
    assert messagesToFetch[..|messagesToFetch|] == messagesToFetch;
    existingKeys := [];
    var remaining := snapshot.Keys;
    while remaining != {}
      invariant remaining <= snapshot.Keys
      invariant existingEmails == FileNames(sha512, dir, snapshot, existingKeys)
      invariant Distinct(existingKeys)
      invariant forall k :: k in existingKeys <==> k in snapshot && k !in remaining && k !in messagesToFetch
      decreases remaining
    {
      var seqNum :| seqNum in remaining;
      var messageId := snapshot[seqNum];
      if !(seqNum in isNew && isNew[seqNum]) {
        FileNamesConcat(sha512, dir, snapshot, existingKeys, [seqNum]);
        DistinctAppend(existingKeys, seqNum);
        existingEmails := existingEmails + [MessageFileName(sha512, dir, messageId)];
        existingKeys := existingKeys + [seqNum];
      }
      remaining := remaining - {seqNum};
    }
    result := Result(existingEmails, newEmails);
    if Distinct(messagesToFetch) && (forall k :: k in messagesToFetch ==> k in snapshot) {
      PartitionLength(snapshot, messagesToFetch, existingKeys);
    }
  }

  /**
   * `Sync` from the listing on: `snapshot` is the folder's listing, `server`
   * answers the per-message fetches and `fs` is the disk. Returns the disk
   * afterwards, which keeps all writes even when an error is returned.
   * `messagesToFetch` and `existingKeys` (ghost) are the orders the two map
   * walks happened to take.
   */
  method Sync(sha512: Hash, dir: string, snapshot: Snapshot, server: Server, fs: FileSystem)
    returns (fs': FileSystem, r: Outcome<Result, SyncError>,
             ghost messagesToFetch: seq<SeqNum>, ghost existingKeys: seq<SeqNum>)
    // a stat error while selecting: fatal, before anything is written
    ensures !NoStatFailure(sha512, dir, snapshot, fs) ==>
      && fs' == fs && r.Err? && r.error.Fatal? && r.error.io.StatFailed?
      && r.error.io.path in FailingNames(sha512, dir, snapshot, fs)
    // otherwise the selection is exactly the missing numbers and the loop runs over it
    ensures NoStatFailure(sha512, dir, snapshot, fs) ==>
      var run := FetchFrom(sha512, dir, server, messagesToFetch, 0, fs);
      && Distinct(messagesToFetch)
      && (forall k :: k in messagesToFetch <==> k in Missing(sha512, dir, snapshot, fs))
      && |messagesToFetch| == |Missing(sha512, dir, snapshot, fs)|
      && fs' == run.fs
      && (run.Aborted? ==> r == Err(FetchFailed(run.seqNum, run.cause)))
      && (run.Completed? ==>
            && r == Ok(Result(FileNames(sha512, dir, snapshot, existingKeys),
                              FileNames(sha512, dir, snapshot, messagesToFetch)))
            && Distinct(existingKeys)
            && (forall k :: k in existingKeys <==> k in snapshot && k !in messagesToFetch))
    ensures r.Ok? ==> |r.value.newEmails| + |r.value.existingEmails| == |snapshot|
    ensures snapshot == map[] ==> fs' == fs && r == Ok(Result([], []))
  {
    var selection := GetMessagesToFetch(sha512, dir, snapshot, fs);
    if selection.Err? {
      return fs, Err(Fatal(selection.error)), [], [];
    }
    var toFetch := selection.value.messagesToFetch;
    var run := FetchAll(sha512, dir, server, toFetch, fs);
    if run.Aborted? {
      return run.fs, Err(FetchFailed(run.seqNum, run.cause)), toFetch, [];
    }
    var result;
    result, existingKeys := AssembleResult(sha512, dir, snapshot, toFetch);
    assert snapshot == map[] ==> toFetch == [] && existingKeys == [];
    return run.fs, Ok(result), toFetch, existingKeys;
  }

  /**
   * When the listing's Message-IDs are pairwise different and their
   * truncated digests do not collide, the names a run reports, existing and
   * new together, are pairwise different: no two results share a file.
   */
  lemma ResultNamesDistinct(sha512: Hash, dir: string, snapshot: Snapshot, a: seq<SeqNum>, b: seq<SeqNum>)
    requires Distinct(a) && Distinct(b)
    requires forall k :: k in a ==> k in snapshot && k !in b
    requires forall k :: k in b ==> k in snapshot
    requires forall k1, k2 :: k1 in snapshot && k2 in snapshot && k1 != k2 ==> snapshot[k1] != snapshot[k2]
    requires TruncationInjectiveOn(sha512, snapshot.Values)
    ensures Distinct(FileNames(sha512, dir, snapshot, a) + FileNames(sha512, dir, snapshot, b))
  {
    DistinctIdsDistinctFiles(sha512, dir, snapshot.Values);
    FileNamesConcat(sha512, dir, snapshot, a, b);
    var keys := a + b;
    var names := FileNames(sha512, dir, snapshot, keys);
    forall i, j | 0 <= i < j < |names| ensures names[i] != names[j] {
      assert keys[i] != keys[j] by {
        if i < |a| && j >= |a| {
          assert keys[i] in a && keys[j] in b;
        }
      }
      assert snapshot[keys[i]] in snapshot.Values && snapshot[keys[j]] in snapshot.Values;
    }
  }

  /** A disk that only grew never reports more missing files. */
  lemma MissingShrinks(sha512: Hash, dir: string, snapshot: Snapshot, fs: FileSystem, fs': FileSystem)
    requires Grows(fs, fs')
    ensures Missing(sha512, dir, snapshot, fs') <= Missing(sha512, dir, snapshot, fs)
  {
  }

  /**
   * Completeness: after a completed fetch loop over the missing numbers,
   * every Message-ID of the snapshot has its file on disk, provided the
   * server returned the listed ID for each number it was asked for.
   */
  lemma Completeness(sha512: Hash, dir: string, snapshot: Snapshot, server: Server, fs: FileSystem, toFetch: seq<SeqNum>)
    requires NoStatFailure(sha512, dir, snapshot, fs)
    requires forall k :: k in toFetch <==> k in Missing(sha512, dir, snapshot, fs)
    requires forall k :: k in toFetch ==> Serves(server, k, Lookup(snapshot, k))
    requires FetchFrom(sha512, dir, server, toFetch, 0, fs).Completed?
    ensures var fs' := FetchFrom(sha512, dir, server, toFetch, 0, fs).fs;
      forall k :: k in snapshot ==> MessageFileName(sha512, dir, snapshot[k]) in fs'.files
  {
    CompletedWritesServed(sha512, dir, server, snapshot, toFetch, 0, fs);
    var fs' := FetchFrom(sha512, dir, server, toFetch, 0, fs).fs;
    forall k | k in snapshot
      ensures MessageFileName(sha512, dir, snapshot[k]) in fs'.files
    {
      if k in Missing(sha512, dir, snapshot, fs) {
        var j :| 0 <= j < |toFetch| && toFetch[j] == k;
        assert Lookup(snapshot, toFetch[j]) == snapshot[k];
      }
    }
  }

  /**
   * Idempotence: on the disk a completed run leaves, a second selection over
   * the same snapshot finds no stat error and nothing missing.
   */
  lemma SecondRunSelectsNothing(sha512: Hash, dir: string, snapshot: Snapshot, server: Server, fs: FileSystem, toFetch: seq<SeqNum>)
    requires NoStatFailure(sha512, dir, snapshot, fs)
    requires forall k :: k in toFetch <==> k in Missing(sha512, dir, snapshot, fs)
    requires forall k :: k in toFetch ==> Serves(server, k, Lookup(snapshot, k))
    requires FetchFrom(sha512, dir, server, toFetch, 0, fs).Completed?
    ensures var fs' := FetchFrom(sha512, dir, server, toFetch, 0, fs).fs;
      NoStatFailure(sha512, dir, snapshot, fs') && Missing(sha512, dir, snapshot, fs') == {}
  {
    Completeness(sha512, dir, snapshot, server, fs, toFetch);
  }

  /**
   * Partial-failure retention: when the loop aborts at position k, each
   * earlier number whose reply carried its listed Message-ID has its file on
   * disk, and a later selection on that disk will not pick it again.
   */
  lemma AbortRetainsEarlierFetches(sha512: Hash, dir: string, snapshot: Snapshot, server: Server, fs: FileSystem, toFetch: seq<SeqNum>)
    requires NoStatFailure(sha512, dir, snapshot, fs)
    requires FetchFrom(sha512, dir, server, toFetch, 0, fs).Aborted?
    ensures var run := FetchFrom(sha512, dir, server, toFetch, 0, fs);
      && Missing(sha512, dir, snapshot, run.fs) <= Missing(sha512, dir, snapshot, fs)
      && forall j :: 0 <= j < run.position && toFetch[j] in snapshot && Serves(server, toFetch[j], snapshot[toFetch[j]]) ==>
           && MessageFileName(sha512, dir, snapshot[toFetch[j]]) in run.fs.files
           && toFetch[j] !in Missing(sha512, dir, snapshot, run.fs)
  {
    var run := FetchFrom(sha512, dir, server, toFetch, 0, fs);
    AbortedKeepsPrefix(sha512, dir, server, toFetch, 0, fs);
    var prefix := toFetch[..run.position];
    var done := FetchFrom(sha512, dir, server, prefix, 0, fs);
    CompletedWritesServed(sha512, dir, server, snapshot, prefix, 0, fs);
    assert Grows(done.fs, run.fs);
    MissingShrinks(sha512, dir, snapshot, fs, run.fs);
    forall j | 0 <= j < run.position && toFetch[j] in snapshot && Serves(server, toFetch[j], snapshot[toFetch[j]])
      ensures MessageFileName(sha512, dir, snapshot[toFetch[j]]) in run.fs.files
    {
      assert prefix[j] == toFetch[j];
      assert Lookup(snapshot, prefix[j]) == snapshot[toFetch[j]];
    }
  }

  /**
   * Two runs against an unchanged mailbox: if the first succeeds and the
   * server returned the listed Message-IDs, the second writes nothing,
   * reports nothing new, and reports as existing exactly the names the first
   * run reported as new or existing, each as often.
   */
  method SyncTwice(sha512: Hash, dir: string, snapshot: Snapshot, server: Server, fs: FileSystem)
    returns (first: Outcome<Result, SyncError>, second: Outcome<Result, SyncError>, fs1: FileSystem, fs2: FileSystem)
    ensures first.Ok? && (forall k :: k in snapshot ==> Serves(server, k, snapshot[k])) ==>
      && fs2 == fs1
      && second.Ok?
      && second.value.newEmails == []
      && multiset(second.value.existingEmails)
           == multiset(first.value.newEmails) + multiset(first.value.existingEmails)
  {
    ghost var toFetch1, existing1, toFetch2, existing2;
    fs1, first, toFetch1, existing1 := Sync(sha512, dir, snapshot, server, fs);
    fs2, second, toFetch2, existing2 := Sync(sha512, dir, snapshot, server, fs1);
    if first.Ok? && (forall k :: k in snapshot ==> Serves(server, k, snapshot[k])) {
      assert NoStatFailure(sha512, dir, snapshot, fs);
      forall k | k in toFetch1 ensures Serves(server, k, Lookup(snapshot, k)) {
        assert k in Missing(sha512, dir, snapshot, fs);
      }
      SecondRunSelectsNothing(sha512, dir, snapshot, server, fs, toFetch1);
      assert NoStatFailure(sha512, dir, snapshot, fs1);
      assert Missing(sha512, dir, snapshot, fs1) == {};
      assert FetchFrom(sha512, dir, server, toFetch2, 0, fs1) == Completed(fs1);
      assert forall k :: k in existing2 <==> k in toFetch1 || k in existing1;
      SameKeys(toFetch1, existing1, existing2);
      PermutedNames(sha512, dir, snapshot, toFetch1 + existing1, existing2);
      FileNamesConcat(sha512, dir, snapshot, toFetch1, existing1);
    }
  }
}
