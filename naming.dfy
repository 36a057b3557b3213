/**
 * The one canonical mapping from a Message-ID to the path of its local
 * artifact: `<dir>/<hex of the first 31 digest bytes>.eml`. The existence
 * check and the write path both use `MessageFileName`.
 */
module Naming {
  import opened Wrappers
  import opened Hex

  /** A SHA-512 digest: 64 bytes. */
  type Digest = d: seq<Byte> | |d| == 64 witness seq(64, i => 0)

  /** The hash function, left uninterpreted: any function from strings to digests. */
  type Hash = string -> Digest

  /** Number of leading digest bytes kept in the file name. */
  const TruncatedLength: nat := 31

  const Extension: string := ".eml"

  const Separator: char := '/'

  /** Lowercase hex of the first `TruncatedLength` bytes of the hash of `messageId`. */
  function Sha512TruncatedHex(sha512: Hash, messageId: string): string {
    Encode(sha512(messageId)[..TruncatedLength])
  }

  /**
   * The truncated hex is 62 lowercase hex digits, and decoding them gives
   * back the first 31 bytes of the digest.
   */
  lemma TruncatedHexForm(sha512: Hash, messageId: string)
    ensures var hex := Sha512TruncatedHex(sha512, messageId);
      && |hex| == 2 * TruncatedLength == 62
      && (forall i :: 0 <= i < |hex| ==> IsLowerHexDigit(hex[i]))
      && Decode(hex) == Some(sha512(messageId)[..TruncatedLength])
  {
    DecodeEncode(sha512(messageId)[..TruncatedLength]);
  }

  /** What `Join` puts in front of a base name in `dir`. */
  function DirPrefix(dir: string): string {
    if dir == "" then "" else dir + [Separator]
  }

  /** Joining a directory and a base name with one separator; an empty directory adds nothing. */
  function Join(dir: string, name: string): string {
    DirPrefix(dir) + name
  }

  /**
   * Reading a path back: the truncated digest named by a file of `dir`, or
   * `None` when the path is not `<dir>/<hex>.eml`.
   */
  function DigestPrefixOf(dir: string, path: string): Option<seq<Byte>> {
    var p := DirPrefix(dir);
    if |path| >= |p| + |Extension| && path[..|p|] == p && path[|path| - |Extension|..] == Extension
    then Decode(path[|p|..|path| - |Extension|])
    else None
  }

  /** The target file name of the email with the given Message-ID. */
  function MessageFileName(sha512: Hash, dir: string, messageId: string): (path: string)
  {
    Join(dir, Sha512TruncatedHex(sha512, messageId) + Extension)
  }

  /**
   * The layout of a message's file name: the directory prefix, 62 hex
   * digits, the extension; reading the digits back gives the first 31 bytes
   * of the Message-ID's digest.
   */
  lemma FileNameLayout(sha512: Hash, dir: string, messageId: string)
    ensures var path := MessageFileName(sha512, dir, messageId);
      && |path| == |DirPrefix(dir)| + 62 + |Extension|
      && path[..|DirPrefix(dir)|] == DirPrefix(dir)
      && path[|path| - |Extension|..] == Extension
      && (forall i :: |DirPrefix(dir)| <= i < |path| - |Extension| ==> IsLowerHexDigit(path[i]))
      && DigestPrefixOf(dir, path) == Some(sha512(messageId)[..TruncatedLength])
  {
    var hex := Sha512TruncatedHex(sha512, messageId);
    var path := MessageFileName(sha512, dir, messageId);
    TruncatedHexForm(sha512, messageId);
    assert path[|DirPrefix(dir)|..|path| - |Extension|] == hex;
    assert forall i :: |DirPrefix(dir)| <= i < |path| - |Extension| ==> path[i] == hex[i - |DirPrefix(dir)|];
  }

  /**
   * Two Message-IDs share a file name exactly when their digests agree on the
   * first 31 bytes: the name is a function of the ID, and loses nothing of
   * the truncated digest.
   */
  lemma FileNameCollision(sha512: Hash, dir: string, a: string, b: string)
    ensures MessageFileName(sha512, dir, a) == MessageFileName(sha512, dir, b)
            <==> sha512(a)[..TruncatedLength] == sha512(b)[..TruncatedLength]
  {
    FileNameLayout(sha512, dir, a);
    FileNameLayout(sha512, dir, b);
  }

  /** Distinct members of `ids` hash to digests that differ within the first 31 bytes. */
  predicate TruncationInjectiveOn(sha512: Hash, ids: set<string>) {
    forall x, y :: x in ids && y in ids && x != y ==> sha512(x)[..TruncatedLength] != sha512(y)[..TruncatedLength]
  }

  /**
   * On a finite set of Message-IDs whose truncated digests do not collide,
   * distinct IDs get distinct files.
   */
  lemma DistinctIdsDistinctFiles(sha512: Hash, dir: string, ids: set<string>)
    requires TruncationInjectiveOn(sha512, ids)
    ensures forall a, b :: a in ids && b in ids && a != b ==>
      MessageFileName(sha512, dir, a) != MessageFileName(sha512, dir, b)
  {
    forall a, b | a in ids && b in ids && a != b
      ensures MessageFileName(sha512, dir, a) != MessageFileName(sha512, dir, b)
    {
      FileNameCollision(sha512, dir, a, b);
    }
  }
}
