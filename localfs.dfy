/**
 * The local disk as a value: file contents by path, plus the two oracles the
 * model needs from the operating system, the paths whose `stat` fails with an
 * error other than "does not exist", and the paths whose write fails.
 */
module LocalFs {
  import opened Wrappers
  import opened Hex

  datatype FileSystem = FileSystem(
    files: map<string, seq<Byte>>,
    statFails: set<string>,
    writeFails: set<string>)

  datatype IoError = StatFailed(path: string) | WriteFailed(path: string)

  /** What `os.Stat` reports for a path. */
  datatype StatResult = Found | NotExist | OtherStatError

  function Stat(fs: FileSystem, path: string): StatResult {
    if path in fs.statFails then OtherStatError
    else if path in fs.files then Found
    else NotExist
  }

  /**
   * `fileExists`: present is (true, no error), "does not exist" is
   * (false, no error), and any other stat error is (true, that error).
   */
  function FileExists(fs: FileSystem, path: string): (r: (bool, Option<IoError>))
    ensures r.1.None? && r.0 <==> path in fs.files && path !in fs.statFails
    ensures r.1.None? && !r.0 <==> path !in fs.files && path !in fs.statFails
    ensures r.1.Some? <==> path in fs.statFails
    ensures r.1.Some? ==> r.0 && r.1.value == StatFailed(path)
  {
    match Stat(fs, path)
    case Found => (true, None)
    case NotExist => (false, None)
    case OtherStatError => (true, Some(StatFailed(path)))
  }

  /** `ioutil.WriteFile`: creates or truncates the file; nothing else on the disk changes. */
  function WriteFile(fs: FileSystem, path: string, body: seq<Byte>): (r: Outcome<FileSystem, IoError>)
    ensures r.Err? <==> path in fs.writeFails
    ensures r.Err? ==> r.error == WriteFailed(path)
    ensures r.Ok? ==>
      r.value.files == fs.files[path := body] &&
      r.value.statFails == fs.statFails && r.value.writeFails == fs.writeFails
  {
    if path in fs.writeFails then Err(WriteFailed(path))
    else Ok(fs.(files := fs.files[path := body]))
  }
}
