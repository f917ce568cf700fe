/** An immutable snapshot of the filesystem the lookup reads, and the I/O
    errors reading it can raise. Paths are plain strings; `exists`,
    `is_dir`, `read_dir` and open/read/UTF-8 decoding are answered by the
    snapshot instead of the operating system. */
module Fs {

  type Path = string

  /** What can go wrong when a path that is probed is then read. */
  datatype Failure =
    | OpenFailed    // `File::open` returned an error
    | ReadFailed    // `read_to_end` returned an error
    | InvalidUtf8   // `str::from_utf8` rejected the bytes
    | ListFailed    // `fs::read_dir` returned an error
    | EntryFailed   // an entry yielded by `read_dir` was an error

  /** The text of a file, or the failure that reading it ends in. */
  datatype FileData = Text(text: string) | Unreadable(failure: Failure)

  /** One item yielded by `read_dir`: the file name of a child, or an error. */
  datatype DirEntry = Entry(name: string) | BadEntry(failure: Failure)

  /** The result of `read_dir`, entries in the order the system yields them. */
  datatype Listing = Listed(entries: seq<DirEntry>) | Unlistable(failure: Failure)

  datatype FileSystem = FileSystem(
    existing: set<Path>,
    directories: set<Path>,
    files: map<Path, FileData>,
    listings: map<Path, Listing>)
  {
    /** `Path::exists`. */
    predicate Exists(p: Path) {
      p in existing
    }

    /** `Path::is_dir`. */
    predicate IsDir(p: Path) {
      p in directories
    }

    /** `File::open`, `read_to_end` and `str::from_utf8` in a row. */
    function Read(p: Path): FileData {
      if p in files then files[p] else Unreadable(OpenFailed)
    }

    /** `fs::read_dir`. */
    function ReadDir(p: Path): Listing {
      if p in listings then listings[p] else Unlistable(ListFailed)
    }
  }

  /** `std::io::Error` as lib.rs raises it: a failure from the snapshot, or
      the final NotFound error with its message. */
  datatype Error = Io(failure: Failure) | NotFound(message: string)

  /** `std::io::Result`. */
  datatype Result<+T> = Ok(value: T) | Err(error: Error)
}
