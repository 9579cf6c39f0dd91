/** The part of the file system a log reader sees. Files are numbered by inode in the order they
    are created; the writer appends to the newest one, and the log path names the newest one or,
    for a moment during a rotation, nothing. */
module FileSystem {
  import opened Framing

  /** No reader asks for more than this many bytes at once. */
  const MAX_BUFF_SIZE: nat := 1048576

  datatype FileSystem = FileSystem(files: seq<Bytes>, named: bool) {
    ghost predicate Valid() {
      named ==> files != []
    }
  }

  datatype Change =
    | Append(data: Bytes)    // the log writer writes
    | Rotate(visible: bool)  // a fresh file replaces the old one; the path may name it only later
    | Hide                   // the path names nothing
    | Show                   // the path names the newest file again

  function Apply(fs: FileSystem, c: Change): (r: FileSystem)
    ensures fs.Valid() ==> r.Valid()
  {
    match c
    case Append(data) =>
      if fs.files == [] then fs
      else fs.(files := fs.files[|fs.files| - 1 := fs.files[|fs.files| - 1] + data])
    case Rotate(visible) => FileSystem(fs.files + [[]], visible)
    case Hide => fs.(named := false)
    case Show => fs.(named := fs.files != [])
  }

  function ApplyAll(fs: FileSystem, cs: seq<Change>): (r: FileSystem)
    ensures fs.Valid() ==> r.Valid()
    decreases |cs|
  {
    if cs == [] then fs else ApplyAll(Apply(fs, cs[0]), cs[1..])
  }

  /** Nothing written is ever taken back, and only the newest file still grows. */
  ghost predicate Grows(fs: FileSystem, r: FileSystem) {
    && |fs.files| <= |r.files|
    && (forall i :: 0 <= i < |fs.files| ==>
          fs.files[i] <= r.files[i] && (i + 1 < |fs.files| ==> r.files[i] == fs.files[i]))
  }

  lemma {:induction false} ChangesGrow(fs: FileSystem, cs: seq<Change>)
    ensures Grows(fs, ApplyAll(fs, cs))
    decreases |cs|
  {
    if cs != [] {
      ChangesGrow(Apply(fs, cs[0]), cs[1..]);
    }
  }
}
