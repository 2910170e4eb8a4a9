/** An abstract filesystem: the live log file and its numbered backups,
    each holding a sequence of bytes. The handler only ever names these
    paths, so a path is a Key rather than a string. */
module Fs {

  newtype byte = b: int | 0 <= b < 256

  /** `Live` is the file at the base path, `Backup(i)` the file at
      "<base path>.<i>". */
  datatype Key = Live | Backup(index: nat)

  type Files = map<Key, seq<byte>>

  datatype Option<T> = None | Some(value: T)

  /** The contents of `k`, or None when no file is there. */
  function Get(files: Files, k: Key): Option<seq<byte>>
  {
    if k in files then Some(files[k]) else None
  }

  /** POSIX rename: fails when the source does not exist, otherwise removes
      the source and overwrites (or creates) the destination. */
  function Renamed(files: Files, src: Key, dst: Key): (r: Option<Files>)
    ensures r.Some? <==> src in files
    ensures r.Some? ==> forall k :: Get(r.value, k) ==
                          (if k == dst then Get(files, src) else if k == src then None else Get(files, k))
  {
    if src in files then Some(files - {src} + map[dst := files[src]]) else None
  }

  /** Opening in append/create mode: an absent file is created empty, an
      existing one keeps its contents. */
  function Created(files: Files, k: Key): (r: Files)
    ensures k in r && r[k] == (if k in files then files[k] else [])
    ensures forall k' :: k' != k ==> Get(r, k') == Get(files, k')
  {
    if k in files then files else files[k := []]
  }

  /** Appending through the handle opened on `k`. When the file at `k` is
      gone (removed behind the handler's back) the handle still refers to
      the unlinked file, so the bytes are written but nothing visible changes. */
  function Appended(files: Files, k: Key, bytes: seq<byte>): (r: Files)
    ensures k in files ==> k in r && r[k] == files[k] + bytes
    ensures k !in files ==> r == files
    ensures forall k' :: k' != k ==> Get(r, k') == Get(files, k')
  {
    if k in files then files[k := files[k] + bytes] else files
  }

  /** The host filesystem, shared between the handler and whoever else
      looks at the files. */
  class FileSystem {
    var files: Files

    constructor (initial: Files)
      ensures files == initial
    {
      files := initial;
    }

    method Exists(k: Key) returns (b: bool)
      ensures b <==> k in files
    {
      b := k in files;
    }

    method Rename(src: Key, dst: Key) returns (ok: bool)
      modifies this
      ensures ok <==> src in old(files)
      ensures files == (match Renamed(old(files), src, dst)
                        case Some(f) => f
                        case None => old(files))
    {
      match Renamed(files, src, dst)
      case Some(f) =>
        files := f;
        ok := true;
      case None =>
        ok := false;
    }

    method OpenAppend(k: Key)
      modifies this
      ensures files == Created(old(files), k)
    {
      files := Created(files, k);
    }

    method WriteAll(k: Key, bytes: seq<byte>)
      modifies this
      ensures files == Appended(old(files), k, bytes)
    {
      files := Appended(files, k, bytes);
    }

    method Len(k: Key) returns (n: nat)
      requires k in files
      ensures n == |files[k]|
    {
      n := |files[k]|;
    }
  }
}
