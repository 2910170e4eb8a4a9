/** The rotating file handler itself: an object that owns the size counter
    and appends to the live file of a shared filesystem, rotating the backup
    chain when a write would push the live file past the maximum size.
    Each method is proved to leave exactly the state that the Rotation
    functions describe. */
module Handler {
  import opened Fs
  import opened Rotation

  class RotatingFileHandler {
    /** The filesystem holding the live file and its backups; the live
        handle always writes to its Live key. */
    const fs: FileSystem
    const maxBytes: nat
    const backupCount: nat
    const header: Option<seq<byte>>
    var currentSize: nat

    function Config(): Policy
    {
      Policy(maxBytes, backupCount, header)
    }

    constructor Init(fs: FileSystem, maxBytes: nat, backupCount: nat, header: Option<seq<byte>>, size: nat)
      ensures this.fs == fs && this.maxBytes == maxBytes && this.backupCount == backupCount
      ensures this.header == header && currentSize == size
    {
      this.fs := fs;
      this.maxBytes := maxBytes;
      this.backupCount := backupCount;
      this.header := header;
      currentSize := size;
    }

    /** `new`: opens (creating if needed) the live file before checking the
        header, so a rejected header still leaves the live file behind. */
    static method New(fs: FileSystem, maxBytes: nat, backupCount: nat, header: Option<seq<byte>>)
      returns (r: Result<RotatingFileHandler>)
      modifies fs
      ensures var o := Open(old(fs.files), Policy(maxBytes, backupCount, header));
        && fs.files == o.files
        && (r.Ok? <==> o.size.Ok?)
        && (r.Err? ==> r.error == o.size.error)
        && (r.Ok? ==> && fresh(r.value)
                      && r.value.fs == fs
                      && r.value.Config() == Policy(maxBytes, backupCount, header)
                      && r.value.currentSize == o.size.value)
    {
      fs.OpenAppend(Live);
      if header.Some? {
        if |header.value| > maxBytes {
          return Err(InvalidInput);
        }
        fs.WriteAll(Live, header.value);
      }
      var size := fs.Len(Live);
      var handler := new RotatingFileHandler.Init(fs, maxBytes, backupCount, header, size);
      r := Ok(handler);
    }

    /** `rotate`: the descending shift loop, the unchecked rename of the live
        file to slot 0, the fresh live file with its header, and the counter
        reset. A failure leaves the completed renames in place. */
    method Rotate() returns (r: Result<()>)
      modifies fs, this`currentSize
      ensures var s := Rotation.Rotate(old(fs.files), old(currentSize), Config());
        fs.files == s.files && currentSize == s.size && r == s.result
    {
      if backupCount >= 1 {
        ghost var start := fs.files;
        for i := backupCount downto 1
          invariant ShiftDown(fs.files, i - 1) == Shifted(start, backupCount)
          invariant currentSize == old(currentSize)
        {
          var present := fs.Exists(Backup(i - 1));
          if present {
            var moved := fs.Rename(Backup(i - 1), Backup(i));
          }
        }
      }
      var moved := fs.Rename(Live, Backup(0));
      if !moved {
        return Err(NotFound);
      }
      fs.OpenAppend(Live);
      if header.Some? {
        fs.WriteAll(Live, header.value);
      }
      currentSize := 0;
      r := Ok(());
    }

    /** `emit`: rotate at most once, and only when the counter plus the new
        bytes strictly exceeds the maximum; then append and count. */
    method Emit(bytes: seq<byte>) returns (r: Result<()>)
      modifies fs, this`currentSize
      ensures var s := Rotation.Emit(old(fs.files), old(currentSize), Config(), bytes);
        fs.files == s.files && currentSize == s.size && r == s.result
      ensures r.Err? <==> old(currentSize) + |bytes| > maxBytes && Live !in old(fs.files)
      ensures WithinWindow(old(fs.files), backupCount) ==> WithinWindow(fs.files, backupCount)
    {
      EmitFailsOnlyWithoutLive(fs.files, currentSize, Config(), bytes);
      EmitKeepsWindow(fs.files, currentSize, Config(), bytes);
      if currentSize + |bytes| > maxBytes {
        r := Rotate();
        if r.Err? {
          return;
        }
      }
      fs.WriteAll(Live, bytes);
      currentSize := currentSize + |bytes|;
      r := Ok(());
    }

    /** The byte-sink `write`: the same effect as `emit`, reporting the whole
        buffer as written on success. */
    method Write(buf: seq<byte>) returns (r: Result<nat>)
      modifies fs, this`currentSize
      ensures var s := Rotation.Emit(old(fs.files), old(currentSize), Config(), buf);
        && fs.files == s.files && currentSize == s.size
        && (r.Ok? <==> s.result.Ok?)
        && (r.Ok? ==> r.value == |buf|)
        && (r.Err? ==> r.error == s.result.error)
    {
      var emitted := Emit(buf);
      if emitted.Err? {
        return Err(emitted.error);
      }
      r := Ok(|buf|);
    }

    /** The byte-sink `flush`: the filesystem here has no buffers, so it
        always succeeds and changes nothing. */
    method Flush() returns (r: Result<()>)
      ensures r == Ok(())
    {
      r := Ok(());
    }
  }
}
