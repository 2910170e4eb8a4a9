/** Clients of the handler that replay the repository's own test cases on a
    fresh, empty filesystem and state the exact contents they leave on disk.
    Everything they know about the handler comes from its method contracts
    and the lemmas of Rotation. */
module Scenarios {
  import opened Fs
  import opened Rotation
  import opened Handler

  /** Max 10 bytes, 3 backups, four 5-byte records (the test uses "12345",
      "67890", "abcde", "fghij"): the first two fill the live file exactly
      without rotating, the third rotates it into slot 0, the fourth fits. */
  method RotationOnMaxFileSize(a: seq<byte>, b: seq<byte>, c: seq<byte>, d: seq<byte>)
    returns (live: Option<seq<byte>>, first: Option<seq<byte>>, second: Option<seq<byte>>)
    requires |a| == |b| == |c| == |d| == 5
    ensures live == Some(c + d)
    ensures first == Some(a + b)
    ensures second == None
  {
    var fs := new FileSystem(map[]);
    var created := RotatingFileHandler.New(fs, 10, 3, None);
    OpenAppendsHeader(map[], Policy(10, 3, None));
    var h := created.value;

    EmitWithoutRotation(fs.files, h.currentSize, h.Config(), a);
    var r := h.Emit(a);
    assert [] + a == a;
    EmitWithoutRotation(fs.files, h.currentSize, h.Config(), b);
    r := h.Emit(b);
    assert Get(fs.files, Live) == Some(a + b);
    assert Backup(0) !in fs.files;

    EmitWithRotation(fs.files, h.currentSize, h.Config(), c);
    RotateShiftsChain(fs.files, h.currentSize, h.Config());
    r := h.Emit(c);
    assert HeaderBytes(None) + c == c;
    EmitWithoutRotation(fs.files, h.currentSize, h.Config(), d);
    r := h.Emit(d);

    live, first, second := Get(fs.files, Live), Get(fs.files, Backup(0)), Get(fs.files, Backup(1));
  }

  /** Max 10 bytes, 2 backups, four 10-byte records: every emit after the
      first rotates, the first record is evicted and no slot 2 appears. */
  method RotationOnMaxCount(a: seq<byte>, b: seq<byte>, c: seq<byte>, d: seq<byte>)
    returns (live: Option<seq<byte>>, first: Option<seq<byte>>, second: Option<seq<byte>>, third: Option<seq<byte>>)
    requires |a| == |b| == |c| == |d| == 10
    ensures live == Some(d)
    ensures first == Some(c)
    ensures second == Some(b)
    ensures third == None
  {
    var fs := new FileSystem(map[]);
    var created := RotatingFileHandler.New(fs, 10, 2, None);
    OpenAppendsHeader(map[], Policy(10, 2, None));
    var h := created.value;

    EmitWithoutRotation(fs.files, h.currentSize, h.Config(), a);
    var r := h.Emit(a);
    assert [] + a == a;
    assert Get(fs.files, Live) == Some(a) && WithinWindow(fs.files, 2);

    EmitWithRotation(fs.files, h.currentSize, h.Config(), b);
    EmitKeepsWindow(fs.files, h.currentSize, h.Config(), b);
    r := h.Emit(b);
    assert HeaderBytes(None) + b == b;
    assert Get(fs.files, Live) == Some(b) && Get(fs.files, Backup(0)) == Some(a);
    assert WithinWindow(fs.files, 2);

    EmitWithRotation(fs.files, h.currentSize, h.Config(), c);
    EmitKeepsWindow(fs.files, h.currentSize, h.Config(), c);
    r := h.Emit(c);
    assert HeaderBytes(None) + c == c;
    assert Get(fs.files, Live) == Some(c) && Get(fs.files, Backup(0)) == Some(b);
    assert WithinWindow(fs.files, 2);

    EmitWithRotation(fs.files, h.currentSize, h.Config(), d);
    EmitKeepsWindow(fs.files, h.currentSize, h.Config(), d);
    r := h.Emit(d);
    assert HeaderBytes(None) + d == d;
    assert WithinWindow(fs.files, 2);

    live, first, second, third := Get(fs.files, Live), Get(fs.files, Backup(0)), Get(fs.files, Backup(1)), Get(fs.files, Backup(2));
  }

  /** Max 50 bytes, 1 backup: two emits that fit together ("Hello, world!"
      and " More data." in the test) are simply concatenated. */
  method EmitConcatenates(a: seq<byte>, b: seq<byte>) returns (live: Option<seq<byte>>, first: Option<seq<byte>>)
    requires |a| + |b| <= 50
    ensures live == Some(a + b)
    ensures first == None
  {
    var fs := new FileSystem(map[]);
    var created := RotatingFileHandler.New(fs, 50, 1, None);
    OpenAppendsHeader(map[], Policy(50, 1, None));
    var h := created.value;

    EmitWithoutRotation(fs.files, h.currentSize, h.Config(), a);
    var r := h.Emit(a);
    assert [] + a == a;
    EmitWithoutRotation(fs.files, h.currentSize, h.Config(), b);
    r := h.Emit(b);

    live, first := Get(fs.files, Live), Get(fs.files, Backup(0));
  }

  /** The same two records written through the byte-sink interface leave the
      same file, and each write reports its whole buffer as written. */
  method WriteConcatenates(a: seq<byte>, b: seq<byte>)
    returns (live: Option<seq<byte>>, first: Option<seq<byte>>, wrote: Result<nat>, wroteAgain: Result<nat>)
    requires |a| + |b| <= 50
    ensures live == Some(a + b)
    ensures first == None
    ensures wrote == Ok(|a|) && wroteAgain == Ok(|b|)
  {
    var fs := new FileSystem(map[]);
    var created := RotatingFileHandler.New(fs, 50, 1, None);
    OpenAppendsHeader(map[], Policy(50, 1, None));
    var h := created.value;

    EmitWithoutRotation(fs.files, h.currentSize, h.Config(), a);
    wrote := h.Write(a);
    assert [] + a == a;
    EmitWithoutRotation(fs.files, h.currentSize, h.Config(), b);
    wroteAgain := h.Write(b);

    live, first := Get(fs.files, Live), Get(fs.files, Backup(0));
  }

  /** With a header: the first incarnation of the live file starts with it and
      counts it; after a rotation the new live file starts with it again, but
      the counter holds only what was emitted since. */
  method HeaderOnEveryIncarnation(hd: seq<byte>, a: seq<byte>)
    returns (live: Option<seq<byte>>, first: Option<seq<byte>>, size: nat)
    requires |hd| <= 10 && |hd| + |a| > 10
    ensures live == Some(hd + a)
    ensures first == Some(hd)
    ensures size == |a|
  {
    var fs := new FileSystem(map[]);
    var created := RotatingFileHandler.New(fs, 10, 3, Some(hd));
    OpenAppendsHeader(map[], Policy(10, 3, Some(hd)));
    var h := created.value;
    assert [] + hd == hd;
    assert h.currentSize == |hd|;

    EmitWithRotation(fs.files, h.currentSize, h.Config(), a);
    var r := h.Emit(a);

    live, first, size := Get(fs.files, Live), Get(fs.files, Backup(0)), h.currentSize;
  }

  /** A header longer than the maximum is rejected, but only after the live
      file was created: the filesystem is left with an empty live file. */
  method RejectedHeaderLeavesLiveFile(hd: seq<byte>) returns (r: Result<RotatingFileHandler>, after: Files)
    requires |hd| > 10
    ensures r == Err(InvalidInput)
    ensures after == map[Live := []]
  {
    var fs := new FileSystem(map[]);
    r := RotatingFileHandler.New(fs, 10, 3, Some(hd));
    OpenRejectsLongHeader(map[], Policy(10, 3, Some(hd)));
    after := fs.files;
  }

  /** If the live file is removed behind the handler's back, every emit that
      has to rotate fails with NotFound: the first after moving slot 0 to
      slot 1, and the next one again, with the counter left as it was. */
  method MissingLiveFileFails(a: seq<byte>, b: seq<byte>)
    returns (r1: Result<()>, r2: Result<()>, first: Option<seq<byte>>, second: Option<seq<byte>>, size: nat)
    requires |a| == 10 && |b| == 10
    ensures r1 == Err(NotFound) && r2 == Err(NotFound)
    ensures first == None && second == Some(a)
    ensures size == 10
  {
    var fs := new FileSystem(map[]);
    var created := RotatingFileHandler.New(fs, 10, 2, None);
    OpenAppendsHeader(map[], Policy(10, 2, None));
    var h := created.value;

    EmitWithoutRotation(fs.files, h.currentSize, h.Config(), a);
    var r := h.Emit(a);
    assert [] + a == a;
    EmitWithRotation(fs.files, h.currentSize, h.Config(), b);
    r := h.Emit(b);
    assert Get(fs.files, Backup(0)) == Some(a);

    fs.files := fs.files - {Live};
    EmitMissingLive(fs.files, h.currentSize, h.Config(), b);
    r1 := h.Emit(b);
    EmitMissingLive(fs.files, h.currentSize, h.Config(), b);
    r2 := h.Emit(b);

    first, second, size := Get(fs.files, Backup(0)), Get(fs.files, Backup(1)), h.currentSize;
  }
}
