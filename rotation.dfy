/** The rotation policy of a rotating file handler, stated as functions on
    the files and the size counter: what `new`, `rotate` and `emit` leave
    behind, and the lemmas that say what that means for the live file and
    the backup chain. The handler class proves its methods against these. */
module Rotation {
  import opened Fs

  /** InvalidInput: the header is longer than the maximum file size.
      NotFound: the live file was missing when rotation renamed it away. */
  datatype Error = InvalidInput | NotFound

  datatype Result<T> = Ok(value: T) | Err(error: Error)

  /** What a handler is configured with; none of it changes after construction. */
  datatype Policy = Policy(maxBytes: nat, backupCount: nat, header: Option<seq<byte>>)

  /** The files, the size counter and the outcome after a rotate or an emit. */
  datatype Step = Step(files: Files, size: nat, result: Result<()>)

  /** The files and, on success, the initial size counter after construction. */
  datatype Opened = Opened(files: Files, size: Result<nat>)

  function HeaderBytes(header: Option<seq<byte>>): seq<byte>
  {
    match header
    case Some(h) => h
    case None => []
  }

  // ---------------------------------------------------------------------------
  // Shifting the backup chain

  /** One iteration of the shift loop: move backup i-1 to slot i if it exists. */
  function ShiftStep(files: Files, i: nat): (r: Files)
    requires i >= 1
    ensures Backup(i - 1) !in files ==> r == files
    ensures Backup(i - 1) in files ==>
      forall k :: Get(r, k) == (if k == Backup(i) then Some(files[Backup(i - 1)])
                                else if k == Backup(i - 1) then None
                                else Get(files, k))
  {
    match Renamed(files, Backup(i - 1), Backup(i))
    case Some(moved) => moved
    case None => files
  }

  /** The iterations i, i-1, ..., 1 of the shift loop, in that order. */
  function ShiftDown(files: Files, i: nat): (r: Files)
    ensures Get(r, Live) == Get(files, Live)
    ensures forall j: nat :: j > i ==> Get(r, Backup(j)) == Get(files, Backup(j))
    ensures i >= 1 ==> Backup(0) !in r
    decreases i
  {
    if i == 0 then files else ShiftDown(ShiftStep(files, i), i - 1)
  }

  /** The whole shift loop for a backup count: indices count-1 down to 1. */
  function Shifted(files: Files, count: nat): (r: Files)
    ensures Get(r, Live) == Get(files, Live)
    ensures forall j: nat :: j >= count ==> Get(r, Backup(j)) == Get(files, Backup(j))
    ensures count >= 2 ==> Backup(0) !in r
  {
    if count <= 1 then files else ShiftDown(files, count - 1)
  }

  /** What the shift leaves at each key, stated without the loop: inside the
      window every backup holds its predecessor's old contents; slot 0 is
      emptied; a slot whose predecessor was missing is empty, except the last
      one, which then keeps what it had; the live file and every slot at or
      beyond the window are untouched. */
  function ShiftedEntry(files: Files, count: nat, k: Key): Option<seq<byte>>
  {
    match k
    case Live => Get(files, Live)
    case Backup(j) =>
      if count <= 1 || count <= j then Get(files, k)
      else if j == 0 then None
      else if Backup(j - 1) in files then Some(files[Backup(j - 1)])
      else if j == count - 1 then Get(files, k)
      else None
  }

  /** Running iteration i first, then the iterations below it, is the same
      as running the iterations from i down. */
  lemma StepEntry(files: Files, i: nat, k: Key)
    requires i >= 1
    ensures ShiftedEntry(ShiftStep(files, i), i, k) == ShiftedEntry(files, i + 1, k)
  {
    var step := ShiftStep(files, i);
    assert forall k' :: (Get(step, k') ==
                           if Backup(i - 1) in files then
                             (if k' == Backup(i) then Get(files, Backup(i - 1))
                              else if k' == Backup(i - 1) then None
                              else Get(files, k'))
                           else Get(files, k'));
    match k
    case Live =>
    case Backup(j) =>
      if j > 0 && j < i {
        assert Get(step, Backup(j - 1)) == Get(files, Backup(j - 1));
      }
  }

  lemma {:induction false} ShiftDownEntry(files: Files, i: nat)
    ensures forall k :: Get(ShiftDown(files, i), k) == ShiftedEntry(files, i + 1, k)
    decreases i
  {
    if i > 0 {
      ShiftDownEntry(ShiftStep(files, i), i - 1);
      forall k
        ensures ShiftedEntry(ShiftStep(files, i), i, k) == ShiftedEntry(files, i + 1, k)
      {
        StepEntry(files, i, k);
      }
    }
  }

  /** The descending shift loop does exactly what ShiftedEntry says. */
  lemma ShiftedClosedForm(files: Files, count: nat)
    ensures forall k :: Get(Shifted(files, count), k) == ShiftedEntry(files, count, k)
  {
    if count > 1 {
      ShiftDownEntry(files, count - 1);
    }
  }

  // ---------------------------------------------------------------------------
  // Rotation, emission and construction

  /** `rotate`: shift the backups, rename the live file to slot 0 (unchecked),
      recreate the live file, write the header, reset the counter. */
  function Rotate(files: Files, size: nat, p: Policy): (r: Step)
    ensures r.result.Ok? <==> Live in files
    ensures r.result.Err? ==> r.result.error == NotFound && r.size == size
    ensures r.result.Ok? ==> r.size == 0 && Live in r.files
  {
    var shifted := Shifted(files, p.backupCount);
    match Renamed(shifted, Live, Backup(0))
    case None => Step(shifted, size, Err(NotFound))
    case Some(moved) =>
      var reopened := Created(moved, Live);
      var written := if p.header.Some? then Appended(reopened, Live, p.header.value) else reopened;
      Step(written, 0, Ok(()))
  }

  /** `emit`: rotate first when the bytes would push the counter past the
      maximum, then append them and count them. */
  function Emit(files: Files, size: nat, p: Policy, bytes: seq<byte>): (r: Step)
    ensures r.result.Err? ==>
      && size + |bytes| > p.maxBytes && Live !in files
      && r.result.error == NotFound && r.size == size
    ensures r.result.Ok? ==> r.size >= |bytes|
  {
    if size + |bytes| > p.maxBytes then
      var rotated := Rotate(files, size, p);
      if rotated.result.Err? then rotated
      else Step(Appended(rotated.files, Live, bytes), rotated.size + |bytes|, Ok(()))
    else
      Step(Appended(files, Live, bytes), size + |bytes|, Ok(()))
  }

  /** `new`: open or create the live file, reject an oversized header, append
      the header, and take the counter from the length on disk. */
  function Open(files: Files, p: Policy): (r: Opened)
    ensures Live in r.files
    ensures r.size.Err? ==> r.size.error == InvalidInput
    ensures r.size.Ok? ==> r.size.value == |r.files[Live]|
  {
    var created := Created(files, Live);
    match p.header
    case Some(h) =>
      if |h| > p.maxBytes then Opened(created, Err(InvalidInput))
      else
        var written := Appended(created, Live, h);
        Opened(written, Ok(|written[Live]|))
    case None => Opened(created, Ok(|created[Live]|))
  }

  // ---------------------------------------------------------------------------
  // Properties of rotation

  /** The live file is moved without checking that it exists: when it is
      missing, rotation fails after the shifts, which stay applied, and the
      counter keeps its value. */
  lemma RotateMissingLive(files: Files, size: nat, p: Policy)
    requires Live !in files
    ensures var r := Rotate(files, size, p);
      && r.result == Err(NotFound)
      && r.size == size
      && Live !in r.files
      && forall k :: Get(r.files, k) == ShiftedEntry(files, p.backupCount, k)
  {
    ShiftedClosedForm(files, p.backupCount);
    assert Get(Shifted(files, p.backupCount), Live) == None;
  }

  /** A rotation with the live file present succeeds: slot 0 receives the old
      live contents, the live file holds only the header, the counter is 0,
      and nothing at or beyond max(backup count, 1) is touched. */
  lemma RotateWithLive(files: Files, size: nat, p: Policy)
    requires Live in files
    ensures var r := Rotate(files, size, p);
      && r.result == Ok(())
      && r.size == 0
      && Get(r.files, Live) == Some(HeaderBytes(p.header))
      && Get(r.files, Backup(0)) == Some(files[Live])
      && forall j :: j >= p.backupCount && j >= 1 ==> Get(r.files, Backup(j)) == Get(files, Backup(j))
  {
    ShiftedClosedForm(files, p.backupCount);
    var shifted := Shifted(files, p.backupCount);
    assert Get(shifted, Live) == Some(files[Live]);
    var moved := Renamed(shifted, Live, Backup(0)).value;
    assert Get(moved, Live) == None;
    var reopened := Created(moved, Live);
    assert reopened[Live] == [];
    if p.header.Some? {
      var written := Appended(reopened, Live, p.header.value);
      assert Rotate(files, size, p).files == written;
      assert written[Live] == [] + p.header.value == p.header.value;
    }
  }

  /** Inside the window a successful rotation moves each backup up one slot:
      slot j gets the old slot j-1; a slot whose predecessor was missing is
      left empty, except the last, which then keeps its own contents. The old
      last backup is thereby overwritten whenever its predecessor existed. */
  lemma RotateShiftsChain(files: Files, size: nat, p: Policy)
    requires Live in files
    ensures var r := Rotate(files, size, p);
      && (forall j :: 1 <= j < p.backupCount && Backup(j - 1) in files ==>
            Get(r.files, Backup(j)) == Some(files[Backup(j - 1)]))
      && (forall j :: 1 <= j < p.backupCount - 1 && Backup(j - 1) !in files ==>
            Backup(j) !in r.files)
      && (p.backupCount >= 2 && Backup(p.backupCount - 2) !in files ==>
            Get(r.files, Backup(p.backupCount - 1)) == Get(files, Backup(p.backupCount - 1)))
  {
    RotatedBackups(files, size, p);
    ShiftedChain(files, p.backupCount, Rotate(files, size, p).files);
  }

  /** Any files that agree with the shift's closed form on every slot from 1
      up have the chain moved up one slot, as RotateShiftsChain states. */
  lemma ShiftedChain(files: Files, n: nat, after: Files)
    requires forall j: nat :: j >= 1 ==> Get(after, Backup(j)) == ShiftedEntry(files, n, Backup(j))
    ensures forall j :: 1 <= j < n && Backup(j - 1) in files ==>
              Get(after, Backup(j)) == Some(files[Backup(j - 1)])
    ensures forall j :: 1 <= j < n - 1 && Backup(j - 1) !in files ==> Backup(j) !in after
    ensures n >= 2 && Backup(n - 2) !in files ==> Get(after, Backup(n - 1)) == Get(files, Backup(n - 1))
  {
    if n >= 2 && Backup(n - 2) !in files {
      assert Get(after, Backup(n - 1)) == ShiftedEntry(files, n, Backup(n - 1));
    }
  }

  /** After a successful rotation every backup slot holds what the shift
      loop left there. */
  lemma RotatedBackups(files: Files, size: nat, p: Policy)
    requires Live in files
    ensures forall j: nat :: j >= 1 ==>
      Get(Rotate(files, size, p).files, Backup(j)) == ShiftedEntry(files, p.backupCount, Backup(j))
  {
    ShiftedClosedForm(files, p.backupCount);
    var shifted := Shifted(files, p.backupCount);
    assert Get(shifted, Live) == Some(files[Live]);
    var moved := Renamed(shifted, Live, Backup(0)).value;
    var reopened := Created(moved, Live);
    var r := Rotate(files, size, p);
    assert r.files == if p.header.Some? then Appended(reopened, Live, p.header.value) else reopened;
    forall j: nat | j >= 1
      ensures Get(r.files, Backup(j)) == Get(shifted, Backup(j))
    {
      assert Get(moved, Backup(j)) == Get(shifted, Backup(j));
      assert Get(reopened, Backup(j)) == Get(moved, Backup(j));
    }
  }

  /** The backups below a given index all exist: the chain has no gaps. */
  ghost predicate GapFree(files: Files)
  {
    forall j: nat :: 1 <= j && Backup(j) in files ==> Backup(j - 1) in files
  }

  /** A successful rotation keeps the chain free of gaps. */
  lemma RotateKeepsGapFree(files: Files, size: nat, p: Policy)
    requires Live in files && GapFree(files)
    ensures GapFree(Rotate(files, size, p).files)
  {
    RotateWithLive(files, size, p);
    RotatedBackups(files, size, p);
    var r := Rotate(files, size, p);
    forall j: nat | 1 <= j && Backup(j) in r.files
      ensures Backup(j - 1) in r.files
    {
      if j >= 2 {
        assert Get(r.files, Backup(j)) == ShiftedEntry(files, p.backupCount, Backup(j));
        assert Get(r.files, Backup(j - 1)) == ShiftedEntry(files, p.backupCount, Backup(j - 1));
        ShiftedHasPredecessor(files, p.backupCount, j);
      }
    }
  }

  /** In a shifted gap-free chain, an occupied slot j >= 2 has an occupied
      slot j-1. */
  lemma ShiftedHasPredecessor(files: Files, n: nat, j: nat)
    requires GapFree(files) && j >= 2
    requires ShiftedEntry(files, n, Backup(j)).Some?
    ensures ShiftedEntry(files, n, Backup(j - 1)).Some?
  {
    if n <= j {
      // slot j is untouched; slot j-1 is untouched or the last slot
      assert Backup(j) in files;
      assert Backup(j - 1) in files;
      assert n <= j - 1 || Backup(j - 2) in files;
    } else {
      // slot j took its predecessor's contents, or is the last slot and kept its own
      assert Backup(j - 1) in files;
      assert Backup(j - 2) in files;
    }
  }

  /** A rotation that fails on the missing live file can leave a gap: with two
      backups and only slot 0 present, slot 0 moves to slot 1 and nothing
      takes its place. */
  lemma FailedRotateLeavesGap()
    ensures var files := map[Backup(0) := [7 as byte]];
      && GapFree(files)
      && !GapFree(Rotate(files, 0, Policy(10, 2, None)).files)
  {
    var files := map[Backup(0) := [7 as byte]];
    var r := Rotate(files, 0, Policy(10, 2, None));
    RotateMissingLive(files, 0, Policy(10, 2, None));
    assert Get(r.files, Backup(1)) == Some([7 as byte]);
    assert Get(r.files, Backup(0)) == None;
  }

  // ---------------------------------------------------------------------------
  // Properties of emission

  /** Below or at the threshold (the comparison is strict) nothing rotates:
      every backup is unchanged, the bytes are appended to the live file and
      the counter grows by their length. */
  lemma EmitWithoutRotation(files: Files, size: nat, p: Policy, bytes: seq<byte>)
    requires size + |bytes| <= p.maxBytes
    ensures var r := Emit(files, size, p, bytes);
      && r.result == Ok(())
      && r.size == size + |bytes|
      && (forall j :: Get(r.files, Backup(j)) == Get(files, Backup(j)))
      && (Live in files ==> Get(r.files, Live) == Some(files[Live] + bytes))
  {
  }

  /** Past the threshold emit rotates once and then appends: slot 0 holds the
      old live file, the live file is the header followed by the bytes, and
      the counter is the length of the bytes alone. */
  lemma EmitWithRotation(files: Files, size: nat, p: Policy, bytes: seq<byte>)
    requires size + |bytes| > p.maxBytes
    requires Live in files
    ensures var r := Emit(files, size, p, bytes);
      && r.result == Ok(())
      && r.size == |bytes|
      && Get(r.files, Live) == Some(HeaderBytes(p.header) + bytes)
      && Get(r.files, Backup(0)) == Some(files[Live])
      && (forall j :: 1 <= j < p.backupCount && Backup(j - 1) in files ==>
            Get(r.files, Backup(j)) == Some(files[Backup(j - 1)]))
  {
    RotateWithLive(files, size, p);
    RotateShiftsChain(files, size, p);
  }

  /** Past the threshold with the live file missing, emit returns the
      rotation's error without appending: the shifts stay applied and the
      counter is unchanged. */
  lemma EmitMissingLive(files: Files, size: nat, p: Policy, bytes: seq<byte>)
    requires size + |bytes| > p.maxBytes
    requires Live !in files
    ensures var r := Emit(files, size, p, bytes);
      && r.result == Err(NotFound)
      && r.size == size
      && Live !in r.files
      && forall k :: Get(r.files, k) == ShiftedEntry(files, p.backupCount, k)
  {
    RotateMissingLive(files, size, p);
  }

  /** Emit fails exactly when it has to rotate and the live file is missing. */
  lemma EmitFailsOnlyWithoutLive(files: Files, size: nat, p: Policy, bytes: seq<byte>)
    ensures Emit(files, size, p, bytes).result.Err? <==>
            size + |bytes| > p.maxBytes && Live !in files
  {
    if size + |bytes| > p.maxBytes {
      if Live in files {
        RotateWithLive(files, size, p);
      } else {
        RotateMissingLive(files, size, p);
      }
    }
  }

  /** Every backup lies below max(backup count, 1). */
  ghost predicate WithinWindow(files: Files, count: nat)
  {
    forall j: nat :: Backup(j) in files ==> j < count || j == 0
  }

  /** Emit never touches a backup at or beyond max(backup count, 1), so it
      creates none there. */
  lemma EmitKeepsWindow(files: Files, size: nat, p: Policy, bytes: seq<byte>)
    ensures var r := Emit(files, size, p, bytes);
      && (forall j :: j >= p.backupCount && j >= 1 ==> Get(r.files, Backup(j)) == Get(files, Backup(j)))
      && (WithinWindow(files, p.backupCount) ==> WithinWindow(r.files, p.backupCount))
  {
    var r := Emit(files, size, p, bytes);
    if size + |bytes| > p.maxBytes {
      if Live in files {
        RotateWithLive(files, size, p);
      } else {
        RotateMissingLive(files, size, p);
      }
    }
    assert forall j :: j >= p.backupCount && j >= 1 ==> Get(r.files, Backup(j)) == Get(files, Backup(j));
  }

  /** Size accounting: if the live file is `slack` bytes longer than the
      counter, a successful emit keeps that difference when it does not
      rotate, and makes it the header's length when it does (the header
      rewritten by rotation is not counted). */
  lemma EmitSizeAccounting(files: Files, size: nat, p: Policy, bytes: seq<byte>, slack: nat)
    requires Live in files && |files[Live]| == size + slack
    ensures var r := Emit(files, size, p, bytes);
      && r.result == Ok(())
      && Live in r.files
      && |r.files[Live]| == r.size + (if size + |bytes| > p.maxBytes then |HeaderBytes(p.header)| else slack)
  {
    if size + |bytes| > p.maxBytes {
      EmitWithRotation(files, size, p, bytes);
    } else {
      EmitWithoutRotation(files, size, p, bytes);
    }
  }

  /** Without a header the counter is the live file's length after
      construction and after every emit. */
  lemma NoHeaderCounterIsLength(files: Files, p: Policy, bytes: seq<byte>)
    requires p.header == None
    ensures var o := Open(files, p);
      && o.size.Ok?
      && Live in o.files && |o.files[Live]| == o.size.value
      && var r := Emit(o.files, o.size.value, p, bytes);
         Live in r.files && |r.files[Live]| == r.size
  {
    var o := Open(files, p);
    EmitSizeAccounting(o.files, o.size.value, p, bytes, 0);
  }

  // ---------------------------------------------------------------------------
  // Properties of construction

  /** Construction fails with InvalidInput exactly when the header is longer
      than the maximum, and even then the live file has been opened or
      created; nothing else is touched. */
  lemma OpenRejectsLongHeader(files: Files, p: Policy)
    ensures var o := Open(files, p);
      && (o.size.Err? <==> p.header.Some? && |p.header.value| > p.maxBytes)
      && (o.size.Err? ==>
            && o.size.error == InvalidInput
            && Live in o.files
            && o.files[Live] == (if Live in files then files[Live] else [])
            && forall k :: k != Live ==> Get(o.files, k) == Get(files, k))
  {
  }

  /** A successful construction appends the header to whatever the live file
      held (so a pre-existing file gets it again) and starts the counter at
      the full length on disk; nothing else is touched. */
  lemma OpenAppendsHeader(files: Files, p: Policy)
    requires p.header.Some? ==> |p.header.value| <= p.maxBytes
    ensures var o := Open(files, p);
      && o.size.Ok?
      && Live in o.files
      && o.files[Live] == (if Live in files then files[Live] else []) + HeaderBytes(p.header)
      && o.size.value == |o.files[Live]|
      && forall k :: k != Live ==> Get(o.files, k) == Get(files, k)
  {
  }

  /** Reopening an existing file of N bytes without a header and emitting M
      bytes with N + M within the maximum rotates nothing and leaves N + M
      bytes. */
  lemma ReopenAccounting(files: Files, p: Policy, bytes: seq<byte>)
    requires p.header == None
    requires Live in files && |files[Live]| + |bytes| <= p.maxBytes
    ensures var o := Open(files, p);
      && o.size == Ok(|files[Live]|)
      && var r := Emit(o.files, o.size.value, p, bytes);
         && Get(r.files, Live) == Some(files[Live] + bytes)
         && forall j :: Get(r.files, Backup(j)) == Get(files, Backup(j))
  {
    var o := Open(files, p);
    EmitWithoutRotation(o.files, o.size.value, p, bytes);
  }
}
