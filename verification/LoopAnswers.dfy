/** What each call of the loop driver answers and changes, path by path. */
module LoopAnswers {
  import opened ByteStrings
  import opened LoopDevice

  /** Success and the three STATUS_ values carry no EFI error bit; all others do. */
  lemma ErrorBits(s: Status)
    ensures EfiError(s) <==> s != Success && s != IsoError && s != DriverMissing && s != SecureBoot
  {}

  /** A create: out of resources before the counter, out of resources after it, the
      answer of the install, or success. */
  lemma CreateAnswers(w: World, f: nat, lastBlock: nat, env: CreateEnv)
    requires f in w.files && w.loopSeq < 0x1_0000_0000 && env.handle !in w.disks
    ensures var (made, status) := FactoryCreate(w, f, lastBlock, env);
      && (!env.poolOk ==> status == OutOfResources && made == w)
      && (env.poolOk ==>
            && made.total == w.total + 1
            && made.loopSeq == (if w.loopSeq == 0xFFFF_FFFF then 0 else w.loopSeq + 1)
            && (status != Success ==> made == w.(loopSeq := made.loopSeq, total := made.total)))
      && (env.poolOk && !env.pathOk ==> status == OutOfResources)
      && (env.poolOk && env.pathOk && EfiError(env.install) ==> status == env.install)
      && (env.poolOk && env.pathOk && !EfiError(env.install) ==>
            && status == Success
            && made.disks == w.disks[env.handle := Disk(f, lastBlock, made.loopSeq, made.loopSeq % 0x100)]
            && made.serials == w.serials[env.handle := made.total] && made.pool == w.pool + 2
            && made.files == w.files[f := w.files[f].(byCaller := false)])
  {}

  /** A destroy: not found, the answer of the uninstall, or success with the file handed
      over if it was asked for. */
  lemma DestroyAnswers(w: World, h: nat, wantsFile: bool, uninstall: Status)
    requires Sound(w)
    ensures var (after, status, file) := FactoryDestroy(w, h, wantsFile, uninstall);
      && (h !in w.disks ==> status == NotFound && file == None && after == w)
      && (h in w.disks && EfiError(uninstall) ==> status == uninstall && file == None && after == w)
      && (h in w.disks && !EfiError(uninstall) ==>
            && var f := w.disks[h].file;
            && status == Success && f in w.files && file == (if wantsFile then Some(f) else None)
            && after.files == w.files[f := w.files[f].(byCaller := wantsFile || w.files[f].byCaller)]
            && after.disks == w.disks - {h} && after.serials == w.serials - {h} && w.pool == after.pool + 2
            && after.loopSeq == w.loopSeq && after.total == w.total)
  {
    hide Numbered;
    if h in w.disks && !EfiError(uninstall) {
      OneFewer(w.disks, h);
      var f := w.disks[h].file;
      assert w.files[f := w.files[f]] == w.files;
    }
  }

  /** A mount answers for the first step that fails, in this order: opening, memory for the
      file's data, those data, the size, the path, the factory, and the create. */
  lemma MountAnswers(w: World, env: LoopEnv)
    requires env.file !in w.files && env.create.handle !in w.disks
    ensures var status, size := LoopCreate(w, env).1, |env.content|;
      && (!env.openOk ==> status == IsoError && LoopCreate(w, env).0 == w)
      && (env.openOk && !env.infoOk ==> status == OutOfResources)
      && (env.openOk && env.infoOk && (!env.statOk || size < 32768 || !env.pathOk) ==> status == IsoError)
      && (env.openOk && env.infoOk && env.statOk && size >= 32768 && env.pathOk ==>
            && (env.factory != Success ==> status == env.factory)
            && (env.factory == Success && !(env.create.poolOk && env.create.pathOk) ==> status == OutOfResources)
            && (env.factory == Success && env.create.poolOk && env.create.pathOk ==>
                  status == if EfiError(env.create.install) then env.create.install else Success))
  {}

  /** The new disk of a mount: the last whole block of the file, block 0 being the first. */
  lemma MountedDisk(w: World, env: LoopEnv)
    requires env.file !in w.files && env.create.handle !in w.disks && LoopCreate(w, env).1 == Success
    ensures var after := LoopCreate(w, env).0;
      && env.create.handle in after.disks
      && after.disks[env.create.handle].lastBlock == |env.content| / 2048 - 1 && |env.content| >= 32768
  {}

  /** A block read: an improper request is refused and leaves the cursor; failing calls
      answer for themselves; a file that ends too early is a device error with the cursor
      at the place sought or at the end; on success the bytes of the blocks. */
  lemma ReadAnswers(f: File, lastBlock: nat, q: Request, faults: Faults)
    requires q.Fits64() && lastBlock < 0x20_0000_0000_0000
    ensures var (pos, status, data) := ReadOutcome(f, lastBlock, q, faults);
      var at, n := 2048 * q.lba, |f.content|;
      var proper := q.mediaId == 0x4D4F554E && q.buffer && q.size % 2048 == 0 && q.lba <= lastBlock
        && q.lba + q.size / 2048 <= lastBlock + 1;
      && (!proper ==> (pos, status, data) == (f.pos, InvalidParameter, []))
      && (proper && EfiError(faults.seek) ==> (pos, status, data) == (f.pos, faults.seek, []))
      && (proper && !EfiError(faults.seek) ==>
            && (EfiError(faults.read) ==> (pos, status, data) == (at, faults.read, []))
            && (!EfiError(faults.read) ==>
                  && (at + q.size > n ==> (pos, status, data) == (Max(at, n), DeviceError, []))
                  && (at + q.size <= n ==> (pos, status, data) == (at + q.size, Success, f.content[at..at + q.size]))))
  {
    hide U64;
    AcceptedIsProper(q, lastBlock);
    SizeOfBlocks(q.size);
  }

  lemma SizeOfBlocks(size: nat)
    ensures size % 2048 == 0 ==> size == 2048 * (size / 2048)
  {}

  /** A read through a disk moves its file's cursor and changes nothing else. */
  lemma ReadChanges(w: World, h: nat, q: Request, faults: Faults)
    requires h in w.disks && w.disks[h].file in w.files
    ensures var f := w.disks[h].file;
      var (after, status, data) := ReadBlocks(w, h, q, faults);
      && (after.files[f].pos, status, data) == ReadOutcome(w.files[f], w.disks[h].lastBlock, q, faults)
      && after == w.(files := w.files[f := w.files[f].(pos := after.files[f].pos)])
  {
    hide ReadOutcome;
  }
}
