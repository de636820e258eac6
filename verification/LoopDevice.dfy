/** The loop device factory: what a mount owns, what a read returns, and what every
    run of creates, destroys, reads and closes keeps (UEFI Specification 2.10,
    sections 13.9 and 13.10). */
module LoopDevice {
  import opened ByteStrings

  const LOOP_BLOCK_SIZE := 2048
  const LOOP_MEDIA_ID := 0x4D4F554E
  const LOOP_MIN_SIZE := 16 * 2048
  const TWO32: nat := 0x1_0000_0000
  const TWO53: nat := 0x20_0000_0000_0000
  const TWO64: nat := 0x1_0000_0000_0000_0000

  datatype Status =
    | Success
    | InvalidParameter
    | OutOfResources
    | NotFound
    | DeviceError
    | OtherError(code: nat)
    | IsoError         // this and the next two carry no EFI error bit
    | DriverMissing
    | SecureBoot

  predicate EfiError(s: Status) {
    s.InvalidParameter? || s.OutOfResources? || s.NotFound? || s.DeviceError? || s.OtherError?
  }

  /** What UINT64 arithmetic leaves of a value. */
  function U64(x: int): nat { x % TWO64 }

  // ---- the state ----

  /** An EFI_FILE_PROTOCOL instance: the file's bytes, the cursor, whether it is still
      open, and whether a caller has it in hand. The disks say which of them hold it. */
  datatype File = File(content: Bytes, pos: nat, isOpen: bool, byCaller: bool) {
    function Taken(): File { this.(byCaller := false) }

    function Returned(): File { this.(byCaller := true) }

    /** Closing is for good: nothing opens the instance again. */
    function Shut(): File { this.(isOpen := false, byCaller := false) }
  }

  /** A file just opened. */
  function Fresh(content: Bytes): File { File(content, 0, true, true) }

  /** A live loop disk. `loopSeq` is the number the driver stores, and `node` the byte
      in the device path. */
  datatype Disk = Disk(file: nat, lastBlock: nat, loopSeq: nat, node: nat)

  /** `loopSeq` is the driver's 32-bit counter, `total` the same count unwrapped,
      `serials` the unwrapped number of each live disk, and `pool` the number of live
      pool allocations. */
  datatype World = World(loopSeq: nat, total: nat, serials: map<nat, nat>, disks: map<nat, Disk>,
                         files: map<nat, File>, pool: nat)

  const START := World(0, 0, map[], map[], map[], 0)

  // ---- reading ----

  /** Whether the firmware's SetPosition and Read calls fail. */
  datatype Faults = Faults(seek: Status, read: Status)

  datatype Request = Request(mediaId: nat, lba: nat, size: nat, buffer: bool) {
    predicate Fits64() { lba < TWO64 && size < TWO64 }

    /** The checks made before the file is touched, in UINT64 arithmetic. */
    predicate Accepted(lastBlock: nat) {
      && mediaId == LOOP_MEDIA_ID && buffer && size % LOOP_BLOCK_SIZE == 0
      && lba <= lastBlock && size / LOOP_BLOCK_SIZE <= U64(U64(lastBlock + 1) - lba)
    }
  }

  /** EFI_FILE_PROTOCOL.Read at the cursor: nothing past the end of the file. */
  function BytesAt(content: Bytes, pos: nat, size: nat): Bytes {
    Slice(content, pos, pos + size)
  }

  /** `LoopReadBlocks`: the new cursor, the status, and the buffer on success. */
  function ReadOutcome(f: File, lastBlock: nat, q: Request, faults: Faults): (nat, Status, Bytes) {
    if !q.Accepted(lastBlock) then (f.pos, InvalidParameter, [])
    else if EfiError(faults.seek) then (f.pos, faults.seek, [])
    else
      var pos := U64(q.lba * LOOP_BLOCK_SIZE);
      if EfiError(faults.read) then (pos, faults.read, [])
      else if pos > |f.content| then (pos, DeviceError, [])
      else
        var data := BytesAt(f.content, pos, q.size);
        (pos + |data|, if |data| == q.size then Success else DeviceError, if |data| == q.size then data else [])
  }

  function ReadBlocks(w: World, h: nat, q: Request, faults: Faults): (World, Status, Bytes)
    requires h in w.disks && w.disks[h].file in w.files
  {
    var f := w.disks[h].file;
    var (pos, status, data) := ReadOutcome(w.files[f], w.disks[h].lastBlock, q, faults);
    (w.(files := w.files[f := w.files[f].(pos := pos)]), status, data)
  }

  // ---- creating and destroying ----

  /** What the firmware answers during a create: pool, device path, protocol install
      and the handle it makes. */
  datatype CreateEnv = CreateEnv(poolOk: bool, pathOk: bool, install: Status, handle: nat)

  /** `LoopFactoryCreate` for a valid file, path and handle pointer. */
  function FactoryCreate(w: World, f: nat, lastBlock: nat, env: CreateEnv): (World, Status)
    requires f in w.files
  {
    if !env.poolOk then (w, OutOfResources)
    else
      var counted := w.(loopSeq := (w.loopSeq + 1) % TWO32, total := w.total + 1);
      if !env.pathOk then (counted, OutOfResources)
      else if EfiError(env.install) then (counted, env.install)
      else
        var disk := Disk(f, lastBlock, counted.loopSeq, counted.loopSeq % 256);
        (counted.(serials := w.serials[env.handle := counted.total], disks := w.disks[env.handle := disk],
                  files := w.files[f := w.files[f].Taken()], pool := w.pool + 2), Success)
  }

  /** `LoopFactoryDestroy`: the file handed back, if the caller asked for it. */
  function FactoryDestroy(w: World, h: nat, wantsFile: bool, uninstall: Status): (World, Status, Option<nat>) {
    if h !in w.disks then (w, NotFound, None)
    else if EfiError(uninstall) then (w, uninstall, None)
    else
      var f := w.disks[h].file;
      var files := if wantsFile && f in w.files then w.files[f := w.files[f].Returned()] else w.files;
      (w.(serials := w.serials - {h}, disks := w.disks - {h}, files := files,
          pool := if w.pool >= 2 then w.pool - 2 else 0), Success,
       if wantsFile then Some(f) else None)
  }

  /** What the firmware and the Shell answer while `mount -ISO` sets up one loop
      device over the file it opens as `file`. */
  datatype LoopEnv = LoopEnv(openOk: bool, file: nat, content: Bytes, infoOk: bool, statOk: bool, pathOk: bool,
                             factory: Status, create: CreateEnv)

  /** `LoopCreate` */
  function LoopCreate(w: World, env: LoopEnv): (World, Status) {
    if !env.openOk then (w, IsoError)
    else
      var started := w.(files := w.files[env.file := Fresh(env.content)]);
      var closed := w.(files := w.files[env.file := Fresh(env.content).Shut()]);
      if !env.infoOk then (closed, OutOfResources)
      else if !env.statOk || |env.content| < LOOP_MIN_SIZE || !env.pathOk then (closed, IsoError)
      else if env.factory != Success then (closed, env.factory)
      else
        var (made, status) := FactoryCreate(started, env.file, |env.content| / LOOP_BLOCK_SIZE - 1, env.create);
        if status == Success then (made, Success)
        else (made.(files := made.files[env.file := made.files[env.file].Shut()]), status)
  }

  // ---- runs ----

  datatype Op =
    | Mount(env: LoopEnv)
    | Make(file: nat, lastBlock: nat, create: CreateEnv)
    | Unmake(handle: nat, wantsFile: bool, uninstall: Status)
    | Read(handle: nat, request: Request, faults: Faults)
    | Close(file: nat)
    | Rewrite(file: nat, content: Bytes)

  /** New files and handles are new, the rest is what exists, and nobody reads through
      a closed file or closes it again, which the firmware leaves undefined. */
  predicate Allowed(w: World, op: Op) {
    match op
    case Mount(env) => env.file !in w.files && env.create.handle !in w.disks
    case Make(f, lastBlock, env) => f in w.files && lastBlock < TWO64 && env.handle !in w.disks
    case Unmake(_, _, _) => true
    case Read(h, q, _) => h in w.disks && w.disks[h].file in w.files && w.files[w.disks[h].file].isOpen && q.Fits64()
    case Close(f) => f in w.files && w.files[f].isOpen
    case Rewrite(f, _) => f in w.files
  }

  ghost predicate HeldByDisk(disks: map<nat, Disk>, f: nat) { exists h :: h in disks && disks[h].file == f }

  /** The caller's part: only open files that no live disk holds are given to a disk, and
      no file of a live disk is closed. The driver does not check it. */
  ghost predicate Careful(w: World, op: Op)
    requires Allowed(w, op)
  {
    match op
    case Make(f, lastBlock, env) =>
      FactoryCreate(w, f, lastBlock, env).1 == Success ==> w.files[f].isOpen && !HeldByDisk(w.disks, f)
    case Close(f) => !HeldByDisk(w.disks, f)
    case _ => true
  }

  function Step(w: World, op: Op): World
    requires Allowed(w, op)
  {
    match op
    case Mount(env) => LoopCreate(w, env).0
    case Make(f, lastBlock, env) => FactoryCreate(w, f, lastBlock, env).0
    case Unmake(h, wantsFile, uninstall) => FactoryDestroy(w, h, wantsFile, uninstall).0
    case Read(h, q, faults) => ReadBlocks(w, h, q, faults).0
    case Close(f) => w.(files := w.files[f := w.files[f].Shut()])
    case Rewrite(f, content) => w.(files := w.files[f := w.files[f].(content := content)])
  }

  ghost predicate Runs(w: World, ops: seq<Op>)
    decreases |ops|
  {
    ops == [] || (Allowed(w, ops[0]) && Runs(Step(w, ops[0]), ops[1..]))
  }

  ghost function Run(w: World, ops: seq<Op>): World
    requires Runs(w, ops)
    decreases |ops|
  {
    if ops == [] then w else Run(Step(w, ops[0]), ops[1..])
  }

  /** The callers keep their part throughout. */
  ghost predicate CarefulRun(w: World, ops: seq<Op>)
    requires Runs(w, ops)
    decreases |ops|
  {
    ops == [] || (Careful(w, ops[0]) && CarefulRun(Step(w, ops[0]), ops[1..]))
  }

  /** What every run keeps: live serial numbers differ, a node is its serial number's
      low byte, and two pool blocks belong to each disk. */
  ghost predicate Sound(w: World) {
    && Sourced(w.disks, w.files) && Numbered(w.loopSeq, w.total, w.serials, w.disks)
    && w.pool == 2 * |w.disks|
  }

  ghost predicate Sourced(disks: map<nat, Disk>, files: map<nat, File>) {
    forall h :: h in disks ==> disks[h].file in files
  }

  /** What a careful run keeps as well: a disk's file is open, and held by that disk
      alone. */
  ghost predicate Inv(w: World) {
    && OneHolder(w.disks, w.files) && Numbered(w.loopSeq, w.total, w.serials, w.disks)
    && w.pool == 2 * |w.disks|
  }

  ghost predicate OneHolder(disks: map<nat, Disk>, files: map<nat, File>) {
    && (forall h :: h in disks ==>
          disks[h].file in files && files[disks[h].file].isOpen && !files[disks[h].file].byCaller)
    && (forall h, k :: h in disks && k in disks && h != k ==> disks[h].file != disks[k].file)
  }

  ghost predicate Numbered(loopSeq: nat, total: nat, serials: map<nat, nat>, disks: map<nat, Disk>) {
    && loopSeq == total % TWO32
    && serials.Keys == disks.Keys
    && (forall h :: h in disks ==> 1 <= serials[h] <= total && disks[h].node == serials[h] % 256)
    && (forall h, k :: h in disks && k in disks && h != k ==> serials[h] != serials[k])
  }

  lemma WrapNext(n: nat)
    ensures (n % 0x1_0000_0000 + 1) % 0x1_0000_0000 == (n + 1) % 0x1_0000_0000
  {}

  lemma WrapByte(n: nat)
    ensures n % 0x1_0000_0000 % 256 == n % 256
  {
    assert n == 256 * (0x100_0000 * (n / 0x1_0000_0000)) + n % 0x1_0000_0000;
  }

  lemma InvIsSound(w: World)
    requires Inv(w)
    ensures Sound(w)
  {
    hide Numbered;
  }

  lemma CreateSound(w: World, f: nat, lastBlock: nat, env: CreateEnv)
    requires Sound(w) && f in w.files && env.handle !in w.disks
    ensures Sound(FactoryCreate(w, f, lastBlock, env).0)
  {
    hide Numbered, Sourced, EfiError;
    NextNumber(w.loopSeq, w.total, w.serials, w.disks);
    if FactoryCreate(w, f, lastBlock, env).1 == Success {
      var loopSeq := (w.loopSeq + 1) % TWO32;
      AddSound(w, env.handle, Disk(f, lastBlock, loopSeq, loopSeq % 256));
    }
  }

  lemma AddSound(w: World, h: nat, disk: Disk)
    requires Sound(w) && disk.file in w.files && h !in w.disks && disk.node == (w.loopSeq + 1) % TWO32 % 256
    ensures Sound(World((w.loopSeq + 1) % TWO32, w.total + 1, w.serials[h := w.total + 1], w.disks[h := disk],
                        w.files[disk.file := w.files[disk.file].Taken()], w.pool + 2))
  {
    hide Numbered, Sourced;
    NextNumber(w.loopSeq, w.total, w.serials, w.disks);
    NewNumber((w.loopSeq + 1) % TWO32, w.total + 1, w.serials, w.disks, h, disk);
    OneMore(w.disks, h, disk);
    NewSource(w.disks, w.files, h, disk);
  }

  lemma OneMore(m: map<nat, Disk>, h: nat, disk: Disk)
    requires h !in m
    ensures |m[h := disk]| == |m| + 1
  {}

  lemma NewSource(disks: map<nat, Disk>, files: map<nat, File>, h: nat, disk: Disk)
    requires Sourced(disks, files) && disk.file in files
    ensures Sourced(disks[h := disk], files[disk.file := files[disk.file].Taken()])
  {}

  /** A create keeps each disk's file open and with one holder exactly unless it succeeds
      over a closed file or one that a live disk holds. The factory refuses neither. */
  lemma CreateKeepsIff(w: World, f: nat, lastBlock: nat, env: CreateEnv)
    requires Inv(w) && f in w.files && env.handle !in w.disks
    ensures var (made, status) := FactoryCreate(w, f, lastBlock, env);
      && (Inv(made) <==> status != Success || (w.files[f].isOpen && !HeldByDisk(w.disks, f)))
      && (status != Success ==> made.files == w.files && made.disks == w.disks && made.pool == w.pool)
  {
    hide Numbered, OneHolder, Sourced, HeldByDisk;
    InvIsSound(w);
    CreateSound(w, f, lastBlock, env);
    var loopSeq := (w.loopSeq + 1) % TWO32;
    NewHolderIff(w.disks, w.files, env.handle, Disk(f, lastBlock, loopSeq, loopSeq % 256));
  }

  lemma NextNumber(loopSeq: nat, total: nat, serials: map<nat, nat>, disks: map<nat, Disk>)
    requires Numbered(loopSeq, total, serials, disks)
    ensures Numbered((loopSeq + 1) % TWO32, total + 1, serials, disks)
    ensures forall h :: h in serials ==> serials[h] <= total
  {
    WrapNext(total);
  }

  lemma NewNumber(loopSeq: nat, total: nat, serials: map<nat, nat>, disks: map<nat, Disk>, h: nat, disk: Disk)
    requires Numbered(loopSeq, total, serials, disks) && total >= 1 && forall k :: k in serials ==> serials[k] < total
    requires h !in disks && disk.node == loopSeq % 256
    ensures Numbered(loopSeq, total, serials[h := total], disks[h := disk])
  {
    WrapByte(total);
  }

  lemma NewHolderIff(disks: map<nat, Disk>, files: map<nat, File>, h: nat, disk: Disk)
    requires OneHolder(disks, files) && h !in disks && disk.file in files
    ensures OneHolder(disks[h := disk], files[disk.file := files[disk.file].Taken()])
            <==> files[disk.file].isOpen && !HeldByDisk(disks, disk.file)
  {
    var after, given := disks[h := disk], files[disk.file := files[disk.file].Taken()];
    assert after[h] == disk && given[disk.file].isOpen == files[disk.file].isOpen;
    if HeldByDisk(disks, disk.file) {
      var other :| other in disks && disks[other].file == disk.file;
      assert other in after && after[other].file == disk.file;
    }
  }

  lemma DestroyKeeps(w: World, h: nat, wantsFile: bool, uninstall: Status)
    requires Inv(w)
    ensures Inv(FactoryDestroy(w, h, wantsFile, uninstall).0)
  {
    hide Numbered, OneHolder;
    if h in w.disks {
      GoneHolder(w.disks, w.files, h);
      GoneNumber(w.loopSeq, w.total, w.serials, w.disks, h);
      OneFewer(w.disks, h);
    }
  }

  lemma GoneHolder(disks: map<nat, Disk>, files: map<nat, File>, h: nat)
    requires OneHolder(disks, files) && h in disks
    ensures var f := disks[h].file;
      f in files && OneHolder(disks - {h}, files) && OneHolder(disks - {h}, files[f := files[f].Returned()])
  {}

  lemma GoneNumber(loopSeq: nat, total: nat, serials: map<nat, nat>, disks: map<nat, Disk>, h: nat)
    requires Numbered(loopSeq, total, serials, disks)
    ensures Numbered(loopSeq, total, serials - {h}, disks - {h})
  {}

  lemma OneFewer(m: map<nat, Disk>, h: nat)
    requires h in m
    ensures |m - {h}| == |m| - 1
  {
    assert m == (m - {h})[h := m[h]];
  }

  /** A file no disk holds may be opened, closed or replaced by another such file. */
  lemma FreeFileKeeps(w: World, f: nat, file: File)
    requires Inv(w) && !HeldByDisk(w.disks, f)
    ensures Inv(w.(files := w.files[f := file]))
  {
    hide Numbered;
  }

  lemma UnknownIsFree(w: World, f: nat)
    requires Inv(w) && f !in w.files
    ensures !HeldByDisk(w.disks, f)
  {}

  lemma MountKeeps(w: World, env: LoopEnv)
    requires Inv(w) && env.file !in w.files && env.create.handle !in w.disks
    ensures Inv(LoopCreate(w, env).0)
  {
    hide Inv, FactoryCreate;
    UnknownIsFree(w, env.file);
    FreeFileKeeps(w, env.file, Fresh(env.content));
    FreeFileKeeps(w, env.file, Fresh(env.content).Shut());
    var started := w.(files := w.files[env.file := Fresh(env.content)]);
    if |env.content| >= LOOP_MIN_SIZE {
      var lastBlock := |env.content| / LOOP_BLOCK_SIZE - 1;
      CreateKeepsIff(started, env.file, lastBlock, env.create);
      var (made, status) := FactoryCreate(started, env.file, lastBlock, env.create);
      if status != Success {
        FreeFileKeeps(made, env.file, made.files[env.file].Shut());
      }
    }
  }

  lemma SameHolderKeeps(w: World, f: nat, file: File)
    requires Inv(w) && f in w.files && file.isOpen == w.files[f].isOpen && file.byCaller == w.files[f].byCaller
    ensures Inv(w.(files := w.files[f := file]))
  {
    hide Numbered;
  }

  lemma CloseKeepsIff(w: World, f: nat)
    requires Inv(w) && f in w.files
    ensures Inv(w.(files := w.files[f := w.files[f].Shut()])) <==> !HeldByDisk(w.disks, f)
  {
    hide Numbered;
    if HeldByDisk(w.disks, f) {
      var h :| h in w.disks && w.disks[h].file == f;
      assert !w.files[f := w.files[f].Shut()][w.disks[h].file].isOpen;
    } else {
      FreeFileKeeps(w, f, w.files[f].Shut());
    }
  }

  /** A step keeps each disk's file open and with one holder exactly when the caller does
      its part. */
  lemma StepKeepsIff(w: World, op: Op)
    requires Inv(w) && Allowed(w, op)
    ensures Inv(Step(w, op)) <==> Careful(w, op)
  {
    hide Inv, LoopCreate, FactoryCreate, FactoryDestroy, ReadOutcome;
    match op
    case Mount(env) => MountKeeps(w, env);
    case Make(f, lastBlock, env) => CreateKeepsIff(w, f, lastBlock, env);
    case Unmake(h, wantsFile, uninstall) => DestroyKeeps(w, h, wantsFile, uninstall);
    case Read(h, q, faults) =>
      var f := w.disks[h].file;
      SameHolderKeeps(w, f, w.files[f].(pos := ReadOutcome(w.files[f], w.disks[h].lastBlock, q, faults).0));
    case Close(f) => CloseKeepsIff(w, f);
    case Rewrite(f, content) => SameHolderKeeps(w, f, w.files[f].(content := content));
  }

  /** Files may change hands and contents as they like, and numbering stays. */
  lemma FilesSound(w: World, files: map<nat, File>)
    requires Sound(w) && w.files.Keys <= files.Keys
    ensures Sound(w.(files := files))
  {
    hide Numbered;
  }

  lemma MountSound(w: World, env: LoopEnv)
    requires Sound(w) && env.file !in w.files && env.create.handle !in w.disks
    ensures Sound(LoopCreate(w, env).0)
  {
    hide Sound, FactoryCreate;
    var started := w.(files := w.files[env.file := Fresh(env.content)]);
    FilesSound(w, started.files);
    FilesSound(w, w.files[env.file := Fresh(env.content).Shut()]);
    if |env.content| >= LOOP_MIN_SIZE {
      var lastBlock := |env.content| / LOOP_BLOCK_SIZE - 1;
      CreateSound(started, env.file, lastBlock, env.create);
      FactoryOutcome(started, env.file, lastBlock, env.create);
      var made := FactoryCreate(started, env.file, lastBlock, env.create).0;
      FilesSound(made, made.files[env.file := made.files[env.file].Shut()]);
    }
  }

  lemma DestroySound(w: World, h: nat, wantsFile: bool, uninstall: Status)
    requires Sound(w)
    ensures Sound(FactoryDestroy(w, h, wantsFile, uninstall).0)
  {
    hide Numbered;
    if h in w.disks {
      GoneNumber(w.loopSeq, w.total, w.serials, w.disks, h);
      OneFewer(w.disks, h);
    }
  }

  lemma StepSound(w: World, op: Op)
    requires Sound(w) && Allowed(w, op)
    ensures Sound(Step(w, op))
  {
    hide Sound, LoopCreate, FactoryCreate, FactoryDestroy, ReadOutcome;
    match op
    case Mount(env) => MountSound(w, env);
    case Make(f, lastBlock, env) => CreateSound(w, f, lastBlock, env);
    case Unmake(h, wantsFile, uninstall) => DestroySound(w, h, wantsFile, uninstall);
    case Read(_, _, _) => FilesSound(w, Step(w, op).files);
    case Close(_) => FilesSound(w, Step(w, op).files);
    case Rewrite(_, _) => FilesSound(w, Step(w, op).files);
  }

  lemma {:induction false} RunSound(w: World, ops: seq<Op>)
    requires Sound(w) && Runs(w, ops)
    ensures Sound(Run(w, ops))
    decreases |ops|
  {
    hide Sound, Step, Allowed;
    if ops != [] {
      StepSound(w, ops[0]);
      RunSound(Step(w, ops[0]), ops[1..]);
    }
  }

  /** Every disk's file is open and its own after every careful run. */
  lemma {:induction false} RunKeeps(w: World, ops: seq<Op>)
    requires Inv(w) && Runs(w, ops) && CarefulRun(w, ops)
    ensures Inv(Run(w, ops))
    decreases |ops|
  {
    hide Inv, Step, Allowed, Careful;
    if ops != [] {
      StepKeepsIff(w, ops[0]);
      RunKeeps(Step(w, ops[0]), ops[1..]);
    }
  }

  /** From the start, numbering and the pool hold after every run; after every careful one
      each disk's file is also open and held by that disk alone. */
  lemma EveryRun(ops: seq<Op>)
    requires Runs(START, ops)
    ensures Sound(Run(START, ops)) && (CarefulRun(START, ops) ==> Inv(Run(START, ops)))
  {
    RunSound(START, ops);
    if CarefulRun(START, ops) { RunKeeps(START, ops); }
  }

  /** A careless run that nothing stops: a mount fails at the device path and closes its
      file, and a create puts a disk over the closed file. */
  lemma ClosedFileTaken() returns (ops: seq<Op>)
    ensures Runs(START, ops) && !CarefulRun(START, ops)
    ensures var w := Run(START, ops);
      3 in w.disks && w.disks[3].file == 7 && 7 in w.files && !w.files[7].isOpen && !Inv(w)
  {
    hide TryMount, LoopCreate, FactoryCreate, Sound, Inv, Numbered;
    var make := CreateEnv(true, true, Success, 3);
    var first, second := TryMount(7, 3, false), Make(7, 15, make);
    ops := [first, second];
    assert ops[1..] == [second] && [second][1..] == [];
    FailedMountCloses(7, 3);
    var closed := Step(START, first);
    FactoryOutcome(closed, 7, 15, make);
    assert Allowed(closed, second) && !Careful(closed, second);
    assert Run(START, ops) == Step(closed, second) by { OneStep(closed, second); }
    assert !Inv(Step(closed, second)) by { NotOpenNotInv(Step(closed, second), 3); }
  }

  lemma NotOpenNotInv(w: World, h: nat)
    requires h in w.disks && w.disks[h].file in w.files && !w.files[w.disks[h].file].isOpen
    ensures !Inv(w)
  {}

  lemma FailedMountCloses(file: nat, handle: nat)
    ensures Allowed(START, TryMount(file, handle, false))
    ensures var after := Step(START, TryMount(file, handle, false));
      after.disks == map[] && file in after.files && !after.files[file].isOpen
  {
    hide Zeros;
  }

  /** The factory puts a second disk over a file that a live one holds. */
  lemma SharedFile() returns (ops: seq<Op>)
    ensures Runs(START, ops) && !CarefulRun(START, ops)
    ensures var w := Run(START, ops);
      0 in w.disks && 1 in w.disks && w.disks[0].file == 0 == w.disks[1].file && 0 in w.files && w.files[0].isOpen
  {
    hide TryMount, LoopCreate, FactoryCreate, Sound, Inv, Numbered;
    var make := CreateEnv(true, true, Success, 1);
    var first, second := TryMount(0, 0, true), Make(0, 15, make);
    ops := [first, second];
    assert ops[1..] == [second] && [second][1..] == [];
    FirstMount();
    FirstOpen();
    FirstAllowed();
    var one := Step(START, first);
    OneStep(START, first);
    FactoryOutcome(one, 0, 15, make);
    assert one.disks[0].file == 0;
    assert Allowed(one, second) && !Careful(one, second);
    assert Run(START, ops) == Step(one, second) by { OneStep(one, second); }
  }

  lemma FirstOpen()
    ensures var after := Step(START, TryMount(0, 0, true)); 0 in after.files && after.files[0].isOpen
  {
    hide Zeros;
  }

  // ---- device nodes ----

  /** In any reachable state two disks carry the same device-path node exactly when
      their creations, failed ones counted, lie a multiple of 256 apart; so nodes
      are unique among any 256 consecutive ones. */
  lemma NodesCollideEvery256(ops: seq<Op>, h: nat, k: nat)
    requires Runs(START, ops) && h in Run(START, ops).disks && k in Run(START, ops).disks && h != k
    ensures var w := Run(START, ops);
      && h in w.serials && k in w.serials && w.serials[h] != w.serials[k]
      && var distance := w.serials[h] as int - w.serials[k] as int;
      && (w.disks[h].node == w.disks[k].node <==> distance % 256 == 0)
      && (-256 < distance < 256 ==> w.disks[h].node != w.disks[k].node)
  {
    hide Runs, Run, CarefulRun, Inv;
    EveryRun(ops);
    SameLowByte(Run(START, ops).serials[h], Run(START, ops).serials[k]);
  }

  /** A mount that fails at the device path, and one that succeeds. */
  function TryMount(file: nat, handle: nat, works: bool): Op {
    Mount(LoopEnv(true, file, Zeros(LOOP_MIN_SIZE), true, true, true, Success,
                  CreateEnv(true, works, Success, handle)))
  }

  /** `n` failing mounts over the files from `file` on. */
  function Failures(file: nat, n: nat): (r: seq<Op>)
    ensures |r| == n
    decreases n
  {
    if n == 0 then [] else [TryMount(file, 1, false)] + Failures(file + 1, n - 1)
  }

  lemma TryMountSteps(w: World, file: nat, handle: nat, works: bool)
    requires file !in w.files && handle !in w.disks
    ensures var after, seqNo := Step(w, TryMount(file, handle, works)), (w.loopSeq + 1) % TWO32;
      && after.loopSeq == seqNo && after.files.Keys == w.files.Keys + {file}
      && after.disks == if works then w.disks[handle := Disk(file, 15, seqNo, seqNo % 256)] else w.disks
  {
    hide Zeros;
  }

  lemma RunAppend(w: World, xs: seq<Op>, ys: seq<Op>)
    requires Runs(w, xs) && Runs(Run(w, xs), ys)
    ensures Runs(w, xs + ys) && Run(w, xs + ys) == Run(Run(w, xs), ys)
    decreases |xs|
  {
    if xs == [] {
      assert xs + ys == ys;
    } else {
      assert (xs + ys)[1..] == xs[1..] + ys && (xs + ys)[0] == xs[0];
      RunAppend(Step(w, xs[0]), xs[1..], ys);
    }
  }

  lemma {:induction false} FailuresCount(w: World, file: nat, n: nat)
    requires 1 !in w.disks && w.loopSeq + n < TWO32 && forall f :: f in w.files ==> f < file
    ensures Runs(w, Failures(file, n))
    ensures var after := Run(w, Failures(file, n));
      after.disks == w.disks && after.loopSeq == w.loopSeq + n && forall f :: f in after.files ==> f < file + n
    decreases n
  {
    hide TryMount, Step;
    if n > 0 {
      FailureAllowed(w, file);
      TryMountSteps(w, file, 1, false);
      FailuresCount(Step(w, TryMount(file, 1, false)), file + 1, n - 1);
      assert Failures(file, n)[1..] == Failures(file + 1, n - 1);
    }
  }

  lemma FailureAllowed(w: World, file: nat)
    requires file !in w.files && 1 !in w.disks
    ensures Allowed(w, TryMount(file, 1, false)) && Allowed(w, TryMount(file, 1, true))
  {}

  lemma FirstMount()
    ensures Runs(START, [TryMount(0, 0, true)])
    ensures var one := Run(START, [TryMount(0, 0, true)]);
      one.loopSeq == 1 && one.disks == map[0 := Disk(0, 15, 1, 1)] && one.files.Keys == {0}
  {
    hide TryMount, Step, Allowed, Run, Runs;
    FirstAllowed();
    TryMountSteps(START, 0, 0, true);
    OneStep(START, TryMount(0, 0, true));
  }

  lemma LastMount(w: World, file: nat)
    requires file !in w.files && 1 !in w.disks && 0 in w.disks
    ensures Runs(w, [TryMount(file, 1, true)])
    ensures var after, seqNo := Run(w, [TryMount(file, 1, true)]), (w.loopSeq + 1) % TWO32;
      after.disks == w.disks[1 := Disk(file, 15, seqNo, seqNo % 256)]
  {
    hide TryMount, Step, Allowed, Run, Runs;
    FailureAllowed(w, file);
    TryMountSteps(w, file, 1, true);
    OneStep(w, TryMount(file, 1, true));
  }

  /** Nodes do not stay unique: after one mount, 255 that fail at the device path and
      one more mount, two live disks carry the same node. */
  lemma NodesRepeat() returns (ops: seq<Op>)
    ensures |ops| == 257 && Runs(START, ops)
    ensures var w := Run(START, ops); 0 in w.disks && 1 in w.disks && w.disks[0].node == 1 == w.disks[1].node
  {
    hide TryMount, Failures, Run, Runs;
    var first, failed, last := [TryMount(0, 0, true)], Failures(1, 255), [TryMount(256, 1, true)];
    ops := first + failed + last;
    FirstMount();
    FailuresCount(Run(START, first), 1, 255);
    RunAppend(START, first, failed);
    LastMount(Run(START, first + failed), 256);
    RunAppend(START, first + failed, last);
  }

  lemma FirstAllowed()
    ensures Allowed(START, TryMount(0, 0, true))
  {}

  lemma OneStep(w: World, op: Op)
    requires Allowed(w, op)
    ensures Runs(w, [op]) && Run(w, [op]) == Step(w, op)
  {
    hide Allowed, Step;
    assert [op][1..] == [];
  }

  lemma SameLowByte(a: nat, b: nat)
    ensures a % 256 == b % 256 <==> (a - b) % 256 == 0
    ensures -256 < a - b < 256 && a != b ==> a % 256 != b % 256
  {}

  // ---- mounting, and failing to ----

  /** A failed create leaves files, disks and pool alone; a successful one adds the
      disk and takes the file, its cursor and contents unchanged. */
  lemma FactoryOutcome(w: World, f: nat, lastBlock: nat, env: CreateEnv)
    requires f in w.files
    ensures var (made, status) := FactoryCreate(w, f, lastBlock, env);
      && (status == Success <==> env.poolOk && env.pathOk && !EfiError(env.install))
      && (status != Success ==> made.files == w.files && made.disks == w.disks && made.pool == w.pool)
      && (status == Success ==>
            && made.files == w.files[f := w.files[f].Taken()]
            && env.handle in made.disks && made.disks == w.disks[env.handle := made.disks[env.handle]]
            && made.disks[env.handle].file == f && made.disks[env.handle].lastBlock == lastBlock)
  {}

  /** Every call on the way succeeds, and the file has at least sixteen blocks. */
  predicate MountSucceeds(env: LoopEnv) {
    && env.openOk && env.infoOk && env.statOk && |env.content| >= 32768 && env.pathOk && env.factory == Success
    && env.create.poolOk && env.create.pathOk && !EfiError(env.create.install)
  }

  /** A mount succeeds exactly when nothing on the way fails. A failed one leaves the
      disks, the pool and every other file as they were, and the file it opened
      closed. A successful one leaves a new disk, owning the file, that exposes
      exactly the whole blocks of the file. */
  lemma MountOutcome(w: World, env: LoopEnv)
    requires env.file !in w.files && env.create.handle !in w.disks
    ensures var (after, status) := LoopCreate(w, env);
      && (status == Success <==> MountSucceeds(env))
      && (forall f :: f in w.files ==> f in after.files && after.files[f] == w.files[f])
      && (status != Success ==>
            && after.disks == w.disks && after.pool == w.pool
            && (env.file in after.files <==> env.openOk)
            && (env.openOk ==> !after.files[env.file].isOpen))
      && (status == Success ==>
            && var h := env.create.handle;
            && h in after.disks && after.disks == w.disks[h := after.disks[h]] && after.disks[h].file == env.file
            && after.files[env.file] == File(env.content, 0, true, false)
            && (after.disks[h].lastBlock + 1) * LOOP_BLOCK_SIZE <= |env.content|
            && |env.content| < (after.disks[h].lastBlock + 2) * LOOP_BLOCK_SIZE)
  {
    hide FactoryCreate;
    var started := w.(files := w.files[env.file := Fresh(env.content)]);
    if |env.content| >= LOOP_MIN_SIZE {
      FactoryOutcome(started, env.file, |env.content| / LOOP_BLOCK_SIZE - 1, env.create);
    }
  }

  /** The size check does not make room for the ISO 9660 descriptor at block 16: a
      mounted disk has that block exactly when the file has seventeen blocks. */
  lemma PvdFitsIff(w: World, env: LoopEnv)
    requires env.file !in w.files && env.create.handle !in w.disks && MountSucceeds(env)
    ensures LoopCreate(w, env).1 == Success && env.create.handle in LoopCreate(w, env).0.disks
    ensures 16 <= LoopCreate(w, env).0.disks[env.create.handle].lastBlock <==> |env.content| >= 17 * LOOP_BLOCK_SIZE
  {
    hide LoopCreate;
    MountOutcome(w, env);
  }

  /** The smallest file accepted has sixteen blocks, the last of them block 15. */
  lemma SmallestMount()
    ensures var env := LoopEnv(true, 0, Zeros(LOOP_MIN_SIZE), true, true, true, Success,
                               CreateEnv(true, true, Success, 0));
      var (after, status) := LoopCreate(START, env);
      status == Success && 0 in after.disks && after.disks[0].lastBlock == 15
  {}

  // ---- a disk keeps its file ----

  predicate Destroys(op: Op, h: nat) { op.Unmake? && op.handle == h }

  predicate Closes(op: Op, f: nat) { op.Close? && op.file == f }

  predicate Rewrites(op: Op, f: nat) { op.Rewrite? && op.file == f }

  lemma StepSpares(w: World, op: Op, h: nat)
    requires Sound(w) && Allowed(w, op) && h in w.disks && !Destroys(op, h)
    ensures var (f, after) := (w.disks[h].file, Step(w, op));
      && h in after.disks && after.disks[h] == w.disks[h] && f in after.files
      && (after.files[f].isOpen <==> w.files[f].isOpen && !Closes(op, f))
      && (!Rewrites(op, f) ==> after.files[f].content == w.files[f].content)
  {
    hide LoopCreate, FactoryCreate, ReadOutcome, Numbered;
    match op
    case Mount(env) => MountOutcome(w, env);
    case Make(f, lastBlock, env) => FactoryOutcome(w, f, lastBlock, env);
    case Unmake(_, _, _) =>
    case Read(_, _, _) =>
    case Close(_) =>
    case Rewrite(_, _) =>
  }

  /** Until it is destroyed a disk stays as it is. Its file is open exactly as long as
      nobody closes it, and has the same bytes unless somebody rewrites it. */
  lemma {:induction false} RunSpares(w: World, ops: seq<Op>, h: nat)
    requires Sound(w) && Runs(w, ops) && h in w.disks
    requires forall i :: 0 <= i < |ops| ==> !Destroys(ops[i], h)
    ensures var (f, after) := (w.disks[h].file, Run(w, ops));
      && h in after.disks && after.disks[h] == w.disks[h] && f in after.files
      && (after.files[f].isOpen <==> w.files[f].isOpen && forall i :: 0 <= i < |ops| ==> !Closes(ops[i], f))
      && ((forall i :: 0 <= i < |ops| ==> !Rewrites(ops[i], f)) ==> after.files[f].content == w.files[f].content)
    decreases |ops|
  {
    hide Step, Allowed, Numbered, Destroys, Closes, Rewrites;
    if ops != [] {
      var (f, rest) := (w.disks[h].file, ops[1..]);
      StepSpares(w, ops[0], h);
      StepSound(w, ops[0]);
      RunSpares(Step(w, ops[0]), rest, h);
      assert forall i :: 0 <= i < |rest| ==> rest[i] == ops[i + 1];
      assert (forall i :: 0 <= i < |ops| ==> !Closes(ops[i], f))
        <==> !Closes(ops[0], f) && forall i :: 0 <= i < |rest| ==> !Closes(rest[i], f) by
      {
        assert forall i :: 0 < i < |ops| ==> ops[i] == rest[i - 1];
      }
    }
  }

  /** However long a mount has lived, destroying it hands back exactly the file it
      was made over, to a caller who asks, open unless somebody closed it on the way;
      and after a careful run nobody else holds that file. */
  lemma {:induction false} DestroyReturnsFile(w: World, ops: seq<Op>, h: nat)
    requires Sound(w) && Runs(w, ops) && h in w.disks
    requires forall i :: 0 <= i < |ops| ==> !Destroys(ops[i], h)
    ensures var f := w.disks[h].file;
      var (after, status, file) := FactoryDestroy(Run(w, ops), h, true, Success);
      && status == Success && file == Some(f) && h !in after.disks
      && f in after.files && after.files[f].byCaller
      && (after.files[f].isOpen <==> w.files[f].isOpen && forall i :: 0 <= i < |ops| ==> !Closes(ops[i], f))
      && (Inv(w) && CarefulRun(w, ops) ==> !HeldByDisk(after.disks, f))
  {
    hide Numbered, Run, Runs, Closes, Destroys, CarefulRun;
    RunSpares(w, ops, h);
    if Inv(w) && CarefulRun(w, ops) { RunKeeps(w, ops); }
  }

  /** Every open file is in a caller's hand or held by a live disk. */
  ghost predicate NoneLost(w: World) {
    forall f :: f in w.files && w.files[f].isOpen ==> w.files[f].byCaller || HeldByDisk(w.disks, f)
  }

  predicate ClaimsFile(op: Op) { op.Unmake? ==> op.wantsFile }

  lemma MountLosesNone(w: World, env: LoopEnv)
    requires NoneLost(w) && env.file !in w.files && env.create.handle !in w.disks
    ensures NoneLost(LoopCreate(w, env).0)
  {
    hide LoopCreate;
    var (after, status) := LoopCreate(w, env);
    MountOutcome(w, env);
    if status == Success { assert after.disks[env.create.handle].file == env.file; }
    MountFiles(w, env);
    forall f | f in w.files && HeldByDisk(w.disks, f)
      ensures HeldByDisk(after.disks, f)
    {
      var h :| h in w.disks && w.disks[h].file == f;
      assert h in after.disks && after.disks[h] == w.disks[h];
    }
  }

  lemma MountFiles(w: World, env: LoopEnv)
    requires env.file !in w.files
    ensures LoopCreate(w, env).0.files.Keys <= w.files.Keys + {env.file}
  {}

  lemma CreateLosesNone(w: World, f: nat, lastBlock: nat, env: CreateEnv)
    requires NoneLost(w) && f in w.files && env.handle !in w.disks
    ensures NoneLost(FactoryCreate(w, f, lastBlock, env).0)
  {
    hide FactoryCreate;
    var (after, status) := FactoryCreate(w, f, lastBlock, env);
    FactoryOutcome(w, f, lastBlock, env);
    if status == Success { assert after.disks[env.handle].file == f; }
    forall g | HeldByDisk(w.disks, g)
      ensures HeldByDisk(after.disks, g)
    {
      var h :| h in w.disks && w.disks[h].file == g;
      assert h in after.disks && after.disks[h] == w.disks[h];
    }
  }

  lemma StepLosesNone(w: World, op: Op)
    requires Sound(w) && Allowed(w, op) && NoneLost(w) && ClaimsFile(op)
    ensures NoneLost(Step(w, op))
  {
    hide ReadOutcome, FactoryCreate, LoopCreate, FactoryDestroy, HeldByDisk, Sound;
    match op
    case Mount(env) => MountLosesNone(w, env);
    case Make(f, lastBlock, env) => CreateLosesNone(w, f, lastBlock, env);
    case Unmake(h, wantsFile, uninstall) => DestroyLosesIff(w, h, wantsFile, uninstall);
    case Read(_, _, _) =>
    case Close(_) =>
    case Rewrite(_, _) =>
  }

  lemma {:induction false} RunLosesNone(w: World, ops: seq<Op>)
    requires Sound(w) && NoneLost(w) && Runs(w, ops) && forall i :: 0 <= i < |ops| ==> ClaimsFile(ops[i])
    ensures NoneLost(Run(w, ops))
    decreases |ops|
  {
    hide NoneLost, Allowed, Step, ClaimsFile, Sound;
    if ops != [] {
      StepLosesNone(w, ops[0]);
      StepSound(w, ops[0]);
      RunLosesNone(Step(w, ops[0]), ops[1..]);
    }
  }

  /** A destroy loses a file exactly if it succeeds without asking for it, while the
      file is open, in no caller's hand and held by no other disk. */
  lemma DestroyLosesIff(w: World, h: nat, wantsFile: bool, uninstall: Status)
    requires Sound(w) && NoneLost(w)
    ensures NoneLost(FactoryDestroy(w, h, wantsFile, uninstall).0)
            <==> || wantsFile || h !in w.disks || EfiError(uninstall)
                 || !w.files[w.disks[h].file].isOpen || w.files[w.disks[h].file].byCaller
                 || HeldByDisk(w.disks - {h}, w.disks[h].file)
  {
    hide Numbered;
    var after := FactoryDestroy(w, h, wantsFile, uninstall).0;
    if h in w.disks && !EfiError(uninstall) {
      forall g | HeldByDisk(w.disks, g) && g != w.disks[h].file
        ensures HeldByDisk(after.disks, g)
      {
        var k :| k in w.disks && w.disks[k].file == g;
        assert k in after.disks && after.disks[k] == w.disks[k];
      }
      assert w.disks[h].file in after.files;
    }
  }

  // ---- what a read returns ----

  /** The 64-bit expressions of the bounds check and the seek are exact for every
      block of the disk exactly when the disk has at most 2^53 blocks. */
  lemma NoWrapIff(lastBlock: nat)
    requires lastBlock < TWO64
    ensures (forall lba: nat :: lba <= lastBlock ==>
               && U64(lba * LOOP_BLOCK_SIZE) == lba * LOOP_BLOCK_SIZE
               && U64(U64(lastBlock + 1) - lba) == lastBlock + 1 - lba)
            <==> lastBlock < TWO53
  {
    if lastBlock >= TWO53 {
      assert U64(TWO53 * LOOP_BLOCK_SIZE) != TWO53 * LOOP_BLOCK_SIZE;
    }
  }

  predicate InRange(q: Request, lastBlock: nat) {
    q.lba <= lastBlock && q.lba * 2048 + q.size <= (lastBlock + 1) * 2048
  }

  /** Whole blocks of this medium, inside the disk. */
  predicate Proper(q: Request, lastBlock: nat) {
    q.mediaId == 0x4D4F554E && q.buffer && q.size % 2048 == 0 && InRange(q, lastBlock)
  }

  /** A read succeeds exactly when it asks for whole blocks inside the disk, the
      firmware calls succeed and the file still reaches that far; it then returns
      the file's bytes at that place, whatever the cursor was. An improper request
      is refused without touching the cursor, and a shrunken file is a device error. */
  lemma ReadExact(f: File, lastBlock: nat, q: Request, faults: Faults)
    requires q.Fits64() && lastBlock < TWO53
    ensures var (pos, status, data) := ReadOutcome(f, lastBlock, q, faults);
      var at, firmwareOk := q.lba * LOOP_BLOCK_SIZE, !EfiError(faults.seek) && !EfiError(faults.read);
      && (status == Success <==> Proper(q, lastBlock) && firmwareOk && at + q.size <= |f.content|)
      && (!Proper(q, lastBlock) ==> status == InvalidParameter && pos == f.pos)
      && (Proper(q, lastBlock) && firmwareOk && at + q.size > |f.content| ==> status == DeviceError)
      && (status == Success ==> data == f.content[at..at + q.size] && pos == at + q.size)
  {
    hide Request.Accepted, U64;
    AcceptedIsProper(q, lastBlock);
  }

  /** Short of 2^53 blocks the driver's checks say exactly that the request is proper. */
  lemma AcceptedIsProper(q: Request, lastBlock: nat)
    requires q.Fits64() && lastBlock < TWO53
    ensures q.Accepted(lastBlock) <==> Proper(q, lastBlock)
    ensures q.lba <= lastBlock ==> U64(q.lba * LOOP_BLOCK_SIZE) == q.lba * LOOP_BLOCK_SIZE
  {
    if q.lba <= lastBlock {
      assert U64(U64(lastBlock + 1) - q.lba) == lastBlock + 1 - q.lba;
    }
  }

  /** Past 2^53 blocks the seek wraps: block 2^53 reads as block 0. */
  lemma HugeDiskWraps(f: File)
    requires |f.content| >= LOOP_BLOCK_SIZE
    ensures ReadOutcome(f, TWO53, Request(LOOP_MEDIA_ID, TWO53, LOOP_BLOCK_SIZE, true), Faults(Success, Success))
            == (LOOP_BLOCK_SIZE, Success, f.content[..LOOP_BLOCK_SIZE])
  {
    assert U64(TWO53 * LOOP_BLOCK_SIZE) == 0;
  }

  lemma ProperSplits(lastBlock: nat, lba: nat, n: nat, m: nat)
    requires n % LOOP_BLOCK_SIZE == 0 && m % LOOP_BLOCK_SIZE == 0 && lba + n / LOOP_BLOCK_SIZE <= lastBlock
    ensures var mid := lba + n / LOOP_BLOCK_SIZE;
      && mid * LOOP_BLOCK_SIZE == lba * LOOP_BLOCK_SIZE + n
      && Proper(Request(LOOP_MEDIA_ID, lba, n, true), lastBlock)
      && (Proper(Request(LOOP_MEDIA_ID, mid, m, true), lastBlock)
          <==> Proper(Request(LOOP_MEDIA_ID, lba, n + m, true), lastBlock))
  {}

  /** Two adjacent reads and one read of the whole return the same bytes. */
  lemma AdjacentReads(f: File, g: File, lastBlock: nat, lba: nat, n: nat, m: nat)
    requires f.content == g.content && lastBlock < TWO53 && lba < TWO64 && n + m < TWO64
    requires n % LOOP_BLOCK_SIZE == 0 && m % LOOP_BLOCK_SIZE == 0 && lba + n / LOOP_BLOCK_SIZE <= lastBlock
    ensures var ok := Faults(Success, Success);
      var one := ReadOutcome(f, lastBlock, Request(LOOP_MEDIA_ID, lba, n, true), ok);
      var two := ReadOutcome(g, lastBlock, Request(LOOP_MEDIA_ID, lba + n / LOOP_BLOCK_SIZE, m, true), ok);
      var both := ReadOutcome(f, lastBlock, Request(LOOP_MEDIA_ID, lba, n + m, true), ok);
      (both.1 == Success <==> one.1 == Success && two.1 == Success) && (both.1 == Success ==> both.2 == one.2 + two.2)
  {
    hide ReadOutcome, Proper;
    var ok := Faults(Success, Success);
    var mid := lba + n / LOOP_BLOCK_SIZE;
    ProperSplits(lastBlock, lba, n, m);
    ReadExact(f, lastBlock, Request(LOOP_MEDIA_ID, lba, n, true), ok);
    ReadExact(g, lastBlock, Request(LOOP_MEDIA_ID, mid, m, true), ok);
    ReadExact(f, lastBlock, Request(LOOP_MEDIA_ID, lba, n + m, true), ok);
    SliceJoin(f.content, lba * LOOP_BLOCK_SIZE, n, m);
  }

  lemma SliceJoin(content: Bytes, at: nat, n: nat, m: nat)
    ensures at + n + m <= |content| ==> content[at..at + n] + content[at + n..at + n + m] == content[at..at + n + m]
  {}

  /** From the mount on, through any run that neither destroys the disk nor closes or
      rewrites the file, whoever else shares the file and its cursor, every read of whole
      blocks of the image returns the image's bytes. */
  lemma MountedImageReads(w: World, env: LoopEnv, ops: seq<Op>, q: Request)
    requires Sound(w) && Allowed(w, Mount(env)) && |env.content| < TWO64 && LoopCreate(w, env).1 == Success
    requires Runs(LoopCreate(w, env).0, ops) && forall i :: 0 <= i < |ops| ==>
               !Destroys(ops[i], env.create.handle) && !Closes(ops[i], env.file) && !Rewrites(ops[i], env.file)
    requires Proper(q, |env.content| / LOOP_BLOCK_SIZE - 1)
    ensures var after := Run(LoopCreate(w, env).0, ops);
      && Allowed(after, Read(env.create.handle, q, Faults(Success, Success)))
      && var (_, status, data) := ReadBlocks(after, env.create.handle, q, Faults(Success, Success));
      status == Success && data == env.content[q.lba * LOOP_BLOCK_SIZE..q.lba * LOOP_BLOCK_SIZE + q.size]
  {
    hide Sound, Run, Runs, Destroys, Closes, Rewrites;
    var made := LoopCreate(w, env).0;
    var h := env.create.handle;
    MountOutcome(w, env);
    MountSound(w, env);
    RunSpares(made, ops, h);
    var after := Run(made, ops);
    ReadExact(after.files[env.file], after.disks[h].lastBlock, q, Faults(Success, Success));
  }
}
