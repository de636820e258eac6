/** The resident driver and the mount command's side of it, step by step over one
    mutable state. */
module LoopDriver {
  import opened ByteStrings
  import opened LoopDevice

  /** An EFI_BLOCK_IO2_TOKEN; `signals` counts SignalEvent calls on its event. */
  class Token {
    const hasEvent: bool
    var status: Status
    var signals: nat

    constructor (hasEvent: bool)
      ensures this.hasEvent == hasEvent && signals == 0
    {
      this.hasEvent := hasEvent;
      status, signals := Success, 0;
    }
  }

  /** `LoopCompleteToken`: the event is signalled on success only. */
  method CompleteToken(token: Token?, status: Status)
    modifies token
    ensures token != null ==>
      token.status == status
      && token.signals == old(token.signals) + if !EfiError(status) && token.hasEvent then 1 else 0
  {
    if token == null {
      return;
    }
    token.status := status;
    if !EfiError(status) && token.hasEvent {
      token.signals := token.signals + 1;
    }
  }

  /** The bytes `tag` at offset `at`. */
  predicate Marked(content: Bytes, at: nat, tag: Bytes) { Slice(content, at, at + |tag|) == tag }

  const CD001: Bytes := [0x43, 0x44, 0x30, 0x30, 0x31]
  const BEA01: Bytes := [0x42, 0x45, 0x41, 0x30, 0x31]
  const NSR02: Bytes := [0x4E, 0x53, 0x52, 0x30, 0x32]
  const NSR03: Bytes := [0x4E, 0x53, 0x52, 0x30, 0x33]

  /** The descriptors the sniff looks for, by sector of the image. */
  predicate LooksIso(content: Bytes) { Marked(content, 16 * 2048 + 1, CD001) }

  predicate LooksUdf(content: Bytes) {
    || Marked(content, 16 * 2048 + 1, BEA01) || Marked(content, 17 * 2048 + 1, BEA01)
    || Marked(content, 18 * 2048 + 1, NSR02) || Marked(content, 18 * 2048 + 1, NSR03)
    || Marked(content, 19 * 2048 + 1, NSR02) || Marked(content, 19 * 2048 + 1, NSR03)
  }

  /** The characters of `text` from `at` on. */
  predicate TextAt(content: Bytes, at: nat, text: string) {
    at + |text| <= |content| && forall i :: 0 <= i < |text| ==> content[at + i] as int == text[i] as int
  }

  lemma MarkedText(content: Bytes, at: nat, tag: Bytes, text: string)
    requires |tag| == |text| == 5 && forall i :: 0 <= i < 5 ==> tag[i] as int == text[i] as int
    ensures Marked(content, at, tag) <==> TextAt(content, at, text)
  {
    if at + 5 <= |content| {
      var here := Slice(content, at, at + 5);
      assert here == content[at..at + 5];
      assert forall i :: 0 <= i < 5 ==> here[i] == content[at + i];
    }
  }

  /** An ISO 9660 image shows "CD001" in sector 16 behind its first byte; a UDF image
      shows "BEA01" there in sector 16 or 17, or "NSR02" or "NSR03" in sector 18 or 19. */
  lemma DescriptorsAre(content: Bytes)
    ensures LooksIso(content) <==> TextAt(content, 32769, "CD001")
    ensures LooksUdf(content) <==>
      || TextAt(content, 32769, "BEA01") || TextAt(content, 34817, "BEA01")
      || TextAt(content, 36865, "NSR02") || TextAt(content, 36865, "NSR03")
      || TextAt(content, 38913, "NSR02") || TextAt(content, 38913, "NSR03")
  {
    hide Marked, TextAt;
    MarkedText(content, 32769, CD001, "CD001");
    MarkedText(content, 32769, BEA01, "BEA01");
    MarkedText(content, 34817, BEA01, "BEA01");
    MarkedText(content, 36865, NSR02, "NSR02");
    MarkedText(content, 36865, NSR03, "NSR03");
    MarkedText(content, 38913, NSR02, "NSR02");
    MarkedText(content, 38913, NSR03, "NSR03");
  }

  lemma SniffParts(content: Bytes, buf: Bytes)
    requires |content| >= 22 * 2048 && buf == content[16 * 2048..22 * 2048]
    ensures buf[1..6] == content[16 * 2048 + 1..16 * 2048 + 6]
    ensures buf[2048 + 1..2048 + 6] == content[17 * 2048 + 1..17 * 2048 + 6]
    ensures buf[2 * 2048 + 1..2 * 2048 + 6] == content[18 * 2048 + 1..18 * 2048 + 6]
    ensures buf[3 * 2048 + 1..3 * 2048 + 6] == content[19 * 2048 + 1..19 * 2048 + 6]
  {
    SubSlice(buf, content, 16 * 2048, 22 * 2048, 1, 6);
    SubSlice(buf, content, 16 * 2048, 22 * 2048, 2048 + 1, 2048 + 6);
    SubSlice(buf, content, 16 * 2048, 22 * 2048, 2 * 2048 + 1, 2 * 2048 + 6);
    SubSlice(buf, content, 16 * 2048, 22 * 2048, 3 * 2048 + 1, 3 * 2048 + 6);
  }

  /** Comparing parts of the six sectors read finds the descriptors of the image. */
  lemma SniffReads(content: Bytes, buf: Bytes)
    requires |content| >= 22 * 2048 && buf == content[16 * 2048..22 * 2048]
    ensures buf[1..6] == CD001 <==> LooksIso(content)
    ensures buf[1..6] == BEA01 || buf[2048 + 1..2048 + 6] == BEA01
            || buf[2 * 2048 + 1..2 * 2048 + 6] == NSR02 || buf[2 * 2048 + 1..2 * 2048 + 6] == NSR03
            || buf[3 * 2048 + 1..3 * 2048 + 6] == NSR02 || buf[3 * 2048 + 1..3 * 2048 + 6] == NSR03
            <==> LooksUdf(content)
  {
    SniffParts(content, buf);
  }

  /** A create does the same whatever else is allocated, and keeps the open file. */
  lemma OneMoreBlock(w: World, f: nat, lastBlock: nat, env: CreateEnv)
    requires f in w.files
    ensures var (made, status) := FactoryCreate(w, f, lastBlock, env);
      && f in made.files
      && FactoryCreate(w.(pool := w.pool + 1), f, lastBlock, env) == (made.(pool := made.pool + 1), status)
  {}

  class Driver {
    var loopSeq: nat
    var disks: map<nat, Disk>
    var files: map<nat, File>
    var pool: nat
    ghost var total: nat
    ghost var serials: map<nat, nat>

    constructor ()
      ensures Now() == START
    {
      loopSeq, disks, files, pool := 0, map[], map[], 0;
      total, serials := 0, map[];
    }

    ghost function Now(): World
      reads this
    {
      World(loopSeq, total, serials, disks, files, pool)
    }

    // ---- EFI_FILE_PROTOCOL ----

    method SetPosition(f: nat, pos: nat, answer: Status) returns (status: Status)
      requires f in files
      modifies this`files
      ensures status == answer
      ensures files == old(files)[f := old(files)[f].(pos := if EfiError(answer) then old(files)[f].pos else pos)]
    {
      if !EfiError(answer) {
        files := files[f := files[f].(pos := pos)];
      }
      return answer;
    }

    /** Reads at the cursor and advances it; past the end of the file is a device error. */
    method ReadFile(f: nat, size: nat, answer: Status) returns (status: Status, data: Bytes)
      requires f in files
      modifies this`files
      ensures var was := old(files)[f];
        if EfiError(answer) then status == answer && data == [] && files == old(files)
        else if was.pos > |was.content| then status == DeviceError && data == [] && files == old(files)
        else
          && status == Success && data == BytesAt(was.content, was.pos, size)
          && files == old(files)[f := was.(pos := was.pos + |data|)]
    {
      if EfiError(answer) {
        return answer, [];
      }
      var was := files[f];
      if was.pos > |was.content| {
        return DeviceError, [];
      }
      data := BytesAt(was.content, was.pos, size);
      files := files[f := was.(pos := was.pos + |data|)];
      return Success, data;
    }

    /** `ShellCloseFile` */
    method CloseFile(f: nat)
      requires f in files
      modifies this`files
      ensures files == old(files)[f := old(files)[f].Shut()]
    {
      files := files[f := files[f].Shut()];
    }

    // ---- block reads ----

    /** `LoopReadBlocks` */
    method LoopReadBlocks(h: nat, q: Request, faults: Faults) returns (status: Status, data: Bytes)
      requires h in disks && disks[h].file in files && q.Fits64()
      modifies this`files
      ensures (Now(), status, data) == ReadBlocks(old(Now()), h, q, faults)
    {
      var disk := disks[h];
      var f := disk.file;
      assert files[f := files[f].(pos := files[f].pos)] == files;
      if q.mediaId != LOOP_MEDIA_ID || !q.buffer || q.size % LOOP_BLOCK_SIZE != 0 {
        return InvalidParameter, [];
      }
      if q.lba > disk.lastBlock || q.size / LOOP_BLOCK_SIZE > U64(U64(disk.lastBlock + 1) - q.lba) {
        return InvalidParameter, [];
      }
      status := SetPosition(f, U64(q.lba * LOOP_BLOCK_SIZE), faults.seek);
      if EfiError(status) {
        return status, [];
      }
      status, data := ReadFile(f, q.size, faults.read);
      assert files == old(files)[f := old(files)[f].(pos := files[f].pos)];
      if EfiError(status) {
        return status, [];
      }
      if |data| != q.size {
        return DeviceError, [];
      }
      return Success, data;
    }

    /** `LoopReadBlocksEx`: the same read, completed through the token. */
    method LoopReadBlocksEx(h: nat, q: Request, token: Token?, faults: Faults) returns (status: Status, data: Bytes)
      requires h in disks && disks[h].file in files && q.Fits64()
      modifies this`files, token
      ensures (Now(), status, data) == ReadBlocks(old(Now()), h, q, faults)
      ensures token != null ==>
        token.status == status
        && token.signals == old(token.signals) + if !EfiError(status) && token.hasEvent then 1 else 0
    {
      status, data := LoopReadBlocks(h, q, faults);
      CompleteToken(token, status);
    }

    // ---- the factory ----

    /** `LoopFactoryCreate` */
    method LoopFactoryCreate(file: Option<nat>, hasPath: bool, lastBlock: nat, wantsHandle: bool, env: CreateEnv)
      returns (status: Status, handle: Option<nat>)
      requires file.Some? ==> file.value in files
      requires env.handle !in disks && loopSeq < TWO32
      modifies this
      ensures var valid := file.Some? && hasPath && wantsHandle;
        if !valid then status == InvalidParameter && handle == None && Now() == old(Now())
        else
          && (Now(), status) == FactoryCreate(old(Now()), file.value, lastBlock, env)
          && handle == if status == Success then Some(env.handle) else None
    {
      if file.None? || !hasPath || !wantsHandle {
        return InvalidParameter, None;
      }
      handle := None;
      if !env.poolOk {
        return OutOfResources, None;
      }
      pool := pool + 1;
      loopSeq := (loopSeq + 1) % TWO32;
      total := total + 1;
      var disk := Disk(file.value, lastBlock, loopSeq, loopSeq % 256);
      if !env.pathOk {
        pool := pool - 1;
        return OutOfResources, None;
      }
      pool := pool + 1;
      if EfiError(env.install) {
        pool := pool - 1;
        pool := pool - 1;
        return env.install, None;
      }
      disks, serials := disks[env.handle := disk], serials[env.handle := total];
      files := files[file.value := files[file.value].Taken()];
      return Success, Some(env.handle);
    }

    /** `LoopFactoryDestroy` */
    method LoopFactoryDestroy(h: nat, wantsFile: bool, uninstall: Status)
      returns (status: Status, file: Option<nat>)
      requires pool >= 2 * |disks|
      modifies this
      ensures (Now(), status, file) == FactoryDestroy(old(Now()), h, wantsFile, uninstall)
    {
      if h !in disks {
        return NotFound, None;
      }
      if EfiError(uninstall) {
        return uninstall, None;
      }
      assert |disks| > 0;
      var f := disks[h].file;
      file := if wantsFile then Some(f) else None;
      if wantsFile && f in files {
        files := files[f := files[f].Returned()];
      }
      pool := pool - 1;
      pool := pool - 1;
      disks, serials := disks - {h}, serials - {h};
      return Success, file;
    }

    // ---- mount -ISO ----

    /** `LoopSniff`: a file too short to sniff shows neither format, and the cursor is
        back at 0 on every path. */
    method Sniff(f: nat, faults: Faults) returns (iso: bool, udf: bool)
      requires f in files
      modifies this`files
      ensures files == old(files)[f := old(files)[f].(pos := 0)]
      ensures var content := old(files)[f].content;
        var readable := !EfiError(faults.seek) && !EfiError(faults.read) && |content| >= 22 * 2048;
        iso == (readable && LooksIso(content)) && udf == (readable && LooksUdf(content))
    {
      hide LooksIso, LooksUdf;
      ghost var content := files[f].content;
      iso, udf := false, false;
      var status := SetPosition(f, 16 * 2048, faults.seek);
      var buf: Bytes := [];
      if !EfiError(status) {
        status, buf := ReadFile(f, 6 * 2048, faults.read);
      }
      var _ := SetPosition(f, 0, Success);
      if EfiError(status) || |buf| != 6 * 2048 {
        return;
      }
      assert buf == content[16 * 2048..22 * 2048];
      SniffReads(content, buf);
      iso := buf[1..6] == CD001;
      udf := buf[1..6] == BEA01 || buf[2048 + 1..2048 + 6] == BEA01
             || buf[2 * 2048 + 1..2 * 2048 + 6] == NSR02 || buf[2 * 2048 + 1..2 * 2048 + 6] == NSR03
             || buf[3 * 2048 + 1..3 * 2048 + 6] == NSR02 || buf[3 * 2048 + 1..3 * 2048 + 6] == NSR03;
    }

    /** `LoopCreate`: every temporary is freed on every path, and every failing path
        closes the file it opened. */
    method LoopCreateIso(env: LoopEnv, sniff: Faults)
      returns (status: Status, handle: Option<nat>, iso: bool, udf: bool)
      requires env.file !in files && env.create.handle !in disks && loopSeq < TWO32 && |env.content| < TWO64
      modifies this
      ensures (Now(), status) == LoopCreate(old(Now()), env)
      ensures handle == if status == Success then Some(env.create.handle) else None
    {
      hide FactoryCreate, LooksIso, LooksUdf;
      handle, iso, udf := None, false, false;
      if !env.openOk {
        return IsoError, None, false, false;
      }
      var f := env.file;
      files := files[f := Fresh(env.content)];
      assert files[f := files[f].Shut()] == old(files)[f := Fresh(env.content).Shut()];
      if !env.infoOk {
        CloseFile(f);
        return OutOfResources, None, false, false;
      }
      pool := pool + 1;
      if !env.statOk {
        pool := pool - 1;
        CloseFile(f);
        return IsoError, None, false, false;
      }
      var fileSize := |env.content|;
      pool := pool - 1;
      if fileSize < LOOP_MIN_SIZE {
        CloseFile(f);
        return IsoError, None, false, false;
      }
      iso, udf := Sniff(f, sniff);
      assert files == old(files)[f := Fresh(env.content)];
      assert files[f := files[f].Shut()] == old(files)[f := Fresh(env.content).Shut()];
      if !env.pathOk {
        CloseFile(f);
        return IsoError, None, iso, udf;
      }
      pool := pool + 1;
      status := env.factory;
      if status == Success {
        ghost var w := Now().(pool := pool - 1);
        OneMoreBlock(w, f, fileSize / LOOP_BLOCK_SIZE - 1, env.create);
        assert Now() == w.(pool := w.pool + 1);
        ghost var made := FactoryCreate(w, f, fileSize / LOOP_BLOCK_SIZE - 1, env.create).0;
        status, handle := LoopFactoryCreate(Some(f), true, fileSize / LOOP_BLOCK_SIZE - 1, true, env.create);
        assert Now() == made.(pool := made.pool + 1);
      }
      pool := pool - 1;
      if status != Success {
        CloseFile(f);
      }
    }
  }
}
