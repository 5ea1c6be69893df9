/**
 * The emulated floppy (sidetnfs_floppy_emul.c): opening and validating an image, swapping it for a
 * validated candidate, and reading sectors, with a ledger of every backend handle.
 */
module Floppy {
  import opened Words

  const SECTOR: nat := 512

  datatype Status = Ok | InvalidSource | SourceNotConfigured | TnfsNotConnected | TnfsHostUnreachable | SdNotPresent
                  | FileNotFound | AccessDenied | PathTooLong | FilesizeInvalid | BpbInvalid | GeometryUnsupported
                  | GeometryMismatch | ReadFailed | OutOfRange | BackendError | NotOpen

  datatype Source = Tnfs(host: seq<byte>, port: word) | Sd | OtherBackend

  datatype Geometry = Geometry(sides: byte, sectorsPerTrack: byte, tracks: byte, bytesPerSector: word, totalSectors: dword)

  const NO_GEOMETRY := Geometry(0, 0, 0, 0, 0)

  datatype Handle = TnfsHandle(slot: int, handle: byte) | SdFile(id: nat)

  /** `floppy_emul_state_t`: backend, handle and `handle_open` are one optional handle. */
  datatype Disk = Disk(handle: Option<Handle>, ready: bool, geom: Geometry)

  const CLOSED := Disk(None, false, NO_GEOMETRY)

  datatype OpenFile = OpenFile(image: seq<byte>, pos: nat)

  // -- Geometry -------------------------------------------------------------------------------------

  /** The documented size equations. */
  ghost predicate Fits(g: Geometry, filesize: dword, bps: word, sec: word, spt: word, side: word) {
    && (g.sides == 1 || g.sides == 2) && 9 <= g.sectorsPerTrack <= 11 && 80 <= g.tracks <= 85
    && g.bytesPerSector == 512 == bps
    && g.sides == side && g.sectorsPerTrack == spt && g.totalSectors == sec
    && g.totalSectors == g.sides * g.sectorsPerTrack * g.tracks
    && filesize == 512 * g.totalSectors
  }

  /** `sidetnfs_floppy_emul_validate_geometry`. */
  function ValidateGeometry(filesize: dword, bps: word, sec: word, spt: word, side: word): (r: (Status, Geometry))
    ensures r.0 == Ok ==> Fits(r.1, filesize, bps, sec, spt, side)
    ensures r.0 != Ok ==> r.1 == NO_GEOMETRY
  {
    if filesize == 0 || filesize % SECTOR != 0 then (FilesizeInvalid, NO_GEOMETRY)
    else if bps != 512 then (BpbInvalid, NO_GEOMETRY)
    else if (side != 1 && side != 2) || spt < 9 || spt > 11 then (GeometryUnsupported, NO_GEOMETRY)
    else
      var total: int := filesize / SECTOR;
      var perTrack: int := side * spt;
      if total % perTrack != 0 then (GeometryMismatch, NO_GEOMETRY)
      else
        var tracks := total / perTrack;
        if tracks < 80 || tracks > 85 then (GeometryUnsupported, NO_GEOMETRY)
        else if sec != total then (GeometryMismatch, NO_GEOMETRY)
        else
          assert total == perTrack * tracks;
          (Ok, Geometry(side, spt, tracks, 512, total))
  }

  /** Every image that satisfies the equations is accepted. */
  lemma FittingImagesAreAccepted(g: Geometry, filesize: dword, bps: word, sec: word, spt: word, side: word)
    requires Fits(g, filesize, bps, sec, spt, side)
    ensures ValidateGeometry(filesize, bps, sec, spt, side) == (Ok, g)
  {
    var perTrack: int := side * spt;
    var tracks: int := g.tracks;
    assert filesize / SECTOR == g.totalSectors && filesize % SECTOR == 0;
    Divides(perTrack, tracks);
  }

  lemma Divides(a: int, b: int)
    requires a in {9, 10, 11, 18, 20, 22}
    ensures (a * b) % a == 0 && (a * b) / a == b
  {
    if a == 9 {
      assert (9 * b) % 9 == 0 && (9 * b) / 9 == b;
    } else if a == 10 {
      assert (10 * b) % 10 == 0 && (10 * b) / 10 == b;
    } else if a == 11 {
      assert (11 * b) % 11 == 0 && (11 * b) / 11 == b;
    } else if a == 18 {
      assert (18 * b) % 18 == 0 && (18 * b) / 18 == b;
    } else if a == 20 {
      assert (20 * b) % 20 == 0 && (20 * b) / 20 == b;
    } else {
      assert (22 * b) % 22 == 0 && (22 * b) / 22 == b;
    }
  }

  // -- What is on the disk --------------------------------------------------------------------------

  function Le16At(b: seq<byte>, at: nat): word
    requires at + 2 <= |b|
  {
    var (lo: int, hi: int) := (b[at], b[at + 1]);
    lo + 256 * hi
  }

  /** The geometry of a ready disk is that of the image behind it. */
  ghost predicate Describes(g: Geometry, image: seq<byte>) {
    && SECTOR <= |image| < TWO_TO_32
    && Fits(g, |image|, Le16At(image, 11), Le16At(image, 19), Le16At(image, 24), Le16At(image, 26))
  }

  /**
   * The same in bytes: the boot sector says 512 bytes per sector at 11, the number of sectors at 19,
   * sectors per track at 24 and sides at 26, low bytes first, and the file is as long as that.
   */
  lemma DescribedByByte(g: Geometry, image: seq<byte>)
    ensures Describes(g, image) <==>
              && 512 <= |image| == 512 * g.totalSectors && g.totalSectors == g.sides * g.sectorsPerTrack * g.tracks
              && g.bytesPerSector == 512 && image[11] == 0 && image[12] == 2
              && image[19] == g.totalSectors % 256 && image[20] == g.totalSectors / 256
              && image[24] == g.sectorsPerTrack && image[25] == 0 && image[26] == g.sides && image[27] == 0
              && 1 <= g.sides <= 2 && 9 <= g.sectorsPerTrack <= 11 && 80 <= g.tracks <= 85
  {
    if |image| >= 512 {
      WordByByte(image, 11, 512);
      WordByByte(image, 24, g.sectorsPerTrack);
      WordByByte(image, 26, g.sides);
      if g.totalSectors < 0x1_0000 { WordByByte(image, 19, g.totalSectors); }
      hide Le16At;
    }
  }

  lemma WordByByte(b: seq<byte>, at: nat, w: word)
    requires at + 2 <= |b|
    ensures Le16At(b, at) == w <==> b[at] == w % 256 && b[at + 1] == w / 256
  {
  }

  /** Between calls a state holds a handle exactly if it is ready to be read. */
  ghost predicate DiskOk(d: Disk, files: map<Handle, OpenFile>) {
    && (d.ready <==> d.handle.Some?)
    && (d.ready ==> d.handle.value in files && Describes(d.geom, files[d.handle.value].image))
  }

  /** Every open file keeps its contents. */
  ghost predicate Kept(files: map<Handle, OpenFile>, files': map<Handle, OpenFile>) {
    forall h :: h in files ==> h in files' && files'[h].image == files[h].image
  }

  /** Of the open files at most the one `d` holds is closed; the answer to a close may be lost. */
  ghost predicate Shut(d: Disk, files: map<Handle, OpenFile>, files': map<Handle, OpenFile>) {
    files' == files || (d.handle.Some? && files' == files - {d.handle.value})
  }

  lemma ShutKeeps(d: Disk, other: Disk, files: map<Handle, OpenFile>, files': map<Handle, OpenFile>)
    requires Shut(d, files, files') && DiskOk(other, files)
    requires other.handle.Some? ==> other.handle != d.handle
    ensures DiskOk(other, files')
    ensures other.ready ==> files'[other.handle.value] == files[other.handle.value]
    ensures SameImage(other, files, files')
  {
    hide Describes;
  }

  /** The image behind a state has not changed. */
  ghost predicate SameImage(d: Disk, files: map<Handle, OpenFile>, files': map<Handle, OpenFile>) {
    d.ready ==>
      && d.handle.Some? && d.handle.value in files && d.handle.value in files'
      && files'[d.handle.value].image == files[d.handle.value].image
  }

  lemma SameImageChain(d: Disk, files0: map<Handle, OpenFile>, files: map<Handle, OpenFile>, files': map<Handle, OpenFile>)
    requires SameImage(d, files0, files) && SameImage(d, files, files')
    ensures SameImage(d, files0, files')
  {
  }

  /** A state keeps its image when another one takes a handle that was not open before. */
  lemma KeptKeeps(d: Disk, other: Disk, files: map<Handle, OpenFile>, files': map<Handle, OpenFile>)
    requires Kept(files, files') && DiskOk(other, files) && (d.handle.Some? ==> d.handle.value !in files)
    ensures DiskOk(other, files') && (d.handle.Some? ==> d.handle != other.handle)
    ensures SameImage(other, files, files')
  {
    hide Describes;
  }

  /**
   * Handles are numbered as they are opened.  The active and the candidate state hold one each or
   * none, never the same; every other handle has been closed exactly once, and no held one has been.
   */
  ghost predicate Ledger(active: Disk, at: nat, candidate: Disk, ct: nat, opens: nat, closed: multiset<nat>) {
    && (active.handle.Some? ==> at < opens && closed[at] == 0)
    && (candidate.handle.Some? ==> ct < opens && closed[ct] == 0)
    && (active.handle.Some? && candidate.handle.Some? ==> at != ct && active.handle != candidate.handle)
    && (forall k :: k in closed ==> closed[k] == 1 && k < opens)
    && (forall k: nat :: k < opens ==> k in closed || (active.handle.Some? && k == at) || (candidate.handle.Some? && k == ct))
    && opens == |closed| + Holds(active) + Holds(candidate)
  }

  function Holds(d: Disk): nat {
    if d.handle.Some? then 1 else 0
  }

  /**
   * The TNFS and SD file services.  Every operation may fail; `faults` counts how often one did for a
   * reason that is neither the request's nor the image's.
   */
  class Backends {
    const images: map<(Source, seq<byte>), seq<byte>>
    var files: map<Handle, OpenFile>
    ghost var faults: nat

    ghost predicate Valid()
      reads this
    {
      (forall h :: h in files ==> |files[h].image| < TWO_TO_32) && (forall k :: k in images ==> |images[k]| < TWO_TO_32)
    }

    constructor (images: map<(Source, seq<byte>), seq<byte>>)
      requires forall k :: k in images ==> |images[k]| < TWO_TO_32
      ensures Valid() && files == map[] && this.images == images
    {
      this.images := images;
      files, faults := map[], 0;
    }

    /** Is the server mounted, or the card ready? */
    method Reach(source: Source) returns (status: Status)
      modifies this`faults
      ensures faults >= old(faults) && (status != Ok ==> faults > old(faults))
      ensures source.Tnfs? ==> status in {Ok, TnfsNotConnected, TnfsHostUnreachable}
      ensures !source.Tnfs? ==> status in {Ok, SdNotPresent}
    {
      var up: bool, near: bool := *, *;
      if up { return Ok; }
      faults := faults + 1;
      return if !source.Tnfs? then SdNotPresent else if near then TnfsHostUnreachable else TnfsNotConnected;
    }

    method Open(source: Source, path: seq<byte>) returns (status: Status, h: Handle)
      requires Valid()
      modifies this
      ensures Valid() && faults >= old(faults) && status in {Ok, FileNotFound, AccessDenied, BackendError}
      ensures status == Ok ==>
                && (source, path) in images && h !in old(files) && h.TnfsHandle? == source.Tnfs?
                && files == old(files)[h := OpenFile(images[(source, path)], 0)]
      ensures status != Ok ==> files == old(files)
      ensures faults == old(faults) ==> status == if (source, path) in images then Ok else FileNotFound
    {
      var allowed: bool, works: bool := *, *;
      var slot: int, n: byte, id: nat := *, *, *;
      h := if source.Tnfs? then TnfsHandle(slot, n) else SdFile(id);
      if !works || h in files {
        faults := faults + 1;
        return BackendError, h;
      }
      if (source, path) !in images { return FileNotFound, h; }
      if !allowed {
        faults := faults + 1;
        return AccessDenied, h;
      }
      files := files[h := OpenFile(images[(source, path)], 0)];
      return Ok, h;
    }

    /** A close whose answer is lost may leave the file open on the server. */
    method Close(h: Handle)
      requires Valid()
      modifies this`files
      ensures Valid() && (files == old(files) || files == old(files) - {h})
    {
      var works: bool := *;
      if works { files := files - {h}; }
    }

    /** The size of an open file; over TNFS this takes a seek to the end. */
    method Size(h: Handle) returns (size: Option<dword>)
      requires Valid() && h in files
      modifies this`faults
      ensures faults >= old(faults) && (size.None? ==> faults > old(faults))
      ensures size.Some? ==> size.value == |files[h].image|
    {
      var works: bool := *;
      if works || h.SdFile? { return Some(|files[h].image|); }
      faults := faults + 1;
      return None;
    }

    method Seek(h: Handle, offset: nat) returns (ok: bool)
      requires Valid() && h in files
      modifies this
      ensures Valid() && h in files && Kept(old(files), files) && files.Keys == old(files).Keys
      ensures faults >= old(faults) && (!ok ==> faults > old(faults))
      ensures ok ==> files[h].pos == offset
    {
      ok := *;
      if ok {
        files := files[h := files[h].(pos := offset)];
      } else {
        faults := faults + 1;
      }
    }

    /** Up to `n` bytes from the current position; fewer than there are is a fault. */
    method Read(h: Handle, n: nat) returns (data: Option<seq<byte>>)
      requires Valid() && h in files && files[h].pos + n <= |files[h].image|
      modifies this
      ensures Valid() && h in files && Kept(old(files), files) && files.Keys == old(files).Keys
      ensures faults >= old(faults) && (data.None? || |data.value| < n ==> faults > old(faults))
      ensures data.Some? ==>
                var f := old(files)[h];
                |data.value| <= n && data.value == f.image[f.pos..f.pos + |data.value|]
    {
      var f := files[h];
      var works: bool := *;
      if !works {
        faults := faults + 1;
        return None;
      }
      assert 0 <= 0 <= n;
      var got: nat :| got <= n;
      if got < n { faults := faults + 1; }
      files := files[h := f.(pos := f.pos + got)];
      return Some(f.image[f.pos..f.pos + got]);
    }
  }

  // -- What is to come of a request -----------------------------------------------------------------

  /** The verdict on an image, by the documented algorithm. */
  function ImageStatus(image: seq<byte>): Status
    requires |image| < TWO_TO_32
  {
    if |image| == 0 || |image| % SECTOR != 0 then FilesizeInvalid
    else ValidateGeometry(|image|, Le16At(image, 11), Le16At(image, 19), Le16At(image, 24), Le16At(image, 26)).0
  }

  /** How opening `path` on `source` ends when no backend fails. */
  ghost function Verdict(images: map<(Source, seq<byte>), seq<byte>>, source: Option<Source>, path: seq<byte>): Status
    requires forall k :: k in images ==> |images[k]| < TWO_TO_32
  {
    if source.None? || path == [] || source.value.OtherBackend? then InvalidSource
    else if source.value.Tnfs? && source.value.host == [] then SourceNotConfigured
    else if source.value.Sd? && |path| + 2 >= PATH_MAX + 4 then PathTooLong
    else if (source.value, path) !in images then FileNotFound
    else ImageStatus(images[(source.value, path)])
  }

  function ZeroSector(): (b: seq<byte>)
    ensures |b| == SECTOR && forall k :: 0 <= k < SECTOR ==> b[k] == 0
  {
    seq(SECTOR, _ => 0)
  }

  class Emulator {
    const backends: Backends
    var active: Disk
    var candidate: Disk

    // Which handle each state holds, how many were opened, and which were closed.
    ghost var activeToken: nat
    ghost var candidateToken: nat
    ghost var opens: nat
    ghost var closed: multiset<nat>

    ghost predicate Valid()
      reads this, backends
    {
      && backends.Valid()
      && DiskOk(active, backends.files) && DiskOk(candidate, backends.files)
      && Ledger(active, activeToken, candidate, candidateToken, opens, closed)
    }

    constructor (backends: Backends)
      requires backends.Valid()
      ensures Valid() && this.backends == backends && active == CLOSED && candidate == CLOSED && opens == 0
    {
      this.backends := backends;
      active, candidate := CLOSED, CLOSED;
      activeToken, candidateToken, opens, closed := 0, 0, 0, multiset{};
    }

    /** `close_state`, for a state that is about to be overwritten or forgotten. */
    method CloseState(d: Disk, ghost token: nat)
      requires backends.Valid()
      modifies this`closed, backends`files
      ensures backends.Valid() && closed == old(closed) + Held(d, token) && Shut(d, old(backends.files), backends.files)
    {
      if d.handle.Some? {
        closed := closed + multiset{token};
        backends.Close(d.handle.value);
      }
    }

    /** `sidetnfs_floppy_emul_close`. */
    method Close()
      requires Valid()
      modifies this`active, this`closed, backends`files
      ensures Valid() && active == CLOSED && closed == old(closed) + Held(old(active), activeToken)
      ensures Shut(old(active), old(backends.files), backends.files)
    {
      HandlesDiffer(active, activeToken, candidate, candidateToken, opens, closed);
      LedgerClose(active, activeToken, candidate, candidateToken, opens, closed);
      hide Ledger, DiskOk, Shut, Held, Backends.Valid;
      ghost var files := backends.files;
      CloseState(active, activeToken);
      ShutKeeps(active, candidate, files, backends.files);
      ClosedIsOk(backends.files);
      active := CLOSED;
    }

    /** `sidetnfs_floppy_emul_discard_candidate`. */
    method DiscardCandidate()
      requires Valid()
      modifies this`candidate, this`closed, backends`files
      ensures Valid() && candidate == CLOSED && closed == old(closed) + Held(old(candidate), candidateToken)
      ensures Shut(old(candidate), old(backends.files), backends.files)
    {
      HandlesDiffer(active, activeToken, candidate, candidateToken, opens, closed);
      LedgerSwap(active, activeToken, candidate, candidateToken, opens, closed);
      LedgerClose(candidate, candidateToken, active, activeToken, opens, closed);
      LedgerSwap(CLOSED, candidateToken, active, activeToken, opens, closed + Held(candidate, candidateToken));
      hide Ledger, DiskOk, Shut, Held, Backends.Valid;
      ghost var files := backends.files;
      CloseState(candidate, candidateToken);
      ShutKeeps(candidate, active, files, backends.files);
      ClosedIsOk(backends.files);
      candidate := CLOSED;
    }

    /** `sidetnfs_floppy_emul_commit_candidate`: the candidate takes over before the old image is closed. */
    method CommitCandidate()
      requires Valid()
      modifies this`active, this`candidate, this`activeToken, this`closed, backends`files
      ensures Valid() && active == old(candidate) && candidate == CLOSED
      ensures closed == old(closed) + Held(old(active), old(activeToken))
      ensures Shut(old(active), old(backends.files), backends.files)
      ensures active.ready ==> backends.files[active.handle.value] == old(backends.files)[active.handle.value]
    {
      HandlesDiffer(active, activeToken, candidate, candidateToken, opens, closed);
      LedgerSwap(active, activeToken, candidate, candidateToken, opens, closed);
      LedgerCommit(active, activeToken, candidate, candidateToken, opens, closed);
      hide Ledger, Describes, Shut, Held, Backends.Valid;
      ghost var files := backends.files;
      var oldState := active;
      ghost var oldToken := activeToken;
      active, activeToken := candidate, candidateToken;
      candidate := CLOSED;
      CloseState(oldState, oldToken);
      ShutKeeps(oldState, active, files, backends.files);
    }

    /** `raw_read_sector` and `read_sector_raw_from`: seek, then read. */
    method ReadRaw(h: Handle, lba: nat) returns (status: Status, buf: seq<byte>)
      requires backends.Valid() && h in backends.files && SECTOR * lba < 0x8000_0000
      requires SECTOR * lba + SECTOR <= |backends.files[h].image|
      modifies backends
      ensures backends.Valid() && Kept(old(backends.files), backends.files) && backends.files.Keys == old(backends.files).Keys
      ensures backends.faults >= old(backends.faults) && (backends.faults == old(backends.faults) ==> status == Ok)
      ensures var image := old(backends.files)[h].image;
              (status == Ok && buf == image[SECTOR * lba..SECTOR * lba + SECTOR]) || (status == ReadFailed && buf == ZeroSector())
    {
      var sought := backends.Seek(h, SECTOR * lba);
      if !sought { return ReadFailed, ZeroSector(); }
      var data := backends.Read(h, SECTOR);
      if data.None? || |data.value| != SECTOR { return ReadFailed, ZeroSector(); }
      return Ok, data.value;
    }

    /** `sidetnfs_floppy_emul_read_sector`. */
    method ReadSector(lba: dword) returns (status: Status, buf: seq<byte>)
      requires Valid()
      modifies backends
      ensures Valid() && (status == NotOpen <==> !active.ready) && (status != Ok ==> buf == ZeroSector())
      ensures active.ready ==>
                var image := old(backends.files)[active.handle.value].image;
                if SECTOR * lba >= |image| then status == OutOfRange
                else
                  && (status == Ok || (status == ReadFailed && backends.faults > old(backends.faults)))
                  && SECTOR * lba + SECTOR <= |image|
                  && (status == Ok ==> buf == image[SECTOR * lba..SECTOR * lba + SECTOR])
    {
      if !active.ready { return NotOpen, ZeroSector(); }
      GeometryBounds(active.geom, backends.files[active.handle.value].image);
      hide Ledger, Describes;
      if lba >= active.geom.totalSectors { return OutOfRange, ZeroSector(); }
      status, buf := ReadRaw(active.handle.value, lba);
    }

    /** `open_into`, up to the open file: which backend, and its errors. */
    method OpenBackend(source: Source, path: seq<byte>) returns (status: Status, h: Handle)
      requires backends.Valid() && path != []
      modifies backends
      ensures backends.Valid() && backends.faults >= old(backends.faults)
      ensures status == Ok ==>
                && (source, path) in backends.images && h !in old(backends.files)
                && backends.files == old(backends.files)[h := OpenFile(backends.images[(source, path)], 0)]
      ensures status != Ok ==> backends.files == old(backends.files)
      ensures backends.faults == old(backends.faults) ==>
                var v := Verdict(backends.images, Some(source), path);
                if status == Ok then v == ImageStatus(backends.images[(source, path)]) else status == v
    {
      h := SdFile(0);
      hide ImageStatus, Valid;
      if source.Tnfs? && source.host == [] { return SourceNotConfigured, h; }
      if source.OtherBackend? { return InvalidSource, h; }
      status := backends.Reach(source);
      if status != Ok { return; }
      if source.Sd? && |path| + 2 >= PATH_MAX + 4 { return PathTooLong, h; }
      status, h := backends.Open(source, path);
      if status == AccessDenied && source.Tnfs? { return BackendError, h; }
    }

    /**
     * `open_into`: what is to be put into the state it is called for.  Whatever fails, nothing
     * stays open; and if no backend fails, the outcome is the verdict on request and image.
     */
    method OpenInto(source: Option<Source>, path: seq<byte>) returns (status: Status, disk: Disk, ghost token: nat)
      requires backends.Valid() && opens !in closed
      modifies this`opens, this`closed, backends
      ensures backends.Valid() && Kept(old(backends.files), backends.files) && DiskOk(disk, backends.files)
      ensures backends.faults >= old(backends.faults)
      ensures backends.faults == old(backends.faults) ==> status == Verdict(backends.images, source, path)
      ensures Booked(status == Ok, disk, token, old(opens), old(closed), opens, closed)
      ensures status != Ok ==> disk == CLOSED
      ensures status == Ok ==>
                && disk.ready && disk.handle.Some? && disk.handle.value !in old(backends.files)
                && source.Some? && (source.value, path) in backends.images
                && backends.files[disk.handle.value].image == backends.images[(source.value, path)]
    {
      hide Describes, Verdict, ImageStatus;
      disk, token := CLOSED, opens;
      if source.None? || path == [] {
        BadRequest(backends.images, source, path);
        return InvalidSource, disk, token;
      }
      var h;
      status, h := OpenBackend(source.value, path);
      if status != Ok { return; }
      opens := opens + 1;
      var geom;
      status, geom := Validate(h);
      if status != Ok {
        CloseState(Disk(Some(h), false, geom), token);
        return;
      }
      disk := Disk(Some(h), true, geom);
    }

    /** The size of the file, its first sector, and the geometry they give. */
    method Validate(h: Handle) returns (status: Status, geom: Geometry)
      requires backends.Valid() && h in backends.files
      modifies backends
      ensures backends.Valid() && Kept(old(backends.files), backends.files) && backends.files.Keys == old(backends.files).Keys
      ensures backends.faults >= old(backends.faults)
      ensures backends.faults == old(backends.faults) ==> status == ImageStatus(old(backends.files)[h].image)
      ensures status == Ok ==> Describes(geom, backends.files[h].image)
    {
      ghost var image := backends.files[h].image;
      var size := backends.Size(h);
      if size.None? { return BackendError, NO_GEOMETRY; }
      var filesize := size.value;
      if filesize == 0 || filesize % SECTOR != 0 { return FilesizeInvalid, NO_GEOMETRY; }
      var sector0;
      status, sector0 := ReadRaw(h, 0);
      if status != Ok { return ReadFailed, NO_GEOMETRY; }
      FirstSector(image, sector0);
      hide Le16At, Fits;
      var r := ValidateGeometry(filesize, Le16At(sector0, 11), Le16At(sector0, 19), Le16At(sector0, 24), Le16At(sector0, 26));
      return r.0, r.1;
    }

    /** `sidetnfs_floppy_emul_open`: the image in use is closed first, whatever comes after. */
    method Open(source: Option<Source>, path: seq<byte>) returns (status: Status)
      requires Valid()
      modifies this`active, this`activeToken, this`opens, this`closed, backends
      ensures Valid() && (status == Ok <==> active.ready) && (status != Ok ==> active == CLOSED)
      ensures backends.faults == old(backends.faults) ==> status == Verdict(backends.images, source, path)
      ensures status == Ok ==> Shows(active, source, path)
    {
      Close();
      LedgerFresh(active, activeToken, candidate, candidateToken, opens, closed);
      ghost var idle, before, shut, files := activeToken, opens, closed, backends.files;
      hide DiskOk, Ledger, Verdict, Kept, SameImage, Booked, Backends.Valid;
      status, active, activeToken := OpenInto(source, path);
      KeptKeeps(active, candidate, files, backends.files);
      LedgerOpen(status == Ok, active, activeToken, idle, candidate, candidateToken, before, shut, opens, closed);
    }

    /** A ready state whose handle is open on this very image. */
    ghost predicate Shows(d: Disk, source: Option<Source>, path: seq<byte>)
      reads backends
    {
      && d.handle.Some? && d.handle.value in backends.files && source.Some? && (source.value, path) in backends.images
      && backends.files[d.handle.value].image == backends.images[(source.value, path)]
    }

    /** `sidetnfs_floppy_emul_open_candidate`: the image in use is not touched, whatever happens. */
    method OpenCandidate(source: Option<Source>, path: seq<byte>) returns (status: Status)
      requires Valid()
      modifies this`candidate, this`candidateToken, this`opens, this`closed, backends
      ensures Valid() && (status == Ok <==> candidate.ready) && (status != Ok ==> candidate == CLOSED)
      ensures backends.faults == old(backends.faults) ==> status == Verdict(backends.images, source, path)
      ensures status == Ok ==> Shows(candidate, source, path)
      ensures SameImage(active, old(backends.files), backends.files)
    {
      ghost var files, before := backends.files, candidate;
      HandlesDiffer(active, activeToken, candidate, candidateToken, opens, closed);
      assert DiskOk(active, files) && (active.handle.Some? ==> active.handle != candidate.handle);
      hide *;
      DiscardCandidate();
      ShutKeeps(before, active, files, backends.files);
      ghost var files1 := backends.files;
      status := FillCandidate(source, path);
      SameImageChain(active, files, files1, backends.files);
    }

    /** The second half of it: the candidate is closed and now takes an image. */
    method FillCandidate(source: Option<Source>, path: seq<byte>) returns (status: Status)
      requires Valid() && candidate == CLOSED
      modifies this`candidate, this`candidateToken, this`opens, this`closed, backends
      ensures Valid() && (status == Ok <==> candidate.ready) && (status != Ok ==> candidate == CLOSED)
      ensures backends.faults >= old(backends.faults)
      ensures backends.faults == old(backends.faults) ==> status == Verdict(backends.images, source, path)
      ensures status == Ok ==> Shows(candidate, source, path)
      ensures SameImage(active, old(backends.files), backends.files)
    {
      LedgerSwap(active, activeToken, candidate, candidateToken, opens, closed);
      LedgerFresh(active, activeToken, candidate, candidateToken, opens, closed);
      ghost var idle, before, shut, files := candidateToken, opens, closed, backends.files;
      hide DiskOk, Ledger, Verdict, Kept, SameImage, Booked, Backends.Valid;
      status, candidate, candidateToken := OpenInto(source, path);
      KeptKeeps(candidate, active, files, backends.files);
      LedgerOpen(status == Ok, candidate, candidateToken, idle, active, activeToken, before, shut, opens, closed);
      LedgerSwap(candidate, candidateToken, active, activeToken, opens, closed);
    }
  }

  lemma ClosedIsOk(files: map<Handle, OpenFile>)
    ensures DiskOk(CLOSED, files)
  {
  }

  lemma BadRequest(images: map<(Source, seq<byte>), seq<byte>>, source: Option<Source>, path: seq<byte>)
    requires forall k :: k in images ==> |images[k]| < TWO_TO_32
    requires source.None? || path == []
    ensures Verdict(images, source, path) == InvalidSource
  {
  }

  const PATH_MAX: nat := 512

  lemma GeometryBounds(g: Geometry, image: seq<byte>)
    requires Describes(g, image)
    ensures |image| == SECTOR * g.totalSectors && g.totalSectors <= 1870
  {
  }

  lemma FirstSector(image: seq<byte>, sector0: seq<byte>)
    requires |image| >= SECTOR && sector0 == image[SECTOR * 0..SECTOR * 0 + SECTOR]
    ensures Le16At(sector0, 11) == Le16At(image, 11) && Le16At(sector0, 19) == Le16At(image, 19)
    ensures Le16At(sector0, 24) == Le16At(image, 24) && Le16At(sector0, 26) == Le16At(image, 26)
  {
  }

  lemma LedgerFresh(active: Disk, at: nat, candidate: Disk, ct: nat, opens: nat, closed: multiset<nat>)
    requires Ledger(active, at, candidate, ct, opens, closed)
    ensures opens !in closed
  {
  }

  lemma HandlesDiffer(active: Disk, at: nat, candidate: Disk, ct: nat, opens: nat, closed: multiset<nat>)
    requires Ledger(active, at, candidate, ct, opens, closed)
    ensures active.handle.Some? ==> active.handle != candidate.handle
  {
  }

  /** An open that worked leaves one handle more, held by `d`; of one that failed nothing stays open. */
  ghost predicate Booked(ok: bool, d: Disk, token: nat, opens: nat, closed: multiset<nat>, opens': nat, closed': multiset<nat>) {
    && token == opens
    && if ok then d.handle.Some? && opens' == opens + 1 && closed' == closed
       else
         && d == CLOSED
         && ((opens' == opens && closed' == closed) || (opens' == opens + 1 && closed' == closed + multiset{token}))
  }

  /** One of the two states was closed and has now been opened again, or has not. */
  lemma LedgerOpen(ok: bool, active: Disk, at: nat, idle: nat, candidate: Disk, ct: nat, opens: nat, closed: multiset<nat>,
                   opens': nat, closed': multiset<nat>)
    requires Ledger(CLOSED, idle, candidate, ct, opens, closed) && Booked(ok, active, at, opens, closed, opens', closed')
    requires active.handle.Some? ==> active.handle != candidate.handle
    ensures Ledger(active, at, candidate, ct, opens', closed')
  {
    LedgerFresh(CLOSED, idle, candidate, ct, opens, closed);
  }

  /** The handle a state holds, as the ledger counts it. */
  ghost function Held(d: Disk, token: nat): multiset<nat> {
    if d.handle.Some? then multiset{token} else multiset{}
  }

  lemma LedgerClose(active: Disk, at: nat, candidate: Disk, ct: nat, opens: nat, closed: multiset<nat>)
    requires Ledger(active, at, candidate, ct, opens, closed)
    ensures Ledger(CLOSED, at, candidate, ct, opens, closed + Held(active, at))
  {
  }

  lemma LedgerSwap(active: Disk, at: nat, candidate: Disk, ct: nat, opens: nat, closed: multiset<nat>)
    requires Ledger(active, at, candidate, ct, opens, closed)
    ensures Ledger(candidate, ct, active, at, opens, closed)
  {
  }

  lemma LedgerCommit(active: Disk, at: nat, candidate: Disk, ct: nat, opens: nat, closed: multiset<nat>)
    requires Ledger(active, at, candidate, ct, opens, closed)
    ensures Ledger(candidate, ct, CLOSED, ct, opens, closed + Held(active, at))
    ensures active.handle.Some? && candidate.handle.Some? ==> active.handle != candidate.handle
  {
  }
}
