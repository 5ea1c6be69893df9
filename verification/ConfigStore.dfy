/**
 * The live drive configuration (sidetnfs_config.c): the RAM copy, the flash sector behind it, and
 * every operation that changes either.
 */
module ConfigStore {
  import opened Words
  import opened Layout
  import opened Config
  import Crc
  import Octets

  /** The letter `l` is not used by the settings drive or by any configured record other than `except`. */
  ghost predicate LetterFree(c: Block, l: byte, except: nat) {
    && l != c.letter
    && forall i :: 0 <= i < MAX_DRIVES && i != except && Configured(c.drives[i]) ==> c.drives[i].letter != l
  }

  /** Will record `d` be accepted for slot `index`? */
  ghost predicate Acceptable(c: Block, index: nat, d: Drive) {
    && index < MAX_DRIVES
    && (d.state == EMPTY || (Configured(d) && RecordOk(d) && LetterFree(c, d.letter, index)))
  }

  /** The configuration after slot `index` has taken record `d`. */
  function With(c: Block, index: nat, d: Drive): Block
    requires index < MAX_DRIVES
  {
    var ds := c.drives[index := d];
    Block(c.magic, c.version, c.letter, Count(ds), c.reserved, ds, c.crc)
  }

  /** Nothing but slot `index` has changed, and the count is the number of configured slots. */
  ghost predicate OnlySlot(c: Block, c': Block, index: nat) {
    && c'.magic == c.magic && c'.version == c.version && c'.letter == c.letter && c'.reserved == c.reserved && c'.crc == c.crc
    && index < 8 && (forall i :: 0 <= i < 8 && i != index ==> c'.drives[i] == c.drives[i])
    && c'.count == |SlotsInUse(c'.drives)|
  }

  lemma WithIsOnlySlot(c: Block, index: nat, d: Drive)
    requires index < MAX_DRIVES
    ensures OnlySlot(c, With(c, index, d), index) && With(c, index, d).drives[index] == d
  {
    CountByNumber(With(c, index, d).drives);
    hide Count, SlotsInUse;
  }

  /** The count follows the one slot that changes. */
  lemma CountFollows(c: Block, c': Block, index: nat)
    requires ValidStructure(c) && OnlySlot(c, c', index)
    ensures c'.count == c.count - (if c.drives[index].state in {1, 2} then 1 else 0)
                                + (if c'.drives[index].state in {1, 2} then 1 else 0)
  {
    CountByNumber(c.drives);
    hide ValidDrives, Count;
    InUseElsewhere(c.drives, c'.drives, index);
    InUseWith(c.drives, index);
    InUseWith(c'.drives, index);
  }

  lemma InUseElsewhere(ds: Drives, ds': Drives, index: nat)
    requires index < 8 && forall i :: 0 <= i < 8 && i != index ==> ds'[i] == ds[i]
    ensures SlotsInUse(ds) - {index} == SlotsInUse(ds') - {index}
  {
  }

  lemma InUseWith(ds: Drives, index: nat)
    requires index < 8
    ensures |SlotsInUse(ds)| == |SlotsInUse(ds) - {index}| + if ds[index].state in {1, 2} then 1 else 0
  {
    var others := SlotsInUse(ds) - {index};
    if ds[index].state in {1, 2} {
      assert SlotsInUse(ds) == others + {index};
    } else {
      assert SlotsInUse(ds) == others;
    }
  }

  lemma WithIsValid(c: Block, index: nat, d: Drive)
    requires ValidStructure(c) && Acceptable(c, index, d)
    ensures ValidStructure(With(c, index, Clean(d)))
  {
    CleanKeepsRecords(d);
    hide Clean, RecordOk, Count;
  }

  class Store {
    var config: Block
    var ready: bool
    var pending: bool
    var loadedFromFlash: bool
    var reason: Fallback
    var structureStatus: Status
    var migratedFrom: dword
    // The block at the start of the flash sector.
    var flash: seq<byte>

    ghost predicate Valid()
      reads this
    {
      ready && |flash| == BLOCK_SIZE && ValidStructure(config)
    }

    constructor (flash: seq<byte>)
      requires |flash| == BLOCK_SIZE
      ensures !ready && this.flash == flash
    {
      this.flash := flash;
      config := Block(0, 0, 0, 0, [0, 0], seq(MAX_DRIVES, _ => ZERO_DRIVE), [0, 0, 0, 0]);
      ready, pending, loadedFromFlash, reason, structureStatus, migratedFrom := false, false, false, NoFallback, Ok, 0;
    }

    /** `sidetnfs_config_load_defaults`. */
    method LoadDefaults()
      modifies this`config
      ensures config == Defaults()
    {
      config := Defaults();
    }

    /** `sidetnfs_config_migrate_v2_to_v3`. */
    method Migrate(v2: Block) returns (c: Option<Block>)
      ensures c == if CrcOk(v2) then Some(Migrated(v2)) else None
    {
      hide CrcOk, Checksum, MigratedDrive;
      var crcOk := CheckCrc(v2);
      if !crcOk { return None; }
      var ds: seq<Drive> := seq(MAX_DRIVES, _ => ZERO_DRIVE);
      var configured := 0;
      for i := 0 to MAX_DRIVES
        invariant |ds| == MAX_DRIVES && configured == Count(ds[..i])
        invariant forall k :: 0 <= k < i ==> ds[k] == MigratedDrive(v2.drives[k])
        invariant forall k :: i <= k < MAX_DRIVES ==> ds[k] == ZERO_DRIVE
      {
        MigratedDriveFacts(v2.drives[i]);
        ghost var was := ds;
        if v2.drives[i].state != 0 {
          ds := ds[i := MigrateRecord(v2.drives[i])];
          configured := configured + 1;
        } else {
          UnusedRecord(v2.drives[i]);
        }
        assert ds[..i + 1][..i] == ds[..i] == was[..i];
      }
      assert ds[..MAX_DRIVES] == ds && ds == MigratedDrives(v2.drives);
      var r := Block(MAGIC, VERSION, v2.letter, configured, [0, 0], ds, [0, 0, 0, 0]);
      var sum := ComputeChecksum(r);
      return Some(r.(crc := sum));
    }

    /** `sidetnfs_config_init`: what is loaded depends on the bytes in flash alone. */
    method Init()
      requires |flash| == BLOCK_SIZE
      modifies this`config, this`ready, this`loadedFromFlash, this`reason, this`structureStatus, this`migratedFrom
      ensures Valid()
      ensures loadedFromFlash <==> Loaded(flash).Some?
      ensures loadedFromFlash ==>
                && config == Loaded(flash).value && reason == NoFallback && structureStatus == Ok
                && migratedFrom == if Parse(flash).version == VERSION_V2 then VERSION_V2 else 0
      ensures !loadedFromFlash ==>
                && config == Defaults() && migratedFrom == 0 && reason == WhyNot(Parse(flash))
                && (reason == StructureInvalid <==> structureStatus != Ok)
    {
      DefaultsAreValid();
      hide ValidStructure, Trusted, WhyNot, Parse, Defaults;
      var c, why, status, migrated := Examine(Parse(flash));
      ready := true;
      if c.None? {
        LoadDefaults();
        loadedFromFlash, reason, structureStatus, migratedFrom := false, why, status, 0;
        return;
      }
      TrustedIsValid(Parse(flash));
      config := c.value;
      loadedFromFlash, reason, structureStatus, migratedFrom := true, NoFallback, Ok, migrated;
    }

    /** The checks of `init`, in their order, on the block copied from flash. */
    method Examine(block: Block) returns (found: Option<Block>, why: Fallback, status: Status, migrated: dword)
      ensures found == Trusted(block)
      ensures found.None? ==> why == WhyNot(block) && (why == StructureInvalid <==> status != Ok)
      ensures found.Some? ==> migrated == if block.version == VERSION_V2 then VERSION_V2 else 0
    {
      MigratedFacts(block);
      hide ValidStructure, CrcOk, Migrated, TerminatedDrives;
      var c := block;
      found, why, status, migrated := None, NoFallback, Ok, 0;
      var valid := c.magic == MAGIC;
      if !valid { why := BadMagic; }
      if valid && c.version == VERSION_V2 {
        var m := Migrate(c);
        if m.Some? {
          c, migrated := m.value, VERSION_V2;
        } else {
          valid, why := false, CrcWrong;
        }
      } else if valid && c.version != VERSION {
        valid, why := false, UnsupportedVersion;
      }
      if valid {
        valid := CheckCrc(c);
        if !valid { why := CrcWrong; }
      }
      if valid {
        status := ValidateStructure(c);
        valid := status == Ok;
        if !valid { why := StructureInvalid; }
      }
      if valid { found := Some(c.(drives := TerminatedDrives(c.drives))); }
    }

    /** `sidetnfs_config_recompute_drive_count`. */
    method RecomputeDriveCount()
      modifies this`config
      ensures config == old(config).(count := Count(old(config).drives))
    {
      var count, ds := 0, config.drives;
      assert ds[..0] == [];
      for i := 0 to MAX_DRIVES
        invariant count == Count(ds[..i]) && config == old(config)
      {
        assert ds[..i + 1][..i] == ds[..i];
        if Configured(ds[i]) { count := count + 1; }
      }
      assert ds[..MAX_DRIVES] == ds;
      config := config.(count := count);
    }

    /** One slot is overwritten and the count brought up to date. */
    method Put(index: nat, d: Drive)
      requires index < MAX_DRIVES
      modifies this`config
      ensures config == With(old(config), index, d)
    {
      config := config.(drives := config.drives[index := d]);
      RecomputeDriveCount();
    }

    /** Does another configured record use this letter? */
    method LetterTaken(letter: byte, except: nat) returns (taken: bool)
      ensures !taken <==> forall i :: 0 <= i < MAX_DRIVES && i != except && Configured(config.drives[i]) ==> config.drives[i].letter != letter
    {
      for i := 0 to MAX_DRIVES
        invariant forall k :: 0 <= k < i && k != except && Configured(config.drives[k]) ==> config.drives[k].letter != letter
      {
        if i != except && Configured(config.drives[i]) && config.drives[i].letter == letter { return true; }
      }
      return false;
    }

    /** `sidetnfs_config_set_drive`. */
    method SetDrive(index: nat, d: Drive) returns (status: Status)
      requires Valid()
      modifies this`config
      ensures Valid()
      ensures status == Ok <==> Acceptable(old(config), index, d)
      ensures index >= MAX_DRIVES <==> status == InvalidIndex
      ensures index < MAX_DRIVES && d.state > ENABLED ==> status == InvalidDriveState
      ensures index < MAX_DRIVES && Configured(d) ==>
                status == if !RecordOk(d) then ValidateDriveRecord(d)
                          else if !LetterFree(old(config), d.letter, index) then DuplicateDriveLetter else Ok
      ensures status == Ok ==> config == With(old(config), index, Clean(d))
      ensures status == Ok ==> OnlySlot(old(config), config, index) && Holds(config.drives[index], d)
      ensures status != Ok ==> config == old(config)
    {
      CleanHolds(d);
      if index < MAX_DRIVES { WithIsOnlySlot(config, index, Clean(d)); }
      hide OnlySlot, Holds;
      if Acceptable(config, index, d) { WithIsValid(config, index, d); }
      hide ValidStructure, With, RecordOk;
      if index >= MAX_DRIVES { return InvalidIndex; }
      if d.state == EMPTY {
        Put(index, ZERO_DRIVE);
        return Ok;
      }
      if d.state != DISABLED && d.state != ENABLED { return InvalidDriveState; }
      var candidate := Terminated(d).(reserved0 := [0, 0]);
      CandidateFacts(d);
      hide Terminated, Relevant, Clean;
      var rc := ValidateDriveRecord(candidate);
      if rc != Ok { return rc; }
      if candidate.letter == config.letter { return DuplicateDriveLetter; }
      var taken := LetterTaken(candidate.letter, index);
      if taken { return DuplicateDriveLetter; }
      Put(index, Relevant(candidate));
      return Ok;
    }

    /** `sidetnfs_config_set_drive_state`. */
    method SetDriveState(index: nat, state: byte) returns (status: Status)
      requires Valid()
      modifies this`config
      ensures Valid()
      ensures status == Ok <==>
                index < MAX_DRIVES && (state == EMPTY || ((state == DISABLED || state == ENABLED) && Configured(old(config).drives[index])))
      ensures status != Ok ==>
                status == if index >= MAX_DRIVES then InvalidIndex else if state > ENABLED then InvalidDriveState else EmptySlot
      ensures status == Ok ==> config == With(old(config), index, Clean(old(config).drives[index].(state := state)))
      ensures status == Ok ==>
                OnlySlot(old(config), config, index) && Holds(config.drives[index], old(config).drives[index].(state := state))
      ensures status != Ok ==> config == old(config)
    {
      if index >= MAX_DRIVES { return InvalidIndex; }
      ghost var d := config.drives[index].(state := state);
      if state == EMPTY {
        assert Clean(d) == Clean(ZERO_DRIVE);
        status := SetDrive(index, ZERO_DRIVE);
        return;
      }
      if state != DISABLED && state != ENABLED { return InvalidDriveState; }
      if !Configured(config.drives[index]) { return EmptySlot; }
      StoredIsAcceptable(config, index, state);
      hide ValidStructure, Acceptable, With, Clean;
      status := SetDrive(index, config.drives[index].(state := state));
    }

    /** `sidetnfs_config_delete_drive`. */
    method DeleteDrive(index: nat) returns (status: Status)
      requires Valid()
      modifies this`config
      ensures Valid()
      ensures status == if index >= MAX_DRIVES then InvalidIndex
                        else if old(config).drives[index].state == EMPTY then EmptySlot else Ok
      ensures status == Ok ==> config == With(old(config), index, ZERO_DRIVE)
      ensures status == Ok ==> OnlySlot(old(config), config, index) && Blank(config.drives[index])
      ensures status != Ok ==> config == old(config)
    {
      if index >= MAX_DRIVES { return InvalidIndex; }
      if config.drives[index].state == EMPTY { return EmptySlot; }
      WithIsValid(config, index, ZERO_DRIVE);
      WithIsOnlySlot(config, index, ZERO_DRIVE);
      CleanHolds(ZERO_DRIVE);
      hide OnlySlot, Blank;
      Put(index, ZERO_DRIVE);
      return Ok;
    }

    /** `sidetnfs_config_set_config_drive_letter`. */
    method SetConfigDriveLetter(letter: byte) returns (status: Status)
      requires Valid()
      modifies this`config
      ensures Valid()
      ensures status == Ok <==>
                LetterOk(letter) &&
                forall i :: 0 <= i < MAX_DRIVES && Configured(old(config).drives[i]) ==> old(config).drives[i].letter != letter
      ensures status != Ok ==> status == if LetterOk(letter) then DuplicateDriveLetter else InvalidDriveLetter
      ensures status == Ok ==> config == old(config).(letter := letter)
      ensures status != Ok ==> config == old(config)
    {
      if !IsValidDriveLetter(letter) { return InvalidDriveLetter; }
      hide RecordOk, Count;
      var taken := LetterTaken(letter, MAX_DRIVES);
      if taken { return DuplicateDriveLetter; }
      config := config.(letter := letter);
      return Ok;
    }

    /** Erase and program.  A bad sector ends up holding something else. */
    method Program(image: seq<byte>, bad: Option<seq<byte>>)
      requires |image| == BLOCK_SIZE && (bad.Some? ==> |bad.value| == BLOCK_SIZE)
      modifies this`flash
      ensures flash == Held(image, bad)
    {
      flash := if bad.Some? then bad.value else image;
    }

    /** The clean image `sidetnfs_config_save` builds. */
    method BuildImage() returns (image: Block)
      ensures image == SavedImage(config) && image.magic == MAGIC && image.version == VERSION
    {
      hide Relevant, Terminated, Checksum;
      var ds: seq<Drive> := seq(MAX_DRIVES, _ => ZERO_DRIVE);
      for i := 0 to MAX_DRIVES
        invariant |ds| == MAX_DRIVES
        invariant forall k :: 0 <= k < i ==> ds[k] == Clean(config.drives[k])
        invariant forall k :: i <= k < MAX_DRIVES ==> ds[k] == ZERO_DRIVE
      {
        if config.drives[i].state == EMPTY { continue; }
        ds := ds[i := Relevant(Terminated(config.drives[i]))];
      }
      assert ds == CleanDrives(config.drives);
      image := Block(MAGIC, VERSION, config.letter, config.count, [0, 0], ds, [0, 0, 0, 0]);
      var sum := ComputeChecksum(image);
      image := image.(crc := sum);
    }

    /**
     * `sidetnfs_config_save`, on a sector that afterwards holds the image, or `bad`.  It never fails
     * because of the configuration; OK means exactly that what the sector holds reads back as a block
     * with a right checksum, and then RAM holds the clean image.
     */
    method Save(bad: Option<seq<byte>>) returns (status: Status)
      requires Valid() && (bad.Some? ==> |bad.value| == BLOCK_SIZE)
      modifies this`config, this`ready, this`pending, this`flash
      ensures Valid() && flash == Held(Serialize(SavedImage(old(config))), bad)
      ensures status == ReadBackStatus(flash)
      ensures bad.None? ==> status == Ok
      ensures bad.Some? && BurstApart(Serialize(SavedImage(old(config))), bad.value) ==> status != Ok
      ensures if status == Ok then config == SavedImage(old(config)) && pending
              else config == old(config) && pending == old(pending)
      ensures status == Ok ==> SavedHolds(config, old(config))
    {
      SavedImageHolds(config);
      hide *;
      var valid, clean := Prepare();
      if valid != Ok { return valid; }
      status := WriteBlock(clean, bad);
      if status == Ok { config, ready, pending := clean, true, true; }
      SaveIsValid();
    }

    lemma SaveIsValid()
      requires ready && |flash| == BLOCK_SIZE && ValidStructure(config)
      ensures Valid()
    {
    }

    /** The first half of `save`: validation, which never fails, and the image. */
    method Prepare() returns (valid: Status, clean: Block)
      requires Valid()
      modifies this`config
      ensures config == old(config) && ready && ValidStructure(config) && valid == Ok
      ensures clean == SavedImage(config) && clean.magic == MAGIC && clean.version == VERSION
      ensures CrcOk(clean) && ValidStructure(clean)
    {
      CountIsRight(config);
      SavedImageIsValid(config);
      hide ValidStructure, SavedImage, CrcOk, Count, Explains;
      RecomputeDriveCount();
      valid := ValidateStructure(config);
      clean := BuildImage();
    }

    /** Erases, programs and reads back. */
    method WriteBlock(clean: Block, bad: Option<seq<byte>>) returns (status: Status)
      requires CrcOk(clean) && clean.magic == MAGIC && clean.version == VERSION && (bad.Some? ==> |bad.value| == BLOCK_SIZE)
      modifies this`flash
      ensures |flash| == BLOCK_SIZE && flash == Held(Serialize(clean), bad)
      ensures status == ReadBackStatus(flash)
      ensures bad.None? ==> status == Ok
      ensures bad.Some? && BurstApart(Serialize(clean), bad.value) ==> status != Ok
    {
      ParseSerialize(clean);
      hide CrcOk, Serialize, BurstApart, Parse;
      if bad.Some? && BurstApart(Serialize(clean), bad.value) { BurstsBreakTheChecksum(Serialize(clean), bad.value); }
      Program(Serialize(clean), bad);
      status := ReadBack();
    }

    /** Does the sector read back as a block of this version with a right checksum? */
    method ReadBack() returns (status: Status)
      requires |flash| == BLOCK_SIZE
      ensures status == ReadBackStatus(flash)
    {
      hide CrcOk, Parse;
      var readback := Parse(flash);
      if readback.magic != MAGIC || readback.version != VERSION { return FlashWriteFailed; }
      var crcOk := CheckCrc(readback);
      if !crcOk { return CrcMismatch; }
      return Ok;
    }

    /** `sidetnfs_config_factory_reset`. */
    method FactoryReset(bad: Option<seq<byte>>) returns (status: Status)
      requires Valid() && (bad.Some? ==> |bad.value| == BLOCK_SIZE)
      modifies this`config, this`ready, this`pending, this`flash
      ensures Valid() && status == ReadBackStatus(flash)
      ensures bad.None? ==> status == Ok && IsFactoryImage(flash)
      ensures config == if status == Ok then SavedImage(Defaults()) else Defaults()
    {
      DefaultsAreValid();
      SavedDefaultsAreFactory();
      hide ValidStructure, Defaults, IsFactoryImage, SavedImage, ReadBackStatus, BurstApart;
      LoadDefaults();
      status := Save(bad);
    }

    /** `sidetnfs_config_flash_matches_factory_defaults`. */
    method FlashMatchesFactoryDefaults() returns (matches: bool)
      requires |flash| == BLOCK_SIZE
      ensures matches <==> IsFactoryImage(flash)
    {
      var raw := Parse(flash);
      if Body(raw) == Body(Defaults()) { FactoryHead(raw); }
      hide CrcOk, Body, Defaults, Parse;
      if raw.magic != MAGIC || raw.version != VERSION { return false; }
      var crcOk := CheckCrc(raw);
      if !crcOk { return false; }
      return Body(raw) == Body(Defaults());
    }

    /** Saving to a good sector and starting again gives the same configuration. */
    method SaveAndRestart() returns (status: Status)
      requires Valid()
      modifies this
      ensures Valid() && status == Ok && loadedFromFlash && config == SavedImage(old(config))
    {
      ghost var c := config;
      SavedImageLoads(c);
      hide *;
      status := Save(None);
      FlashSize();
      HeldGood(Serialize(SavedImage(c)));
      Restart();
    }

    /** A new start from the same sector. */
    method Restart()
      requires |flash| == BLOCK_SIZE
      modifies this
      ensures Valid() && (Loaded(flash).Some? ==> loadedFromFlash && config == Loaded(flash).value)
      ensures flash == old(flash)
    {
      pending := false;
      Init();
    }

    lemma FlashSize()
      requires Valid()
      ensures |flash| == BLOCK_SIZE
    {
    }
  }

  /** What a sector holds after an image was programmed into it. */
  function Held(image: seq<byte>, bad: Option<seq<byte>>): seq<byte> {
    if bad.Some? then bad.value else image
  }

  lemma HeldGood(image: seq<byte>)
    ensures Held(image, None) == image
  {
  }

  /** The verdict of the read-back on these bytes. */
  ghost function ReadBackStatus(flash: seq<byte>): Status
    requires |flash| == BLOCK_SIZE
  {
    var c := Parse(flash);
    if c.magic != MAGIC || c.version != VERSION then FlashWriteFailed
    else if !CrcOk(c) then CrcMismatch
    else Ok
  }

  ghost function WhyNot(c: Block): Fallback {
    if c.magic != MAGIC then BadMagic
    else if c.version != VERSION && c.version != VERSION_V2 then UnsupportedVersion
    else if !CrcOk(c) then CrcWrong
    else StructureInvalid
  }

  lemma MigratedIsTerminated(d: Drive)
    ensures Terminated(MigratedDrive(d)) == MigratedDrive(d)
  {
  }

  lemma MigratedFacts(c: Block)
    ensures CrcOk(Migrated(c)) && Migrated(c).version == VERSION && Migrated(c).magic == MAGIC
    ensures Migrated(c).(drives := TerminatedDrives(Migrated(c).drives)) == Migrated(c)
  {
    var ds := MigratedDrives(c.drives);
    SealIsOk(Block(MAGIC, VERSION, c.letter, Count(ds), [0, 0], ds, [0, 0, 0, 0]));
    hide CrcOk, Checksum, MigratedDrive, Terminated;
    forall i | 0 <= i < MAX_DRIVES ensures TerminatedDrives(ds)[i] == ds[i] { MigratedIsTerminated(c.drives[i]); }
    assert TerminatedDrives(ds) == ds;
  }

  lemma CandidateFacts(d: Drive)
    requires d.state != EMPTY
    ensures var c := Terminated(d).(reserved0 := [0, 0]);
            c.letter == d.letter && ValidateDriveRecord(c) == ValidateDriveRecord(d) && Relevant(c) == Clean(d)
  {
  }

  /** What is stored may be stored again in either configured state. */
  lemma StoredIsAcceptable(c: Block, index: nat, state: byte)
    requires ValidStructure(c) && index < MAX_DRIVES && Configured(c.drives[index]) && (state == DISABLED || state == ENABLED)
    ensures Acceptable(c, index, c.drives[index].(state := state))
  {
    hide Count;
  }

  lemma CountIsRight(c: Block)
    requires ValidStructure(c)
    ensures c.(count := Count(c.drives)) == c
  {
  }

  /** The magic number and the version are part of what the factory image fixes. */
  lemma FactoryHead(c: Block)
    requires Body(c) == Body(Defaults())
    ensures c.magic == MAGIC && c.version == VERSION
  {
    hide Body, DefaultDrive;
    SameBody(Defaults(), c.crc);
    SerializeIsInjective(c, Defaults().(crc := c.crc));
  }

  /** The fields `migrate` copies. */
  function MigrateRecord(d: Drive): (r: Drive)
    requires d.state != 0
    ensures r == MigratedDrive(d)
  {
    Terminated(Drive(ENABLED, d.letter, d.kind, d.transport, d.port, [0, 0], d.nickname, d.host, d.mountPath, d.sdPath))
  }

  lemma UnusedRecord(d: Drive)
    requires d.state == 0
    ensures MigratedDrive(d) == ZERO_DRIVE
  {
  }

  /** The checksum of a block, computed over its bytes. */
  method ComputeChecksum(c: Block) returns (sum: Quad)
    ensures sum == Checksum(c)
  {
    var crc := Crc.ComputeCrc32(Octets.Bits(Body(c)));
    sum := Octets.FromBits(Crc.WordBytes(crc));
  }

  method CheckCrc(c: Block) returns (ok: bool)
    ensures ok == CrcOk(c)
  {
    hide Body, Checksum;
    CrcOkIff(c);
    var sum := ComputeChecksum(c);
    ok := sum == c.crc;
  }
}
