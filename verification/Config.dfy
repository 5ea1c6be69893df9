/**
 * The drive configuration (sidetnfs_config.c): validation, the mutators, saving to flash, loading
 * with migration from the previous format, and the factory reset.
 */
module Config {
  import opened Words
  import opened Layout
  import Crc

  const MAGIC: dword := 0x53544446
  const VERSION: dword := 3
  const VERSION_V2: dword := 2
  const EMPTY: byte := 0
  const DISABLED: byte := 1
  const ENABLED: byte := 2
  const SD: byte := 1
  const TNFS: byte := 2
  const UDP: byte := 0
  const TCP: byte := 1

  datatype Status = Ok | InvalidIndex | EmptySlot | InvalidDriveLetter | DuplicateDriveLetter | InvalidType
                  | InvalidTransport | InvalidPort | InvalidHost | InvalidMountPath | InvalidSdPath
                  | TooManyDrives | FlashWriteFailed | CrcMismatch | InvalidDriveState

  datatype Fallback = NoFallback | BadMagic | UnsupportedVersion | CrcWrong | StructureInvalid

  // -- What a valid configuration is --------------------------------------------------------------

  predicate LetterOk(l: byte) {
    'C' as int <= l <= 'Z' as int
  }

  predicate Configured(d: Drive) {
    d.state == DISABLED || d.state == ENABLED
  }

  predicate RecordOk(d: Drive) {
    && LetterOk(d.letter)
    && if d.kind == TNFS then
         (d.transport == UDP || d.transport == TCP) && d.port != 0 && d.host[0] != NUL && d.mountPath[0] != NUL
       else d.kind == SD && d.sdPath[0] != NUL
  }

  function Count(ds: seq<Drive>): (n: nat)
    ensures n <= |ds|
  {
    if ds == [] then 0
    else Count(ds[..|ds| - 1]) + if Configured(ds[|ds| - 1]) then 1 else 0
  }

  /** Every configured record is complete, and all letters in use are different. */
  ghost predicate ValidDrives(ds: Drives, settingsLetter: byte) {
    && (forall i :: 0 <= i < MAX_DRIVES ==> ds[i].state <= ENABLED)
    && (forall i :: 0 <= i < MAX_DRIVES && Configured(ds[i]) ==> RecordOk(ds[i]) && ds[i].letter != settingsLetter)
    && (forall i, j :: 0 <= i < j < MAX_DRIVES && Configured(ds[i]) && Configured(ds[j]) ==> ds[i].letter != ds[j].letter)
  }

  ghost predicate ValidStructure(c: Block) {
    LetterOk(c.letter) && c.count == Count(c.drives) && ValidDrives(c.drives, c.letter)
  }

  /** `sidetnfs_is_valid_drive_letter`. */
  function IsValidDriveLetter(l: byte): (ok: bool)
    ensures ok <==> LetterOk(l)
  {
    if l < 'A' as int || l > 'Z' as int then false
    else if l == 'A' as int || l == 'B' as int then false
    else true
  }

  /** `sidetnfs_validate_drive_record`. */
  function ValidateDriveRecord(d: Drive): (status: Status)
    ensures status == Ok <==> RecordOk(d)
  {
    if !IsValidDriveLetter(d.letter) then InvalidDriveLetter
    else if d.kind == TNFS then
      if d.transport != UDP && d.transport != TCP then InvalidTransport
      else if d.port == 0 then InvalidPort
      else if d.host[0] == NUL then InvalidHost
      else if d.mountPath[0] == NUL then InvalidMountPath
      else Ok
    else if d.kind == SD then
      if d.sdPath[0] == NUL then InvalidSdPath else Ok
    else InvalidType
  }

  /** What is wrong with a block that is refused with `status`. */
  ghost predicate Explains(status: Status, c: Block) {
    match status
    case Ok => ValidStructure(c)
    case InvalidDriveState => exists i :: 0 <= i < MAX_DRIVES && c.drives[i].state > ENABLED
    case TooManyDrives => c.count != Count(c.drives)
    case DuplicateDriveLetter =>
      exists i :: 0 <= i < MAX_DRIVES && Configured(c.drives[i]) &&
                  (c.drives[i].letter == c.letter ||
                   exists j :: i < j < MAX_DRIVES && Configured(c.drives[j]) && c.drives[j].letter == c.drives[i].letter)
    case _ =>
      || (status == InvalidDriveLetter && !LetterOk(c.letter))
      || exists i :: 0 <= i < MAX_DRIVES && Configured(c.drives[i]) && ValidateDriveRecord(c.drives[i]) == status
  }

  lemma RefusedIsInvalid(status: Status, c: Block)
    requires Explains(status, c) && status != Ok
    ensures !ValidStructure(c)
  {
  }

  /** `sidetnfs_config_validate_structure`. */
  method ValidateStructure(c: Block) returns (status: Status)
    ensures Explains(status, c)
    ensures status == Ok <==> ValidStructure(c)
  {
    status := FirstFault(c);
    if status != Ok { RefusedIsInvalid(status, c); }
  }

  /** Nothing is wrong with record `i`, seen together with those after it. */
  ghost predicate FineFrom(c: Block, i: nat)
    requires i < MAX_DRIVES
  {
    var d := c.drives[i];
    && d.state <= ENABLED
    && (Configured(d) ==>
          && RecordOk(d) && d.letter != c.letter
          && forall j :: i < j < MAX_DRIVES && Configured(c.drives[j]) ==> c.drives[j].letter != d.letter)
  }

  method CheckRecord(c: Block, i: nat) returns (status: Status)
    requires i < MAX_DRIVES
    ensures status == Ok ==> FineFrom(c, i)
    ensures status != Ok ==> Explains(status, c)
  {
    hide RecordOk, ValidateDriveRecord, LetterOk;
    var d := c.drives[i];
    if d.state > ENABLED { return InvalidDriveState; }
    if d.state == EMPTY { return Ok; }
    var rc := ValidateDriveRecord(d);
    if rc != Ok {
      FaultyRecord(c, i);
      return rc;
    }
    if d.letter == c.letter { return DuplicateDriveLetter; }
    var clash := LetterTakenAfter(c.drives, i);
    return if clash then DuplicateDriveLetter else Ok;
  }

  method FirstFault(c: Block) returns (status: Status)
    ensures Explains(status, c)
  {
    if !IsValidDriveLetter(c.letter) { return InvalidDriveLetter; }
    if c.count > MAX_DRIVES { return TooManyDrives; }
    var configured, ds := 0, c.drives;
    assert ds[..0] == [];
    hide FineFrom, Explains;
    for i := 0 to MAX_DRIVES
      invariant configured == Count(ds[..i])
      invariant forall k :: 0 <= k < i ==> FineFrom(c, k)
    {
      assert ds[..i + 1][..i] == ds[..i];
      var fault := CheckRecord(c, i);
      if fault != Ok { return fault; }
      FineIsKnown(c, i);
      if ds[i].state != EMPTY { configured := configured + 1; }
    }
    assert ds[..MAX_DRIVES] == ds;
    AllFine(c);
    return if configured != c.count then TooManyDrives else Ok;
  }

  lemma FineIsKnown(c: Block, i: nat)
    requires i < MAX_DRIVES && FineFrom(c, i)
    ensures c.drives[i].state != EMPTY <==> Configured(c.drives[i])
  {
  }

  lemma AllFine(c: Block)
    requires LetterOk(c.letter) && forall k :: 0 <= k < MAX_DRIVES ==> FineFrom(c, k)
    ensures Explains(if Count(c.drives) != c.count then TooManyDrives else Ok, c)
  {
    hide RecordOk, Count;
    var ds := c.drives;
    forall i | 0 <= i < MAX_DRIVES
      ensures ds[i].state <= ENABLED && (Configured(ds[i]) ==> RecordOk(ds[i]) && ds[i].letter != c.letter)
    {
      assert FineFrom(c, i);
    }
    forall i, j | 0 <= i < j < MAX_DRIVES && Configured(ds[i]) && Configured(ds[j]) ensures ds[i].letter != ds[j].letter {
      assert FineFrom(c, i);
    }
  }

  /** Is the letter of record `i` used again further on? */
  method LetterTakenAfter(ds: Drives, i: nat) returns (taken: bool)
    requires i < MAX_DRIVES
    ensures taken <==> exists j :: i < j < MAX_DRIVES && Configured(ds[j]) && ds[j].letter == ds[i].letter
  {
    for j := i + 1 to MAX_DRIVES
      invariant forall k :: i < k < j && Configured(ds[k]) ==> ds[k].letter != ds[i].letter
    {
      if Configured(ds[j]) && ds[j].letter == ds[i].letter { return true; }
    }
    return false;
  }

  lemma FaultyRecord(c: Block, i: nat)
    requires i < MAX_DRIVES && Configured(c.drives[i]) && ValidateDriveRecord(c.drives[i]) != Ok
    ensures Explains(ValidateDriveRecord(c.drives[i]), c)
  {
  }

  // -- Normal forms ---------------------------------------------------------------------------------

  /** `sidetnfs_config_force_nul_termination`, for one record. */
  function Terminated(d: Drive): Drive {
    Drive(d.state, d.letter, d.kind, d.transport, d.port, d.reserved0, d.nickname[23 := NUL], d.host[63 := NUL],
          d.mountPath[31 := NUL], d.sdPath[63 := NUL])
  }

  /** The fields a record's type has no use for are zero. */
  function Relevant(d: Drive): Drive {
    if d.kind == SD then
      Drive(d.state, d.letter, d.kind, 0, 0, [0, 0], d.nickname, Zeros(64), Zeros(32), d.sdPath)
    else
      Drive(d.state, d.letter, d.kind, d.transport, d.port, [0, 0], d.nickname, d.host, d.mountPath, Zeros(64))
  }

  /** What a record keeps: nothing if empty, else the fields its type uses. */
  function Clean(d: Drive): Drive {
    if d.state == EMPTY then ZERO_DRIVE else Relevant(Terminated(d))
  }

  // -- The same, field by field ---------------------------------------------------------------------

  predicate AllZero(s: seq<byte>) {
    forall k :: 0 <= k < |s| ==> s[k] == 0
  }

  /** The text `a`, kept except for its last byte, which ends it. */
  predicate Ended(kept: seq<byte>, a: seq<byte>) {
    && |kept| == |a| > 0 && kept[|a| - 1] == 0
    && forall k :: 0 <= k < |a| - 1 ==> kept[k] == a[k]
  }

  predicate Blank(slot: Drive) {
    && slot.state == 0 && slot.letter == 0 && slot.kind == 0 && slot.transport == 0 && slot.port == 0 && slot.reserved0 == [0, 0]
    && AllZero(slot.nickname) && AllZero(slot.host) && AllZero(slot.mountPath) && AllZero(slot.sdPath)
  }

  /** The slot holds what the type of record `d` uses, an SD drive's (1) or a server's (2), and zeros elsewhere. */
  predicate Holds(slot: Drive, d: Drive) {
    if d.state == 0 then Blank(slot)
    else
      && slot.state == d.state && slot.letter == d.letter && slot.kind == d.kind && slot.reserved0 == [0, 0]
      && Ended(slot.nickname, d.nickname)
      && if d.kind == 1 then
           && slot.transport == 0 && slot.port == 0 && AllZero(slot.host) && AllZero(slot.mountPath)
           && Ended(slot.sdPath, d.sdPath)
         else
           && slot.transport == d.transport && slot.port == d.port && AllZero(slot.sdPath)
           && Ended(slot.host, d.host) && Ended(slot.mountPath, d.mountPath)
  }

  lemma CleanHolds(d: Drive)
    ensures Holds(Clean(d), d) && Blank(ZERO_DRIVE)
  {
  }

  /** A complete record in numbers: letters are C to Z, a server is 2 and reached by 0 or 1, an SD drive is 1. */
  lemma RecordByNumber(d: Drive)
    ensures Configured(d) <==> d.state in {1, 2}
    ensures RecordOk(d) <==>
              && 67 <= d.letter <= 90
              && (|| (d.kind == 2 && d.transport <= 1 && d.port > 0 && d.host[0] != 0 && d.mountPath[0] != 0)
                  || (d.kind == 1 && d.sdPath[0] != 0))
  {
  }

  function SlotsInUse(ds: seq<Drive>): set<nat> {
    set i: nat | i < |ds| && ds[i].state in {1, 2}
  }

  /** The configured records are counted. */
  lemma {:induction false} CountByNumber(ds: seq<Drive>)
    ensures Count(ds) == |SlotsInUse(ds)|
  {
    if ds == [] {
      assert SlotsInUse(ds) == {};
    } else {
      CountByNumber(ds[..|ds| - 1]);
      InUseGrows(ds);
      hide SlotsInUse;
    }
  }

  lemma InUseGrows(ds: seq<Drive>)
    requires ds != []
    ensures |SlotsInUse(ds)| == |SlotsInUse(ds[..|ds| - 1])| + if ds[|ds| - 1].state in {1, 2} then 1 else 0
  {
    var last, init := |ds| - 1, ds[..|ds| - 1];
    if ds[last].state in {1, 2} {
      assert SlotsInUse(ds) == SlotsInUse(init) + {last};
    } else {
      assert SlotsInUse(ds) == SlotsInUse(init);
    }
  }

  /** The image that is saved, field by field; its checksum is right. */
  ghost predicate SavedHolds(image: Block, c: Block) {
    && image.magic == 0x53544446 && image.version == 3 && image.letter == c.letter && image.count == c.count
    && image.reserved == [0, 0] && CrcOk(image)
    && forall i :: 0 <= i < 8 ==> Holds(image.drives[i], c.drives[i])
  }

  lemma SavedImageHolds(c: Block)
    ensures SavedHolds(SavedImage(c), c)
  {
    SealIsOk(Block(MAGIC, VERSION, c.letter, c.count, [0, 0], CleanDrives(c.drives), [0, 0, 0, 0]));
    hide Clean, Holds, CrcOk, Checksum;
    forall i | 0 <= i < 8 ensures Holds(SavedImage(c).drives[i], c.drives[i]) {
      CleanHolds(c.drives[i]);
    }
  }

  lemma CleanKeepsRecords(d: Drive)
    ensures Clean(d).state == d.state
    ensures d.state != EMPTY ==> Clean(d).letter == d.letter && Clean(d).kind == d.kind
    ensures d.state != EMPTY && RecordOk(d) ==> RecordOk(Clean(d))
    ensures Clean(Clean(d)) == Clean(d) && Terminated(Clean(d)) == Clean(d)
  {
  }

  lemma TerminatedKeepsRecords(d: Drive)
    ensures Terminated(d).state == d.state && Terminated(d).letter == d.letter
    ensures RecordOk(Terminated(d)) <==> RecordOk(d)
  {
  }

  function CleanDrives(ds: Drives): (r: Drives)
    ensures forall i :: 0 <= i < MAX_DRIVES ==> r[i] == Clean(ds[i])
  {
    seq(MAX_DRIVES, i requires 0 <= i < MAX_DRIVES => Clean(ds[i]))
  }

  function TerminatedDrives(ds: Drives): (r: Drives)
    ensures forall i :: 0 <= i < MAX_DRIVES ==> r[i] == Terminated(ds[i])
  {
    seq(MAX_DRIVES, i requires 0 <= i < MAX_DRIVES => Terminated(ds[i]))
  }

  function Seal(c: Block): Block {
    c.(crc := Checksum(c))
  }

  /** The image that is saved for a configuration. */
  function SavedImage(c: Block): Block {
    Seal(Block(MAGIC, VERSION, c.letter, c.count, [0, 0], CleanDrives(c.drives), [0, 0, 0, 0]))
  }

  /** What the loader makes of a version 2 record: its first byte only said used or not. */
  function MigratedDrive(d: Drive): Drive {
    if d.state == 0 then ZERO_DRIVE
    else
      Terminated(Drive(ENABLED, d.letter, d.kind, d.transport, d.port, [0, 0], d.nickname, d.host, d.mountPath, d.sdPath))
  }

  function MigratedDrives(ds: Drives): (r: Drives)
    ensures forall i :: 0 <= i < MAX_DRIVES ==> r[i] == MigratedDrive(ds[i])
  {
    seq(MAX_DRIVES, i requires 0 <= i < MAX_DRIVES => MigratedDrive(ds[i]))
  }

  function Migrated(c: Block): Block {
    var ds := MigratedDrives(c.drives);
    Seal(Block(MAGIC, VERSION, c.letter, Count(ds), [0, 0], ds, [0, 0, 0, 0]))
  }

  function Field(s: string, n: nat): (b: seq<byte>)
    requires |s| <= n && forall k :: 0 <= k < |s| ==> (s[k] as int) < 128
    ensures |b| == n
    ensures forall k :: 0 <= k < n ==> b[k] == if k < |s| then s[k] as int else NUL
  {
    seq(n, k requires 0 <= k < n => if k < |s| then s[k] as int else NUL)
  }

  function DefaultDrive(): Drive {
    Drive(ENABLED, 'N' as int, TNFS, UDP, 16384, [0, 0], Field("Retroloft TNFS", 24),
          Field("retroloft.net", 64), Field("/ATARI.ST", 32), Zeros(64))
  }

  function Defaults(): Block {
    Block(MAGIC, VERSION, 'S' as int, 1, [0, 0], seq(MAX_DRIVES, _ => ZERO_DRIVE)[0 := DefaultDrive()], [0, 0, 0, 0])
  }

  /** The factory settings: drive N is a server's, the settings drive is S, and nothing else is configured. */
  lemma DefaultsByNumber()
    ensures var c, d := Defaults(), Defaults().drives[0];
            && c.magic == 0x53544446 && c.version == 3 && c.letter == 83 && c.count == 1
            && d.state == 2 && d.letter == 78 && d.kind == 2 && d.transport == 0 && d.port == 16384
            && d.host[..14] == [114, 101, 116, 114, 111, 108, 111, 102, 116, 46, 110, 101, 116, 0]
            && d.mountPath[..10] == [47, 65, 84, 65, 82, 73, 46, 83, 84, 0]
            && forall i :: 1 <= i < 8 ==> Blank(c.drives[i])
  {
    CleanHolds(DefaultDrive());
  }

  // -- Facts about the normal forms -----------------------------------------------------------------

  lemma {:induction false} CountSame(a: seq<Drive>, b: seq<Drive>)
    requires |a| == |b| && forall i :: 0 <= i < |a| ==> Configured(a[i]) == Configured(b[i])
    ensures Count(a) == Count(b)
  {
    if a != [] { CountSame(a[..|a| - 1], b[..|b| - 1]); }
  }

  /** A record-wise change that keeps states, letters and completeness keeps the configuration valid. */
  lemma SameShapeIsValid(c: Block, c': Block)
    requires ValidStructure(c) && c'.letter == c.letter && c'.count == c.count
    requires forall i :: 0 <= i < MAX_DRIVES ==> c'.drives[i].state == c.drives[i].state
    requires forall i :: 0 <= i < MAX_DRIVES && Configured(c.drives[i]) ==>
               c'.drives[i].letter == c.drives[i].letter && RecordOk(c'.drives[i])
    ensures ValidStructure(c')
  {
    CountSame(c.drives, c'.drives);
  }

  lemma CleanDrivesFacts(ds: Drives)
    ensures forall i :: 0 <= i < MAX_DRIVES ==> CleanDrives(ds)[i].state == ds[i].state
    ensures forall i :: 0 <= i < MAX_DRIVES && Configured(ds[i]) ==> CleanDrives(ds)[i].letter == ds[i].letter
    ensures forall i :: 0 <= i < MAX_DRIVES && Configured(ds[i]) && RecordOk(ds[i]) ==> RecordOk(CleanDrives(ds)[i])
    ensures CleanDrives(CleanDrives(ds)) == CleanDrives(ds) && TerminatedDrives(CleanDrives(ds)) == CleanDrives(ds)
  {
    hide Clean, RecordOk, Terminated;
    forall i | 0 <= i < MAX_DRIVES
      ensures CleanDrives(ds)[i].state == ds[i].state
      ensures Configured(ds[i]) ==> CleanDrives(ds)[i].letter == ds[i].letter
      ensures Configured(ds[i]) && RecordOk(ds[i]) ==> RecordOk(CleanDrives(ds)[i])
      ensures CleanDrives(CleanDrives(ds))[i] == CleanDrives(ds)[i] == TerminatedDrives(CleanDrives(ds))[i]
    {
      CleanKeepsRecords(ds[i]);
    }
  }

  lemma SavedImageIsValid(c: Block)
    requires ValidStructure(c)
    ensures ValidStructure(SavedImage(c)) && CrcOk(SavedImage(c))
  {
    CleanDrivesFacts(c.drives);
    SealIsOk(Block(MAGIC, VERSION, c.letter, c.count, [0, 0], CleanDrives(c.drives), [0, 0, 0, 0]));
    hide Clean, RecordOk, CrcOk, Count, Checksum;
    SameShapeIsValid(c, SavedImage(c));
  }

  lemma SealIsOk(c: Block)
    ensures CrcOk(Seal(c))
  {
    hide CrcOk, Checksum, Body;
    SameBody(c, Checksum(c));
    CrcOkIff(Seal(c));
    ChecksumOfBody(c, Seal(c));
  }

  lemma ChecksumOfBody(a: Block, b: Block)
    requires Body(a) == Body(b)
    ensures Checksum(a) == Checksum(b)
  {
  }

  lemma TerminatedIsValid(c: Block)
    requires ValidStructure(c)
    ensures ValidStructure(c.(drives := TerminatedDrives(c.drives)))
  {
    var c' := c.(drives := TerminatedDrives(c.drives));
    forall i | 0 <= i < MAX_DRIVES
      ensures c'.drives[i].state == c.drives[i].state && c'.drives[i].letter == c.drives[i].letter
      ensures RecordOk(c'.drives[i]) <==> RecordOk(c.drives[i])
    {
      TerminatedKeepsRecords(c.drives[i]);
    }
    hide Terminated, RecordOk, Count;
    SameShapeIsValid(c, c');
  }

  lemma DefaultsAreValid()
    ensures ValidStructure(Defaults())
  {
    var ds := Defaults().drives;
    CountNone(ds, 1);
    CountOne(ds);
  }

  lemma {:induction false} CountNone(ds: seq<Drive>, from: nat)
    requires from <= |ds| && forall i :: from <= i < |ds| ==> !Configured(ds[i])
    ensures Count(ds) == Count(ds[..from])
  {
    if |ds| > from {
      CountNone(ds[..|ds| - 1], from);
      assert ds[..|ds| - 1][..from] == ds[..from];
    } else {
      assert ds[..from] == ds;
    }
  }

  lemma CountOne(ds: seq<Drive>)
    requires |ds| >= 1
    ensures Count(ds[..1]) == if Configured(ds[0]) then 1 else 0
  {
    assert ds[..1][..0] == [];
  }

  // -- What the loader does with a flash block ------------------------------------------------------

  /** The configuration a block stands for, if it is to be trusted. */
  ghost function Trusted(c: Block): Option<Block> {
    if c.magic != MAGIC || !CrcOk(c) then None
    else if c.version == VERSION_V2 then
      if ValidStructure(Migrated(c)) then Some(Migrated(c)) else None
    else if c.version == VERSION && ValidStructure(c) then
      Some(c.(drives := TerminatedDrives(c.drives)))
    else None
  }

  /** The configuration the bytes in flash stand for. */
  ghost function Loaded(flash: seq<byte>): Option<Block>
    requires |flash| == BLOCK_SIZE
  {
    Trusted(Parse(flash))
  }

  lemma TrustedIsValid(c: Block)
    requires Trusted(c).Some?
    ensures ValidStructure(Trusted(c).value)
  {
    hide CrcOk, ValidStructure, Migrated;
    if c.version == VERSION { TerminatedIsValid(c); }
  }

  lemma SavedImageIsTrusted(c: Block)
    requires ValidStructure(c)
    ensures Trusted(SavedImage(c)) == Some(SavedImage(c))
  {
    SavedImageIsValid(c);
    CleanDrivesFacts(c.drives);
    hide CleanDrives, TerminatedDrives, CrcOk, ValidStructure, Checksum;
  }

  /** Saving and loading again gives back the saved image, byte for byte. */
  lemma SavedImageLoads(c: Block)
    requires ValidStructure(c)
    ensures Loaded(Serialize(SavedImage(c))) == Some(SavedImage(c))
  {
    hide Parse, Serialize, Trusted, SavedImage, ValidStructure;
    SavedImageIsTrusted(c);
    ParseSerialize(SavedImage(c));
  }

  /** Cleaning is for good: saving what was saved changes nothing. */
  lemma SavedImageIsStable(c: Block)
    ensures SavedImage(SavedImage(c)) == SavedImage(c)
  {
    CleanDrivesFacts(c.drives);
    hide CleanDrives, Checksum;
  }

  /** The used records of an old block are complete and have letters of their own. */
  ghost predicate UsedOk(ds: Drives, settingsLetter: byte) {
    && (forall i :: 0 <= i < MAX_DRIVES && ds[i].state != 0 ==> RecordOk(ds[i]) && ds[i].letter != settingsLetter)
    && (forall i, j :: 0 <= i < j < MAX_DRIVES && ds[i].state != 0 && ds[j].state != 0 ==> ds[i].letter != ds[j].letter)
  }

  /** The old format: a record is used or not, and every used one is to be complete and of its own letter. */
  ghost predicate ValidV2(c: Block) {
    LetterOk(c.letter) && UsedOk(c.drives, c.letter)
  }

  lemma MigratedDriveFacts(d: Drive)
    ensures Configured(MigratedDrive(d)) <==> d.state != 0
    ensures MigratedDrive(d).state == if d.state != 0 then ENABLED else EMPTY
    ensures d.state != 0 ==> MigratedDrive(d).letter == d.letter && (RecordOk(MigratedDrive(d)) <==> RecordOk(d))
  {
  }

  lemma MigratedIsValid(c: Block)
    ensures ValidStructure(Migrated(c)) <==> ValidV2(c)
  {
    var ds, ms := c.drives, MigratedDrives(c.drives);
    forall i | 0 <= i < MAX_DRIVES
      ensures (Configured(ms[i]) <==> ds[i].state != 0) && ms[i].state <= ENABLED
      ensures ds[i].state != 0 ==> ms[i].letter == ds[i].letter && (RecordOk(ms[i]) <==> RecordOk(ds[i]))
    {
      MigratedDriveFacts(ds[i]);
    }
    hide MigratedDrive, RecordOk, Checksum, Configured, Count, ValidDrives, UsedOk, Migrated, ValidStructure;
    MigratedStructure(c);
    MigratedLetters(ds, ms, c.letter);
  }

  lemma MigratedStructure(c: Block)
    ensures ValidStructure(Migrated(c)) <==> LetterOk(c.letter) && ValidDrives(MigratedDrives(c.drives), c.letter)
  {
    hide MigratedDrive, RecordOk, Checksum, Configured, Count;
  }

  lemma MigratedLetters(ds: Drives, ms: Drives, letter: byte)
    requires forall i :: 0 <= i < MAX_DRIVES ==>
               && (Configured(ms[i]) <==> ds[i].state != 0) && ms[i].state <= ENABLED
               && (ds[i].state != 0 ==> ms[i].letter == ds[i].letter && (RecordOk(ms[i]) <==> RecordOk(ds[i])))
    ensures ValidDrives(ms, letter) <==> UsedOk(ds, letter)
  {
    hide RecordOk, Configured;
  }

  /** A version 2 block with a right checksum loads exactly if its records are valid. */
  lemma V2BlocksLoad(c: Block)
    requires c.magic == 0x53544446 && c.version == 2 && CrcOk(c)
    ensures Loaded(Serialize(c)).Some? <==> ValidV2(c)
    ensures ValidV2(c) ==> Loaded(Serialize(c)) == Some(Migrated(c))
  {
    hide CrcOk, ValidStructure, ValidV2, Migrated, Parse, Serialize;
    ParseSerialize(c);
    MigratedIsValid(c);
  }

  /** Nothing of a used record is lost, except that its strings are made to end. */
  lemma MigrationPreserves(c: Block, i: nat)
    requires i < MAX_DRIVES
    ensures var d, m := c.drives[i], Migrated(c).drives[i];
            && (m.state == ENABLED <==> d.state != 0)
            && (d.state == 0 ==> m == ZERO_DRIVE)
            && (d.state != 0 ==>
                  && m.letter == d.letter && m.kind == d.kind && m.transport == d.transport && m.port == d.port
                  && m.nickname[..23] == d.nickname[..23] && m.host[..63] == d.host[..63]
                  && m.mountPath[..31] == d.mountPath[..31] && m.sdPath[..63] == d.sdPath[..63]
                  && m.nickname[23] == m.host[63] == m.mountPath[31] == m.sdPath[63] == NUL)
    ensures Migrated(c).letter == c.letter
  {
    hide Checksum;
  }

  /** A trusted block of either version that suffers a burst of up to four bytes is not trusted any more. */
  lemma DamagedBlocksAreRefused(good: seq<byte>, bad: seq<byte>)
    requires |good| == |bad| == BLOCK_SIZE && BurstApart(good, bad) && Loaded(good).Some?
    ensures Loaded(bad) == None
  {
    BurstsBreakTheChecksum(good, bad);
  }

  /** The factory image, up to its checksum. */
  ghost predicate IsFactoryImage(flash: seq<byte>)
    requires |flash| == BLOCK_SIZE
  {
    CrcOk(Parse(flash)) && Body(Parse(flash)) == Body(Defaults())
  }

  lemma DefaultsAreClean()
    ensures CleanDrives(Defaults().drives) == Defaults().drives
    ensures TerminatedDrives(Defaults().drives) == Defaults().drives
  {
    DefaultDriveIsClean();
    hide Clean, Terminated, DefaultDrive;
  }

  lemma DefaultDriveIsClean()
    ensures Clean(DefaultDrive()) == DefaultDrive() && Clean(ZERO_DRIVE) == ZERO_DRIVE
    ensures Terminated(DefaultDrive()) == DefaultDrive() && Terminated(ZERO_DRIVE) == ZERO_DRIVE
  {
  }

  lemma SavedDefaults()
    ensures SavedImage(Defaults()) == Defaults().(crc := Checksum(Defaults()))
  {
    DefaultsAreClean();
    var d := Defaults();
    hide CleanDrives, Body;
    SameBody(d, [0, 0, 0, 0]);
  }

  lemma SavedDefaultsAreFactory()
    ensures IsFactoryImage(Serialize(SavedImage(Defaults())))
  {
    DefaultsAreValid();
    SavedImageIsValid(Defaults());
    SavedDefaults();
    hide *;
    ParseSerialize(SavedImage(Defaults()));
    SameBody(Defaults(), Checksum(Defaults()));
    FactoryImageIs(Serialize(SavedImage(Defaults())));
  }

  lemma FactoryImageIs(flash: seq<byte>)
    requires |flash| == BLOCK_SIZE
    ensures IsFactoryImage(flash) <==> CrcOk(Parse(flash)) && Body(Parse(flash)) == Body(Defaults())
  {
  }

  /** What flash holds when it matches the factory image is what the loader would fall back to anyway. */
  lemma FactoryImageLoadsDefaults(flash: seq<byte>)
    requires |flash| == BLOCK_SIZE && IsFactoryImage(flash)
    ensures Loaded(flash) == Some(Defaults().(crc := Parse(flash).crc))
  {
    var c, d := Parse(flash), Defaults();
    hide CrcOk, Body, Parse, Defaults, Trusted;
    SameBody(d, c.crc);
    SerializeIsInjective(c, d.(crc := c.crc));
    DefaultsAreTrusted(c);
  }

  lemma DefaultsAreTrusted(c: Block)
    requires CrcOk(c) && c == Defaults().(crc := c.crc)
    ensures Trusted(c) == Some(c)
  {
    DefaultsAreValid();
    DefaultsAreClean();
    DefaultsHead();
    hide CrcOk, Checksum, DefaultDrive, Body, Defaults, TerminatedDrives;
  }

  lemma DefaultsHead()
    ensures Defaults().magic == MAGIC && Defaults().version == VERSION
  {
  }
}
