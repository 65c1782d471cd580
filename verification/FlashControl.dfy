/** flash_control.c: the erase, write, save, load and area-copy routines, over a flash whose every change
    is one erase or program operation. Each routine says exactly which operations it performs, so the flash
    after a power cut in the middle of it is the flash after a prefix of those operations. */
module FlashControl {
  import opened Wrappers
  import opened NorFlash

  // The address map of flash_control.h.
  const BOOT_LOADER_SIZE := 0x4_0000
  const APPLICATION_SIZE := 0x8_0000

  const FLASH_START_ADDR := 0x1000_0000
  const FLASH_BOOT_START_ADDR := FLASH_START_ADDR
  const FLASH_APP_START_ADDR := FLASH_BOOT_START_ADDR + BOOT_LOADER_SIZE
  const FLASH_FACTORY_FW_START_ADDR := FLASH_APP_START_ADDR + APPLICATION_SIZE
  const FLASH_TEMP_FW_START_ADDR := FLASH_FACTORY_FW_START_ADDR + APPLICATION_SIZE
  const FLASH_COMMON_CONFIG_START_ADDR := FLASH_TEMP_FW_START_ADDR + APPLICATION_SIZE
  const FLASH_CLAIM_CERT_INFO_START_ADDR := FLASH_COMMON_CONFIG_START_ADDR + 0x2000
  const FLASH_PROVISIONED_CERT_INFO_START_ADDR := FLASH_CLAIM_CERT_INFO_START_ADDR + 0x1000
  const FLASH_PROVISIONED_OWNERSHIP_START_ADDR := FLASH_PROVISIONED_CERT_INFO_START_ADDR + 0x1000
  const FLASH_PROVISIONED_CERT_ID_START_ADDR := FLASH_PROVISIONED_OWNERSHIP_START_ADDR + 0x0200

  /** The three areas that hold a firmware image. */
  datatype Area = App | Factory | Ota {
    /** Offset of the area in the flash. */
    function Start(): nat {
      match this
      case App => FLASH_APP_START_ADDR - FLASH_START_ADDR
      case Factory => FLASH_FACTORY_FW_START_ADDR - FLASH_START_ADDR
      case Ota => FLASH_TEMP_FW_START_ADDR - FLASH_START_ADDR
    }

    function Sector(): (s: nat)
      ensures 4096 * s == Start()
    {
      Start() / 4096
    }

    function End(): (e: nat)
      ensures e <= CHIP_SIZE && e == 4096 * (Sector() + IMAGE_SECTORS)
    {
      Start() + APPLICATION_SIZE
    }
  }

  /** From the start of the download area to the end of the chip. */
  const OTA_ROOM: nat := CHIP_SIZE - (FLASH_TEMP_FW_START_ADDR - FLASH_START_ADDR)

  /** Sectors in an image area. */
  const IMAGE_SECTORS: nat := 128

  // The other areas, as offsets into the flash.
  const CONFIG: nat := FLASH_COMMON_CONFIG_START_ADDR - FLASH_START_ADDR
  const CERT: nat := FLASH_PROVISIONED_CERT_INFO_START_ADDR - FLASH_START_ADDR
  const OWNERSHIP: nat := FLASH_PROVISIONED_OWNERSHIP_START_ADDR - FLASH_START_ADDR
  const CERT_ID: nat := FLASH_PROVISIONED_CERT_ID_START_ADDR - FLASH_START_ADDR

  const CONFIG_SECTOR: nat := 0x1C0
  const CERT_SECTOR: nat := 0x1C3

  /** sizeof(AWS_FP_DEVICE_CERT_INFO_t): two PEM texts of 2048 bytes, a token of 512, an id of 256. */
  const CERT_INFO_SIZE: nat := 0x1300
  const TOKEN_SIZE: nat := 0x0200
  const ID_SIZE: nat := 0x0100

  /** sizeof(APP_COMMON_t) may not reach the claim certificate area. */
  const CONFIG_LIMIT: nat := 0x2000

  function Uint16(n: nat): nat {
    n % 0x1_0000
  }

  /** Whole pages, and whole sectors, that it takes to hold size bytes. */
  function Pages(size: nat): nat {
    size / 256 + (if size % 256 > 0 then 1 else 0)
  }

  function Sectors(size: nat): nat {
    size / 4096 + (if size % 4096 > 0 then 1 else 0)
  }

  lemma PagesCover(size: nat)
    ensures size <= 256 * Pages(size) < size + 256
  {}

  lemma SectorsCover(size: nat)
    ensures size <= 4096 * Sectors(size) < size + 4096
  {}

  lemma SectorsCoverPages(size: nat)
    ensures 256 * Pages(size) <= 4096 * Sectors(size)
  {
    PagesCover(size);
    SectorsCover(size);
    var p: int, s: int := Pages(size), Sectors(size);
    assert 256 * (p - 16 * s) < 256;
  }

  /** The operations that erase room for size bytes from the start of a sector and write them there. The buffer
      is read up to the end of the last page, past the size asked for. */
  function SaveOps(sector: nat, buffer: Bytes, size: nat): seq<FlashOp>
    requires 4096 * (sector + Sectors(size)) <= CHIP_SIZE && 256 * Pages(size) <= |buffer|
  {
    SectorsCoverPages(size);
    RewriteOps(sector, Sectors(size), buffer[..256 * Pages(size)], Pages(size))
  }

  lemma AreasDisjoint(to: Area, from: Area, n: nat)
    requires to != from && n <= APPLICATION_SIZE
    ensures CanCopy(to.Sector(), IMAGE_SECTORS, from.Start(), Pages(n))
  {
    PagesCover(n);
  }

  /** The operations that replace an image area with the first n bytes, in whole pages, of another. */
  function CopyOps(m: Memory, to: Area, from: Area, n: nat): seq<FlashOp>
    requires to != from && n <= APPLICATION_SIZE
  {
    AreasDisjoint(to, from, n);
    CopyRangeOps(m, to.Sector(), IMAGE_SECTORS, from.Start(), Pages(n))
  }

  /** The copy routines do not check the size they are given. The page count they arrive at both stays inside the
      area and reaches the end of the image exactly for sizes up to that of an area. */
  lemma CopySizeExactly(n: nat)
    ensures 256 * Uint16(Pages(n)) <= APPLICATION_SIZE && n <= 256 * Uint16(Pages(n)) <==> n <= APPLICATION_SIZE
  {
    PagesCover(n);
    if Pages(n) < 0x1_0000 {
      assert Uint16(Pages(n)) == Pages(n);
    }
  }

  /** The load_* routines: size bytes of flash. */
  function Load(m: Memory, offset: nat, size: nat): (bytes: Bytes)
    requires offset + size <= CHIP_SIZE
    ensures |bytes| == size
  {
    m[offset..offset + size]
  }

  /** The rounding-up that every routine does for itself, in a 16-bit counter. */
  method PageCount(dataSize: nat) returns (writePageCount: nat)
    ensures writePageCount == Uint16(Pages(dataSize))
    ensures dataSize <= CHIP_SIZE ==> writePageCount == Pages(dataSize)
  {
    writePageCount := Uint16(dataSize / PAGE_SIZE);
    if dataSize % PAGE_SIZE > 0 {
      writePageCount := Uint16(writePageCount + 1);
    }
  }

  method SectorCount(dataSize: nat) returns (eraseSectorCount: nat)
    ensures eraseSectorCount == Uint16(Sectors(dataSize))
    ensures dataSize <= CHIP_SIZE ==> eraseSectorCount == Sectors(dataSize)
  {
    eraseSectorCount := Uint16(dataSize / SECTOR_SIZE);
    if dataSize % SECTOR_SIZE > 0 {
      eraseSectorCount := Uint16(eraseSectorCount + 1);
    }
  }

  class FlashDevice {
    const cells: array<bv8>
    ghost const initial: Memory
    ghost var log: seq<FlashOp>

    ghost predicate Valid()
      reads this, cells
    {
      cells.Length == CHIP_SIZE && cells[..] == ApplyAll(initial, log)
    }

    ghost function Contents(): Memory
      requires Valid()
      reads this, cells
    {
      cells[..]
    }

    /** Between the old state and now, exactly these operations were performed, in this order. By Valid the
        flash is then what these operations make of the old flash, and at every moment in between it was
        what a prefix of them makes of it (ApplyAllAppend). */
    twostate predicate Performed(ops: seq<FlashOp>)
      reads this, cells
    {
      Valid() && log == old(log) + ops
    }

    constructor (contents: array<bv8>)
      requires contents.Length == CHIP_SIZE
      ensures Valid() && cells == contents && log == [] && Contents() == contents[..]
    {
      cells := contents;
      initial := contents[..];
      log := [];
    }

    // The ghost arguments number the sector or page that an offset is the start of.

    method EraseSector(offset: nat, ghost sector: nat)
      requires Valid() && offset == 4096 * sector && Erase(sector).Legal()
      modifies this, cells
      ensures Performed([Erase(sector)])
    {
      ghost var before, op: FlashOp := Contents(), Erase(sector);
      forall i | offset <= i < offset + SECTOR_SIZE {
        cells[i] := 0xFF;
      }
      assert forall i | op.Start() <= i < op.End() :: cells[i] == 0xFF;
      assert cells[..] == Apply(before, op);
      ApplyOne(initial, log, op);
      log := log + [op];
    }

    method ProgramPage(offset: nat, data: Bytes, ghost page: nat)
      requires Valid() && offset == 256 * page && Program(page, data).Legal()
      modifies this, cells
      ensures Performed([Program(page, data)])
    {
      ghost var before, op: FlashOp := Contents(), Program(page, data);
      forall i | offset <= i < offset + PAGE_SIZE {
        cells[i] := cells[i] & data[i - offset];
      }
      assert forall i | op.Start() <= i < op.End() :: cells[i] == before[i] & data[i - op.Start()];
      assert cells[..] == Apply(before, op);
      ApplyOne(initial, log, op);
      log := log + [op];
    }

    /** The SDK's flash_range_erase: sector by sector. */
    method RangeErase(offset: nat, count: nat, ghost sector: nat)
      requires Valid() && offset == 4096 * sector && 4096 * (sector + count) <= CHIP_SIZE
      modifies this, cells
      ensures Performed(EraseOps(sector, count))
    {
      for i := 0 to count
        invariant Performed(EraseOps(sector, i))
      {
        EraseSector(offset + SECTOR_SIZE * i, sector + i);
        assert EraseOps(sector, i + 1) == EraseOps(sector, i) + [Erase(sector + i)];
      }
    }

    /** The SDK's flash_range_program: page by page. */
    method RangeProgram(offset: nat, data: Bytes, count: nat, ghost page: nat)
      requires Valid() && offset == 256 * page && |data| == 256 * count && offset + |data| <= CHIP_SIZE
      modifies this, cells
      ensures Performed(ProgramOps(page, data, count))
    {
      hide PageOf, ApplyAll, ProgramOps;
      ghost var ops := ProgramOps(page, data, count);
      for i := 0 to count
        invariant Performed(ops[..i])
      {
        ProgramAt(page, data, count, i);
        ProgramPage(offset + PAGE_SIZE * i, PageOf(data, i), page + i);
        assert ops[..i + 1] == ops[..i] + [ops[i]];
      }
      assert ops[..count] == ops;
    }

    method EraseFlash(offset: nat, dataSize: nat, ghost sector: nat)
      requires Valid() && offset == 4096 * sector && 4096 * (sector + Sectors(dataSize)) <= CHIP_SIZE
      modifies this, cells
      ensures Performed(EraseOps(sector, Sectors(dataSize)))
    {
      var eraseSectorCount := SectorCount(dataSize);
      RangeErase(offset, eraseSectorCount, sector);
    }

    /** pData is the memory the pointer may be read from: the last page is read in full. */
    method WriteFlash(offset: nat, pData: Bytes, dataSize: nat, ghost page: nat)
      requires Valid() && offset == 256 * page && offset + 256 * Pages(dataSize) <= CHIP_SIZE
      requires 256 * Pages(dataSize) <= |pData|
      modifies this, cells
      ensures Performed(ProgramOps(page, pData[..256 * Pages(dataSize)], Pages(dataSize)))
    {
      var writePageCount := PageCount(dataSize);
      RangeProgram(offset, pData[..PAGE_SIZE * writePageCount], writePageCount, page);
    }

    /** Erase room for a struct, then write it: the shape of both save_* routines. */
    method Save(offset: nat, pData: Bytes, dataSize: nat, ghost sector: nat)
      requires Valid() && offset == 4096 * sector && 4096 * (sector + Sectors(dataSize)) <= CHIP_SIZE
      requires 256 * Pages(dataSize) <= |pData|
      modifies this, cells
      ensures Performed(SaveOps(sector, pData, dataSize))
    {
      SectorsCoverPages(dataSize);
      EraseFlash(offset, dataSize, sector);
      WriteFlash(offset, pData, dataSize, 16 * sector);
    }

    method SaveCommonConfig(pAppCommonInfo: Bytes, size: nat)
      requires Valid() && size <= CONFIG_LIMIT && 256 * Pages(size) <= |pAppCommonInfo|
      modifies this, cells
      ensures Performed(SaveOps(CONFIG_SECTOR, pAppCommonInfo, size))
      ensures SavedAt(old(Contents()), Contents(), 0x1C_0000, pAppCommonInfo, size)
    {
      SaveStores(Contents(), CONFIG_SECTOR, pAppCommonInfo, size);
      ApplyAllAppend(initial, log, SaveOps(CONFIG_SECTOR, pAppCommonInfo, size));
      Save(CONFIG, pAppCommonInfo, size, CONFIG_SECTOR);
    }

    method SaveProvisionedCertInfo(pFpCertInfo: Bytes)
      requires Valid() && |pFpCertInfo| == CERT_INFO_SIZE
      modifies this, cells
      ensures Performed(SaveOps(CERT_SECTOR, pFpCertInfo, CERT_INFO_SIZE))
      ensures SavedAt(old(Contents()), Contents(), 0x1C_3000, pFpCertInfo, 0x1300)
    {
      SaveStores(Contents(), CERT_SECTOR, pFpCertInfo, CERT_INFO_SIZE);
      ApplyAllAppend(initial, log, SaveOps(CERT_SECTOR, pFpCertInfo, CERT_INFO_SIZE));
      Save(CERT, pFpCertInfo, CERT_INFO_SIZE, CERT_SECTOR);
    }

    method LoadBytes(offset: nat, size: nat) returns (bytes: Bytes)
      requires Valid() && offset + size <= CHIP_SIZE
      ensures bytes == Load(Contents(), offset, size)
    {
      bytes := cells[offset..offset + size];
    }

    /** write_flash_ota_binary: one downloaded chunk. Nothing keeps it inside the download area. */
    method WriteOtaBinary(flashOffset: nat, pBinary: Bytes, dataSize: nat, ghost page: nat)
      requires Valid() && flashOffset == 256 * page && flashOffset + 256 * Pages(dataSize) <= OTA_ROOM
      requires 256 * Pages(dataSize) <= |pBinary|
      modifies this, cells
      ensures Performed(ProgramOps(16 * Ota.Sector() + page, pBinary[..256 * Pages(dataSize)], Pages(dataSize)))
    {
      WriteFlash(Ota.Start() + flashOffset, pBinary, dataSize, 16 * Ota.Sector() + page);
    }

    /** The loop shared by the three copy_* routines: erase the target area, then copy page by page. */
    method CopyArea(to: Area, from: Area, dataSize: nat)
      requires Valid() && to != from && dataSize <= APPLICATION_SIZE
      modifies this, cells
      ensures Performed(CopyOps(old(Contents()), to, from, dataSize))
    {
      ghost var ops := CopyOps(Contents(), to, from, dataSize);
      AreasDisjoint(to, from, dataSize);
      forall i | 0 <= i < Pages(dataSize)
        ensures CopiesPage(initial, log, ops, IMAGE_SECTORS, 16 * to.Sector(), from.Start(), i)
      {
        CopiesEachPage(initial, log, to.Sector(), IMAGE_SECTORS, from.Start(), Pages(dataSize), i);
      }
      assert ops[..IMAGE_SECTORS] == EraseOps(to.Sector(), IMAGE_SECTORS);
      EraseFlash(to.Start(), APPLICATION_SIZE, to.Sector());
      var writePageCount := PageCount(dataSize);
      CopyPages(to.Start(), from.Start(), writePageCount, old(log), ops, 16 * to.Sector());
    }

    method CopyOnePage(appAreaOffset: nat, otherOffset: nat, ghost page: nat)
      requires Valid() && appAreaOffset == 256 * page && appAreaOffset + 256 <= CHIP_SIZE
      requires otherOffset + 256 <= CHIP_SIZE
      modifies this, cells
      ensures Performed([Program(page, ApplyAll(initial, old(log))[otherOffset..otherOffset + 256])])
    {
      var tempBuffer := cells[otherOffset..otherOffset + PAGE_SIZE];
      ProgramPage(appAreaOffset, tempBuffer, page);
    }

    /** The page loop of the copy routines; before is the log when the copy began. */
    method CopyPages(to: nat, from: nat, writePageCount: nat, ghost before: seq<FlashOp>, ghost ops: seq<FlashOp>,
                     ghost page: nat)
      requires Valid() && to == 256 * page
      requires |ops| == IMAGE_SECTORS + writePageCount && log == before + ops[..IMAGE_SECTORS]
      requires forall i | 0 <= i < writePageCount :: CopiesPage(initial, before, ops, IMAGE_SECTORS, page, from, i)
      modifies this, cells
      ensures Valid() && log == before + ops
    {
      var appAreaOffset := to;
      for i := 0 to writePageCount
        invariant appAreaOffset == to + 256 * i
        invariant Valid() && log == before + ops[..IMAGE_SECTORS + i]
      {
        assert CopiesPage(initial, before, ops, IMAGE_SECTORS, page, from, i);
        CopyOnePage(appAreaOffset, from + i * PAGE_SIZE, page + i);
        appAreaOffset := appAreaOffset + PAGE_SIZE;
      }
      assert ops[..IMAGE_SECTORS + writePageCount] == ops;
    }

    method CopyOtaToApp(dataSize: nat)
      requires Valid() && dataSize <= APPLICATION_SIZE
      modifies this, cells
      ensures Performed(CopyOps(old(Contents()), App, Ota, dataSize))
      ensures Moved(old(Contents()), Contents(), 0x4_0000, 0x14_0000, dataSize)
    {
      CopyMoves(Contents(), App, Ota, dataSize);
      ApplyAllAppend(initial, log, CopyOps(Contents(), App, Ota, dataSize));
      CopyArea(App, Ota, dataSize);
    }

    method CopyFactoryToApp(dataSize: nat)
      requires Valid() && dataSize <= APPLICATION_SIZE
      modifies this, cells
      ensures Performed(CopyOps(old(Contents()), App, Factory, dataSize))
      ensures Moved(old(Contents()), Contents(), 0x4_0000, 0xC_0000, dataSize)
    {
      CopyMoves(Contents(), App, Factory, dataSize);
      ApplyAllAppend(initial, log, CopyOps(Contents(), App, Factory, dataSize));
      CopyArea(App, Factory, dataSize);
    }

    method CopyAppToFactory(dataSize: nat)
      requires Valid() && dataSize <= APPLICATION_SIZE
      modifies this, cells
      ensures Performed(CopyOps(old(Contents()), Factory, App, dataSize))
      ensures Moved(old(Contents()), Contents(), 0xC_0000, 0x4_0000, dataSize)
    {
      CopyMoves(Contents(), Factory, App, dataSize);
      ApplyAllAppend(initial, log, CopyOps(Contents(), Factory, App, dataSize));
      CopyArea(Factory, App, dataSize);
    }
  }

  // ---- Byte by byte --------------------------------------------------------------------------------

  // What the routines make of every byte of the flash, without the operations and the areas.

  /** The 512 KB from one place on have been replaced by the first n bytes from another, in whole pages, and are blank
      behind them. Nothing else has changed. */
  ghost predicate Moved(before: Memory, after: Memory, to: nat, from: nat, n: nat) {
    forall i: nat | i < CHIP_SIZE :: after[i] == MovedByte(before, to, from, n, i)
  }

  function MovedByte(before: Memory, to: nat, from: nat, n: nat, i: nat): bv8
    requires i < CHIP_SIZE
  {
    if to <= i < to + 0x8_0000 then
      var place := from + (i - to);
      if i - to < 256 * ((n + 255) / 256) && place < CHIP_SIZE then before[place] else 0xFF
    else before[i]
  }

  /** The sectors that hold size bytes have been erased, and the pages that hold them written from buffer. Nothing else
      has changed. */
  ghost predicate SavedAt(before: Memory, after: Memory, at: nat, buffer: Bytes, size: nat) {
    forall i: nat | i < CHIP_SIZE :: after[i] == SavedByte(before, at, buffer, size, i)
  }

  function SavedByte(before: Memory, at: nat, buffer: Bytes, size: nat, i: nat): bv8
    requires i < CHIP_SIZE
  {
    if at <= i < at + 4096 * ((size + 4095) / 4096) then
      if i - at < 256 * ((size + 255) / 256) && i - at < |buffer| then buffer[i - at] else 0xFF
    else before[i]
  }

  lemma RoundedUp(n: nat)
    ensures Pages(n) == (n + 255) / 256 && Sectors(n) == (n + 4095) / 4096
  {}

  lemma SaveStores(m: Memory, sector: nat, buffer: Bytes, size: nat)
    requires 4096 * (sector + Sectors(size)) <= CHIP_SIZE && 256 * Pages(size) <= |buffer|
    ensures SavedAt(m, ApplyAll(m, SaveOps(sector, buffer, size)), 4096 * sector, buffer, size)
  {
    hide ApplyAll, RewriteOps, Pages, Sectors;
    var after, pages := ApplyAll(m, SaveOps(sector, buffer, size)), Pages(size);
    RoundedUp(size);
    SectorsCoverPages(size);
    forall i: nat | i < CHIP_SIZE
      ensures after[i] == SavedByte(m, 4096 * sector, buffer, size, i)
    {
      RewriteDone(m, sector, Sectors(size), buffer[..256 * pages], pages, i);
    }
  }

  lemma CopyMoves(m: Memory, to: Area, from: Area, n: nat)
    requires to != from && n <= APPLICATION_SIZE
    ensures Moved(m, ApplyAll(m, CopyOps(m, to, from, n)), to.Start(), from.Start(), n)
  {
    hide ApplyAll, RewriteOps, Pages;
    var after, pages := ApplyAll(m, CopyOps(m, to, from, n)), Pages(n);
    RoundedUp(n);
    AreasDisjoint(to, from, n);
    var data := m[from.Start()..from.Start() + 256 * pages];
    forall i: nat | i < CHIP_SIZE
      ensures after[i] == MovedByte(m, to.Start(), from.Start(), n, i)
    {
      RewriteDone(m, to.Sector(), IMAGE_SECTORS, data, pages, i);
    }
  }

  /** A chunk of a download, with its place as a number: whole pages from 0x14_0000 + offset on. */
  lemma ChunkLands(m: Memory, page: nat, binary: Bytes, size: nat, i: nat)
    requires 256 * page + 256 * Pages(size) <= OTA_ROOM && 256 * Pages(size) <= |binary| && i < CHIP_SIZE
    ensures 256 * Pages(size) <= 256 * ((size + 255) / 256) <= |binary|
    ensures
      var ops := ProgramOps(16 * Ota.Sector() + page, binary[..256 * Pages(size)], Pages(size));
      var at := 0x14_0000 + 256 * page;
      ApplyAll(m, ops)[i] ==
      if at <= i < at + 256 * ((size + 255) / 256) then Clear(m[i], binary[i - at]) else m[i]
  {
    hide ApplyAll, Pages, Clear;
    RoundedUp(size);
    var data, pages := binary[..256 * Pages(size)], Pages(size);
    ProgrammedByte(m, 16 * Ota.Sector() + page, data, pages, pages, i);
    var ops := ProgramOps(16 * Ota.Sector() + page, data, pages);
    assert ops[..pages] == ops;
  }

  // ---- What the routines leave in flash ------------------------------------------------------------

  lemma SaveInside(sector: nat, buffer: Bytes, size: nat)
    requires 4096 * (sector + Sectors(size)) <= CHIP_SIZE && 256 * Pages(size) <= |buffer|
    ensures AllInside(SaveOps(sector, buffer, size), 4096 * sector, 4096 * (sector + Sectors(size)))
  {
    SectorsCoverPages(size);
    RewriteInside(sector, Sectors(size), buffer[..256 * Pages(size)], Pages(size));
  }

  lemma CopyInside(m: Memory, to: Area, from: Area, n: nat)
    requires to != from && n <= APPLICATION_SIZE
    ensures AllInside(CopyOps(m, to, from, n), to.Start(), to.End())
  {
    AreasDisjoint(to, from, n);
    RewriteInside(to.Sector(), IMAGE_SECTORS, m[from.Start()..from.Start() + 256 * Pages(n)], Pages(n));
  }

  /** Because a save erases before it programs, programming acts as assignment: the struct comes back
      unchanged, and no byte outside the sectors of the struct changes. */
  lemma SaveThenLoad(m: Memory, sector: nat, buffer: Bytes, size: nat)
    requires 4096 * (sector + Sectors(size)) <= CHIP_SIZE && 256 * Pages(size) <= |buffer|
    ensures size <= |buffer| && 4096 * sector + size <= CHIP_SIZE
    ensures
      var after := ApplyAll(m, SaveOps(sector, buffer, size));
      && Load(after, 4096 * sector, size) == buffer[..size]
      && forall i | 0 <= i < CHIP_SIZE && !(4096 * sector <= i < 4096 * (sector + Sectors(size))) ::
           after[i] == m[i]
  {
    hide ApplyAll, RewriteOps;
    PagesCover(size);
    SectorsCoverPages(size);
    SaveInside(sector, buffer, size);
    OutsideUnchanged(m, SaveOps(sector, buffer, size), 4096 * sector, 4096 * (sector + Sectors(size)));
    forall i | 0 <= i < size
      ensures Load(ApplyAll(m, SaveOps(sector, buffer, size)), 4096 * sector, size)[i] == buffer[i]
    {
      RewriteDone(m, sector, Sectors(size), buffer[..256 * Pages(size)], Pages(size), 4096 * sector + i);
    }
  }

  /** After a copy the target area starts with the n bytes of the other area; nothing outside it changed. */
  lemma CopyCopies(m: Memory, to: Area, from: Area, n: nat)
    requires to != from && n <= APPLICATION_SIZE
    ensures
      var after := ApplyAll(m, CopyOps(m, to, from, n));
      && Load(after, to.Start(), n) == Load(m, from.Start(), n)
      && forall i | 0 <= i < CHIP_SIZE && !(to.Start() <= i < to.End()) :: after[i] == m[i]
  {
    var ops := CopyOps(m, to, from, n);
    CopyInside(m, to, from, n);
    OutsideUnchanged(m, ops, to.Start(), to.End());
    CopiedBytes(m, to, from, n);
  }

  lemma CopiedBytes(m: Memory, to: Area, from: Area, n: nat)
    requires to != from && n <= APPLICATION_SIZE
    ensures Load(ApplyAll(m, CopyOps(m, to, from, n)), to.Start(), n) == Load(m, from.Start(), n)
  {
    hide ApplyAll, CopyOps;
    var after := ApplyAll(m, CopyOps(m, to, from, n));
    var copied, source := Load(after, to.Start(), n), Load(m, from.Start(), n);
    forall i | 0 <= i < n
      ensures copied[i] == source[i]
    {
      CopiedByte(m, to, from, n, i);
      assert copied[i] == after[to.Start() + i] && source[i] == m[from.Start() + i];
    }
  }

  lemma CopiedByte(m: Memory, to: Area, from: Area, n: nat, i: nat)
    requires to != from && i < n <= APPLICATION_SIZE
    ensures ApplyAll(m, CopyOps(m, to, from, n))[to.Start() + i] == m[from.Start() + i]
  {
    hide ApplyAll, CopyRangeOps;
    PagesCover(n);
    AreasDisjoint(to, from, n);
    NorFlash.CopiedByte(m, to.Sector(), IMAGE_SECTORS, from.Start(), Pages(n), i);
  }

  /** The token and the id that load_flash_certificate_* read at their own addresses are the ones saved
      inside the certificate struct. */
  lemma CertInfoParts(m: Memory, info: Bytes)
    requires |info| == CERT_INFO_SIZE
    ensures
      var after := ApplyAll(m, SaveOps(CERT_SECTOR, info, CERT_INFO_SIZE));
      && Load(after, CERT, CERT_INFO_SIZE) == info == Load(after, 0x1C_3000, 0x1300)
      && Load(after, OWNERSHIP, TOKEN_SIZE) == info[0x1000..0x1200] == Load(after, 0x1C_4000, 0x0200)
      && Load(after, CERT_ID, ID_SIZE) == info[0x1200..0x1300] == Load(after, 0x1C_4200, 0x0100)
  {
    SaveThenLoad(m, CERT_SECTOR, info, CERT_INFO_SIZE);
    var after := ApplyAll(m, SaveOps(CERT_SECTOR, info, CERT_INFO_SIZE));
    assert info[..CERT_INFO_SIZE] == info;
    assert forall i | 0 <= i < CERT_INFO_SIZE :: Load(after, CERT, CERT_INFO_SIZE)[i] == after[CERT + i];
  }
}
