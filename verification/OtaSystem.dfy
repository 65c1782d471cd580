/** The device as a state machine whose steps are single flash operations: the boot loader (boot/main.c), the
    update job of the application (iot_jobs_handler.c, iot_jobs_job_ota_handler.c), and power cuts between any
    two operations. Proves that the flash keeps its promise in every reachable state, as long as what is downloaded
    fits its area. */
module OtaSystem {
  import opened Wrappers
  import opened NorFlash
  import opened FlashControl
  import opened DeviceConfig
  import opened CrcRegister
  import C = Crc16

  /** An image installed in the application area, and the CRC its job announced for it; the image a device is
      shipped with has no job. */
  datatype Image = Image(bytes: Bytes, announced: Option<Register>)

  /** Why a configuration is being saved: the boot loader clears a request, the application makes one, or the
      application writes defaults over a blank one. */
  datatype Purpose = ClearRequest | MakeRequest | WriteDefaults

  /** What the processor is doing. base is the flash when a list of operations was begun, next how many of them
      have been performed, buffer the memory a configuration is saved from. */
  datatype Phase =
    | Off
    | Installing(base: Memory, next: nat)
    | Saving(purpose: Purpose, base: Memory, buffer: Bytes, next: nat)
    | Running
    | Downloading

  datatype State = State(flash: Memory, phase: Phase, image: Image)

  /** The configuration in flash, as load_flash_common_config_info reads it. */
  function Config(l: ValidLayout, m: Memory): (config: Bytes)
    ensures |config| == l.size
  {
    Load(m, CONFIG, l.size)
  }

  function Info(l: ValidLayout, m: Memory): (info: Bytes)
    ensures |info| == OTA_INFO_SIZE
  {
    OtaInfo(l, Config(l, m))
  }

  predicate Enabled(l: ValidLayout, m: Memory) {
    InfoEnabled(l, Info(l, m))
  }

  /** A DEVICE_OTA_INFO_t that asks for an update asks for one that the download area really holds. */
  ghost predicate Backed(l: ValidLayout, info: Bytes, m: Memory)
    requires |info| == OTA_INFO_SIZE
  {
    && InfoSize(info) <= APPLICATION_SIZE
    && C.Crc(Load(m, Ota.Start(), InfoSize(info))) == InfoCrc(info)
  }

  ghost predicate AppHolds(m: Memory, image: Image) {
    |image.bytes| <= APPLICATION_SIZE && Load(m, App.Start(), |image.bytes|) == image.bytes
  }

  ghost predicate Genuine(image: Image) {
    image.announced.Some? ==> C.Crc(image.bytes) == image.announced.value
  }

  /** The invariant of the flash: an enabled request is backed by the download area, and without one the
      application area holds the last completely installed image. */
  ghost predicate Promise(l: ValidLayout, m: Memory, image: Image) {
    if Enabled(l, m) then Backed(l, Info(l, m), m) else AppHolds(m, image)
  }

  // ---- Writing the configuration, cut anywhere -----------------------------------------------------

  ghost predicate ConfigBuffer(l: ValidLayout, buffer: Bytes) {
    256 * Pages(l.size) <= |buffer| && l.size <= |buffer|
  }

  function ConfigOps(l: ValidLayout, buffer: Bytes): seq<FlashOp>
    requires ConfigBuffer(l, buffer)
  {
    SectorsCover(l.size);
    SaveOps(CONFIG_SECTOR, buffer, l.size)
  }

  lemma ConfigOpsInside(l: ValidLayout, buffer: Bytes)
    requires ConfigBuffer(l, buffer)
    ensures AllInside(ConfigOps(l, buffer), CONFIG, CONFIG + CONFIG_LIMIT)
  {
    SectorsCover(l.size);
    SaveInside(CONFIG_SECTOR, buffer, l.size);
  }

  lemma InfoByte(l: ValidLayout, m: Memory, j: nat)
    requires j < OTA_INFO_SIZE
    ensures Info(l, m)[j] == m[CONFIG + l.otaInfo + j]
  {
    assert Info(l, m)[j] == Config(l, m)[l.otaInfo + j];
  }

  /** How far a save that is cut after k operations has come with the DEVICE_OTA_INFO_t, which lies in one page
      and therefore in one sector: not reached, erased, or written. */
  datatype Reached = Untouched | Blanked | Written

  function ReachedAfter(l: ValidLayout, k: nat): Reached {
    if k <= Sectors(l.size) then
      if l.otaInfo / 4096 < k then Blanked else Untouched
    else if l.otaInfo / 256 < k - Sectors(l.size) then Written
    else Blanked
  }

  /** The bytes of DEVICE_OTA_INFO_t fall into the same sectors and pages. */
  lemma InfoInOnePage(l: ValidLayout, j: nat, k: nat)
    requires j < OTA_INFO_SIZE
    ensures l.otaInfo + j < 256 * k <==> l.otaInfo / 256 < k
    ensures l.otaInfo + j < 4096 * k <==> l.otaInfo / 4096 < k
  {
    var page, at := l.otaInfo / 256, l.otaInfo % 256;
    assert l.otaInfo == 256 * page + at;
    assert l.otaInfo / 4096 == page / 16;
    assert page == 16 * (page / 16) + page % 16;
  }

  lemma CutByte(l: ValidLayout, m: Memory, buffer: Bytes, k: nat, j: nat)
    requires ConfigBuffer(l, buffer) && k <= |ConfigOps(l, buffer)| && j < OTA_INFO_SIZE
    ensures Info(l, ApplyAll(m, ConfigOps(l, buffer)[..k]))[j] ==
            match ReachedAfter(l, k)
            case Untouched => Info(l, m)[j]
            case Blanked => 0xFF
            case Written => OtaInfo(l, buffer)[j]
  {
    hide ApplyAll, RewriteOps;
    var i, pages := CONFIG + l.otaInfo + j, Pages(l.size);
    SectorsCoverPages(l.size);
    SectorsCover(l.size);
    PagesCover(l.size);
    if k <= Sectors(l.size) {
      InfoInOnePage(l, j, k);
    } else {
      InfoInOnePage(l, j, k - Sectors(l.size));
    }
    RewriteCut(m, CONFIG_SECTOR, Sectors(l.size), buffer[..256 * pages], pages, k, i);
    InfoByte(l, ApplyAll(m, ConfigOps(l, buffer)[..k]), j);
    InfoByte(l, m, j);
  }

  /** However a save of the configuration is cut, the DEVICE_OTA_INFO_t in flash is the old one, blank, or the
      new one: no partial configuration reads as a request. */
  lemma ConfigCut(l: ValidLayout, m: Memory, buffer: Bytes, k: nat)
    requires ConfigBuffer(l, buffer) && k <= |ConfigOps(l, buffer)|
    ensures
      var info := Info(l, ApplyAll(m, ConfigOps(l, buffer)[..k]));
      info == Info(l, m) || info == Erased(OTA_INFO_SIZE) || info == OtaInfo(l, buffer)
  {
    var info := Info(l, ApplyAll(m, ConfigOps(l, buffer)[..k]));
    forall j | 0 <= j < OTA_INFO_SIZE
      ensures info[j] == match ReachedAfter(l, k)
                         case Untouched => Info(l, m)[j]
                         case Blanked => 0xFF
                         case Written => OtaInfo(l, buffer)[j]
    {
      CutByte(l, m, buffer, k, j);
    }
  }

  lemma ConfigDone(l: ValidLayout, m: Memory, buffer: Bytes)
    requires ConfigBuffer(l, buffer)
    ensures Config(l, ApplyAll(m, ConfigOps(l, buffer))) == buffer[..l.size]
  {
    SectorsCover(l.size);
    SaveThenLoad(m, CONFIG_SECTOR, buffer, l.size);
  }

  // ---- The steps -----------------------------------------------------------------------------------

  /** The copy the boot loader performs for the request it found in m. */
  function InstallOps(l: ValidLayout, m: Memory): seq<FlashOp>
    requires InfoSize(Info(l, m)) <= APPLICATION_SIZE
  {
    CopyOps(m, App, Ota, InfoSize(Info(l, m)))
  }

  /** Power fails: whatever was going on, the next thing to run is the boot loader. */
  ghost predicate PowerCut(s: State, t: State) {
    t == s.(phase := Off)
  }

  /** The boot loader finds a request and begins to copy. */
  ghost predicate BootFindsRequest(l: ValidLayout, s: State, t: State) {
    && s.phase.Off? && Enabled(l, s.flash) && InfoSize(Info(l, s.flash)) <= APPLICATION_SIZE
    && t == s.(phase := Installing(s.flash, 0))
  }

  /** The boot loader finds no request and jumps to the application. */
  ghost predicate BootJumps(l: ValidLayout, s: State, t: State) {
    s.phase.Off? && !Enabled(l, s.flash) && t == s.(phase := Running)
  }

  /** One erase or program of the copy. */
  ghost predicate CopyStep(l: ValidLayout, s: State, t: State) {
    && s.phase.Installing? && InfoSize(Info(l, s.phase.base)) <= APPLICATION_SIZE
    && var ops, k := InstallOps(l, s.phase.base), s.phase.next;
       k < |ops| && t == s.(flash := Apply(s.flash, ops[k]), phase := Installing(s.phase.base, k + 1))
  }

  /** The copy is complete: the image counts as installed, and the loader saves its copy of the
      configuration with the request cleared. */
  ghost predicate CopyDone(l: ValidLayout, s: State, t: State) {
    && s.phase.Installing? && InfoSize(Info(l, s.phase.base)) <= APPLICATION_SIZE
    && s.phase.next == |InstallOps(l, s.phase.base)|
    && BeginSave(l, s, t, ClearRequest)
    && t.phase.buffer[..l.size] == WithStatus(l, Config(l, s.phase.base), false)
    && t.image == Image(Load(s.flash, Ota.Start(), InfoSize(Info(l, s.phase.base))),
                        Some(InfoCrc(Info(l, s.phase.base))))
  }

  ghost predicate BeginSave(l: ValidLayout, s: State, t: State, purpose: Purpose) {
    && t.flash == s.flash && t.phase.Saving? && t.phase.purpose == purpose
    && t.phase.base == s.flash && t.phase.next == 0 && ConfigBuffer(l, t.phase.buffer)
  }

  /** One erase or program of a configuration being saved. */
  ghost predicate SaveStep(l: ValidLayout, s: State, t: State) {
    && s.phase.Saving? && ConfigBuffer(l, s.phase.buffer)
    && var ops, k := ConfigOps(l, s.phase.buffer), s.phase.next;
       && k < |ops|
       && t == State(Apply(s.flash, ops[k]), Saving(s.phase.purpose, s.phase.base, s.phase.buffer, k + 1), s.image)
  }

  /** The save is complete: the boot loader jumps to the application, or the application carries on. After a
      request it does not carry on: it reboots, which is a power cut. */
  ghost predicate SaveDone(l: ValidLayout, s: State, t: State) {
    && s.phase.Saving? && ConfigBuffer(l, s.phase.buffer) && !s.phase.purpose.MakeRequest?
    && s.phase.next == |ConfigOps(l, s.phase.buffer)| && t == s.(phase := Running)
  }

  /** The application starts an update job. */
  ghost predicate StartDownload(s: State, t: State) {
    s.phase.Running? && t == s.(phase := Downloading)
  }

  /** The download erases or programs from the start of the download area up to high, in any order. Nothing in the
      program keeps it inside the area: high is Ota.End() for a device whose downloads fit their area, and CHIP_SIZE
      for one where they may not. */
  ghost predicate DownloadStep(s: State, t: State, high: nat) {
    && s.phase.Downloading? && t.phase == s.phase && t.image == s.image
    && exists op: FlashOp :: op.Inside(Ota.Start(), high) && t.flash == Apply(s.flash, op)
  }

  /** The download or its CRC check fails. */
  ghost predicate GiveUp(s: State, t: State) {
    s.phase.Downloading? && t == s.(phase := Running)
  }

  /** The CRC of the download area matches the job, and the application saves a configuration with the request.
      It ends in a reboot. The check is also reached without a download, when no connection could be made. */
  ghost predicate Request(l: ValidLayout, s: State, t: State) {
    && (s.phase.Downloading? || s.phase.Running?)
    && BeginSave(l, s, t, MakeRequest) && t.image == s.image
    && InfoEnabled(l, OtaInfo(l, t.phase.buffer)) && Backed(l, OtaInfo(l, t.phase.buffer), s.flash)
  }

  /** The application starts on a blank configuration and saves a default one. */
  ghost predicate StartDefaults(l: ValidLayout, s: State, t: State) {
    && s.phase.Running? && Config(l, s.flash) == Erased(l.size)
    && BeginSave(l, s, t, WriteDefaults) && t.image == s.image
    && !InfoEnabled(l, OtaInfo(l, t.phase.buffer))
  }

  /** The provisioning task, which runs beside the update job, writes its certificate. */
  ghost predicate CertificateStep(s: State, t: State) {
    && (s.phase.Running? || s.phase.Downloading? || (s.phase.Saving? && s.phase.purpose.MakeRequest?))
    && t.phase == s.phase && t.image == s.image
    && exists op: FlashOp ::
         op.Inside(CERT, CERT + 4096 * Sectors(CERT_INFO_SIZE)) && t.flash == Apply(s.flash, op)
  }

  /** Steps that neither start a download nor make a request. */
  ghost predicate QuietNext(l: ValidLayout, s: State, t: State) {
    || PowerCut(s, t) || BootFindsRequest(l, s, t) || BootJumps(l, s, t)
    || CopyStep(l, s, t) || CopyDone(l, s, t) || SaveStep(l, s, t) || SaveDone(l, s, t)
    || StartDefaults(l, s, t) || CertificateStep(s, t)
  }

  ghost predicate Next(l: ValidLayout, s: State, t: State, high: nat) {
    || QuietNext(l, s, t)
    || StartDownload(s, t) || DownloadStep(s, t, high) || GiveUp(s, t) || Request(l, s, t)
  }

  ghost predicate Initial(l: ValidLayout, s: State) {
    s.phase.Off? && !Enabled(l, s.flash) && AppHolds(s.flash, s.image) && Genuine(s.image)
  }

  // ---- The invariant -------------------------------------------------------------------------------

  ghost predicate InstallOk(l: ValidLayout, s: State, base: Memory, k: nat) {
    && Enabled(l, base) && Backed(l, Info(l, base), base)
    && k <= |InstallOps(l, base)| && s.flash == ApplyAll(base, InstallOps(l, base)[..k])
  }

  /** What is known of a configuration being saved. */
  ghost predicate SaveOk(l: ValidLayout, s: State, purpose: Purpose, base: Memory, buffer: Bytes, k: nat) {
    && SavedSoFar(l, s.flash, base, buffer, k)
    && AppHolds(s.flash, s.image)
    && InfoEnabled(l, OtaInfo(l, buffer)) == purpose.MakeRequest?
    && (purpose.MakeRequest? ==> Backed(l, OtaInfo(l, buffer), s.flash))
    && (if purpose.ClearRequest? then Backed(l, Info(l, base), s.flash) else !Enabled(l, base))
  }

  ghost predicate PhaseOk(l: ValidLayout, s: State) {
    match s.phase
    case Off => true
    case Installing(base, k) => InstallOk(l, s, base, k)
    case Saving(purpose, base, buffer, k) => SaveOk(l, s, purpose, base, buffer, k)
    case Running => !Enabled(l, s.flash)
    case Downloading => !Enabled(l, s.flash)
  }

  ghost predicate Inv(l: ValidLayout, s: State) {
    Genuine(s.image) && Promise(l, s.flash, s.image) && PhaseOk(l, s)
  }

  // What two flashes that agree on an area have in common.

  lemma SameInfo(l: ValidLayout, m: Memory, n: Memory)
    requires Agree(m, n, CONFIG, CONFIG + CONFIG_LIMIT)
    ensures Config(l, m) == Config(l, n) && Info(l, m) == Info(l, n) && Enabled(l, m) == Enabled(l, n)
  {
    assert Config(l, m) == Config(l, n);
  }

  lemma SameBacked(l: ValidLayout, info: Bytes, m: Memory, n: Memory)
    requires |info| == OTA_INFO_SIZE && Agree(m, n, Ota.Start(), Ota.End())
    ensures Backed(l, info, m) == Backed(l, info, n)
  {
    if InfoSize(info) <= APPLICATION_SIZE {
      assert Load(m, Ota.Start(), InfoSize(info)) == Load(n, Ota.Start(), InfoSize(info));
    }
  }

  lemma SameApp(m: Memory, n: Memory, image: Image)
    requires Agree(m, n, App.Start(), App.End())
    ensures AppHolds(m, image) == AppHolds(n, image)
  {
    if |image.bytes| <= APPLICATION_SIZE {
      assert Load(m, App.Start(), |image.bytes|) == Load(n, App.Start(), |image.bytes|);
    }
  }

  /** The buffer a struct is saved from is longer than the struct; only the struct counts. */
  lemma BufferInfo(l: ValidLayout, buffer: Bytes)
    requires |buffer| >= l.size
    ensures OtaInfo(l, buffer) == OtaInfo(l, buffer[..l.size])
  {}

  lemma OneOp(m: Memory, op: FlashOp, low: nat, high: nat)
    requires op.Inside(low, high)
    ensures forall a: nat, b: nat | b <= low || high <= a :: Agree(Apply(m, op), m, a, b)
  {}

  /** The flash while a configuration is being saved: k operations are done. The certificate may have been written
      meanwhile, so only the configuration area is compared. */
  ghost predicate SavedSoFar(l: ValidLayout, flash: Memory, base: Memory, buffer: Bytes, k: nat) {
    && ConfigBuffer(l, buffer) && k <= |ConfigOps(l, buffer)|
    && Agree(flash, ApplyAll(base, ConfigOps(l, buffer)[..k]), CONFIG, CONFIG + CONFIG_LIMIT)
  }

  lemma SavingInfo(l: ValidLayout, flash: Memory, base: Memory, buffer: Bytes, k: nat)
    requires SavedSoFar(l, flash, base, buffer, k)
    ensures Info(l, flash) == Info(l, base) || !Enabled(l, flash) || Info(l, flash) == OtaInfo(l, buffer)
  {
    SameInfo(l, flash, ApplyAll(base, ConfigOps(l, buffer)[..k]));
    ConfigCut(l, base, buffer, k);
    BlankNotEnabled(l);
  }

  lemma SavedInfo(l: ValidLayout, flash: Memory, base: Memory, buffer: Bytes)
    requires ConfigBuffer(l, buffer) && SavedSoFar(l, flash, base, buffer, |ConfigOps(l, buffer)|)
    ensures Info(l, flash) == OtaInfo(l, buffer)
  {
    assert ConfigOps(l, buffer)[..|ConfigOps(l, buffer)|] == ConfigOps(l, buffer);
    SameInfo(l, flash, ApplyAll(base, ConfigOps(l, buffer)));
    ConfigDone(l, base, buffer);
    BufferInfo(l, buffer);
  }

  lemma SavedOneMore(l: ValidLayout, flash: Memory, base: Memory, buffer: Bytes, k: nat)
    requires SavedSoFar(l, flash, base, buffer, k) && k < |ConfigOps(l, buffer)|
    ensures SavedSoFar(l, Apply(flash, ConfigOps(l, buffer)[k]), base, buffer, k + 1)
  {
    ApplyNext(base, ConfigOps(l, buffer), k);
    AgreeAfterOp(flash, ApplyAll(base, ConfigOps(l, buffer)[..k]), ConfigOps(l, buffer)[k],
                 CONFIG, CONFIG + CONFIG_LIMIT);
  }

  /** A save in progress keeps the promise whatever prefix of it has been performed. */
  lemma SaveKeepsPromise(l: ValidLayout, s: State, purpose: Purpose, base: Memory, buffer: Bytes, k: nat)
    requires SaveOk(l, s, purpose, base, buffer, k)
    ensures Promise(l, s.flash, s.image)
  {
    SavingInfo(l, s.flash, base, buffer, k);
  }

  lemma InstallKeepsPromise(l: ValidLayout, s: State, base: Memory, k: nat)
    requires InstallOk(l, s, base, k)
    ensures Promise(l, s.flash, s.image)
    ensures Info(l, s.flash) == Info(l, base) && Backed(l, Info(l, base), s.flash)
  {
    CopyInside(base, App, Ota, InfoSize(Info(l, base)));
    DisjointUnchanged(base, InstallOps(l, base)[..k], App.Start(), App.End(), CONFIG, CONFIG + CONFIG_LIMIT);
    DisjointUnchanged(base, InstallOps(l, base)[..k], App.Start(), App.End(), Ota.Start(), Ota.End());
    SameInfo(l, s.flash, base);
    SameBacked(l, Info(l, base), s.flash, base);
  }

  lemma InstallStarts(l: ValidLayout, s: State, t: State)
    requires Inv(l, s) && BootFindsRequest(l, s, t)
    ensures Inv(l, t)
  {
    assert InstallOps(l, s.flash)[..0] == [];
  }

  lemma InstallContinues(l: ValidLayout, s: State, t: State)
    requires Inv(l, s) && CopyStep(l, s, t)
    ensures Inv(l, t)
  {
    ApplyNext(s.phase.base, InstallOps(l, s.phase.base), s.phase.next);
    InstallKeepsPromise(l, t, t.phase.base, t.phase.next);
  }

  lemma CopyInstalls(base: Memory, flash: Memory, n: nat)
    requires n <= APPLICATION_SIZE && flash == ApplyAll(base, CopyOps(base, App, Ota, n))
    ensures Load(flash, App.Start(), n) == Load(base, Ota.Start(), n) == Load(flash, Ota.Start(), n)
  {
    CopyCopies(base, App, Ota, n);
    assert Load(base, Ota.Start(), n) == Load(flash, Ota.Start(), n);
  }

  /** The end of the copy: the application area holds what the download area holds, which has the CRC the
      request announced. */
  lemma InstallEnds(l: ValidLayout, s: State, t: State)
    requires Inv(l, s) && CopyDone(l, s, t)
    ensures Inv(l, t)
  {
    var base := s.phase.base;
    InstallKeepsPromise(l, s, base, s.phase.next);
    assert InstallOps(l, base)[..s.phase.next] == InstallOps(l, base);
    CopyInstalls(base, s.flash, InfoSize(Info(l, base)));
    BufferInfo(l, t.phase.buffer);
    StatusWritten(l, Config(l, base), false);
    SaveStarts(l, s, t, ClearRequest);
  }

  lemma SaveStarts(l: ValidLayout, s: State, t: State, purpose: Purpose)
    requires BeginSave(l, s, t, purpose) && AppHolds(s.flash, t.image)
    requires InfoEnabled(l, OtaInfo(l, t.phase.buffer)) == purpose.MakeRequest?
    requires purpose.MakeRequest? ==> Backed(l, OtaInfo(l, t.phase.buffer), s.flash)
    requires if purpose.ClearRequest? then Backed(l, Info(l, s.flash), s.flash) else !Enabled(l, s.flash)
    ensures PhaseOk(l, t) && Promise(l, t.flash, t.image)
  {
    assert ConfigOps(l, t.phase.buffer)[..0] == [];
    SaveKeepsPromise(l, t, purpose, s.flash, t.phase.buffer, 0);
  }

  lemma AgreeAfterOp(m: Memory, n: Memory, op: FlashOp, low: nat, high: nat)
    requires Agree(m, n, low, high)
    ensures Agree(Apply(m, op), Apply(n, op), low, high)
  {}

  lemma SaveContinues(l: ValidLayout, s: State, t: State)
    requires Inv(l, s) && SaveStep(l, s, t)
    ensures Inv(l, t)
  {
    var base, buffer, k := s.phase.base, s.phase.buffer, s.phase.next;
    var op := ConfigOps(l, buffer)[k];
    ConfigOpsInside(l, buffer);
    assert op.Inside(CONFIG, CONFIG + CONFIG_LIMIT);
    SavedOneMore(l, s.flash, base, buffer, k);
    SaveElsewhere(l, s, t.flash, op);
    SaveKeepsPromise(l, t, s.phase.purpose, base, buffer, k + 1);
  }

  lemma SaveElsewhere(l: ValidLayout, s: State, flash: Memory, op: FlashOp)
    requires op.Inside(CONFIG, CONFIG + CONFIG_LIMIT) && flash == Apply(s.flash, op)
    ensures AppHolds(flash, s.image) == AppHolds(s.flash, s.image)
    ensures forall info: Bytes | |info| == OTA_INFO_SIZE :: Backed(l, info, flash) == Backed(l, info, s.flash)
  {
    OneOp(s.flash, op, CONFIG, CONFIG + CONFIG_LIMIT);
    SameApp(flash, s.flash, s.image);
    forall info: Bytes | |info| == OTA_INFO_SIZE
      ensures Backed(l, info, flash) == Backed(l, info, s.flash)
    {
      SameBacked(l, info, flash, s.flash);
    }
  }

  lemma SaveEnds(l: ValidLayout, s: State, t: State)
    requires Inv(l, s) && SaveDone(l, s, t)
    ensures Inv(l, t)
  {
    SavedInfo(l, s.flash, s.phase.base, s.phase.buffer);
  }

  lemma DownloadKeeps(l: ValidLayout, s: State, t: State)
    requires Inv(l, s) && DownloadStep(s, t, Ota.End())
    ensures Inv(l, t)
  {
    var op: FlashOp :| op.Inside(Ota.Start(), Ota.End()) && t.flash == Apply(s.flash, op);
    OneOp(s.flash, op, Ota.Start(), Ota.End());
    SameInfo(l, t.flash, s.flash);
    SameApp(t.flash, s.flash, s.image);
  }

  lemma RequestStarts(l: ValidLayout, s: State, t: State)
    requires Inv(l, s) && Request(l, s, t)
    ensures Inv(l, t)
  {
    SaveStarts(l, s, t, MakeRequest);
  }

  lemma DefaultsStart(l: ValidLayout, s: State, t: State)
    requires Inv(l, s) && StartDefaults(l, s, t)
    ensures Inv(l, t)
  {
    SaveStarts(l, s, t, WriteDefaults);
  }

  lemma CertificateKeeps(l: ValidLayout, s: State, t: State)
    requires Inv(l, s) && CertificateStep(s, t)
    ensures Inv(l, t)
  {
    var low, high := CERT, CERT + 4096 * Sectors(CERT_INFO_SIZE);
    var op: FlashOp :| op.Inside(low, high) && t.flash == Apply(s.flash, op);
    OneOp(s.flash, op, low, high);
    SameInfo(l, t.flash, s.flash);
    SameApp(t.flash, s.flash, s.image);
    SameBacked(l, Info(l, s.flash), t.flash, s.flash);
    if s.phase.Saving? {
      SameBacked(l, OtaInfo(l, s.phase.buffer), t.flash, s.flash);
      SaveKeepsPromise(l, t, s.phase.purpose, s.phase.base, s.phase.buffer, s.phase.next);
    }
  }

  /** Every step keeps the invariant, as long as the download stays in its area. */
  lemma StepKeepsInvariant(l: ValidLayout, s: State, t: State)
    requires Inv(l, s) && Next(l, s, t, Ota.End())
    ensures Inv(l, t)
  {
    if BootFindsRequest(l, s, t) {
      InstallStarts(l, s, t);
    } else if CopyStep(l, s, t) {
      InstallContinues(l, s, t);
    } else if CopyDone(l, s, t) {
      InstallEnds(l, s, t);
    } else if SaveStep(l, s, t) {
      SaveContinues(l, s, t);
    } else if SaveDone(l, s, t) {
      SaveEnds(l, s, t);
    } else if DownloadStep(s, t, Ota.End()) {
      DownloadKeeps(l, s, t);
    } else if Request(l, s, t) {
      RequestStarts(l, s, t);
    } else if StartDefaults(l, s, t) {
      DefaultsStart(l, s, t);
    } else if CertificateStep(s, t) {
      CertificateKeeps(l, s, t);
    }
  }

  // ---- Whole runs ----------------------------------------------------------------------------------

  /** A run in which downloads program up to high. */
  ghost predicate Run(l: ValidLayout, states: seq<State>, high: nat) {
    states != [] && forall i | 0 <= i < |states| - 1 :: Next(l, states[i], states[i + 1], high)
  }

  /** In every state of every run whose downloads fit their area, with power cuts anywhere: a request in flash is
      backed by an image with the announced CRC in the download area, without one the application area holds the last
      completely installed image, and an image that was installed by a job has the CRC the job announced. */
  lemma {:induction false} RunKeepsPromise(l: ValidLayout, states: seq<State>, i: nat)
    requires Run(l, states, Ota.End()) && Initial(l, states[0]) && i < |states|
    ensures Inv(l, states[i])
    ensures Promise(l, states[i].flash, states[i].image) && Genuine(states[i].image)
    ensures states[i].phase.Running? ==> AppHolds(states[i].flash, states[i].image)
    decreases i
  {
    if i > 0 {
      RunKeepsPromise(l, states, i - 1);
      assert Next(l, states[i - 1], states[i - 1 + 1], Ota.End());
      StepKeepsInvariant(l, states[i - 1], states[i]);
    }
  }

  ghost predicate QuietRun(l: ValidLayout, states: seq<State>) {
    states != [] && forall i | 0 <= i < |states| - 1 :: QuietNext(l, states[i], states[i + 1])
  }

  ghost predicate AppShows(flash: Memory, img: Bytes) {
    |img| <= APPLICATION_SIZE && Load(flash, App.Start(), |img|) == img
  }

  /** While an update to img is pending or has just been carried out: the download area holds img; a request still in
      flash asks for all of it, and once there is none the application area shows img. Nothing here depends on the
      CRC, which the boot loader does not look at. */
  ghost predicate Updating(l: ValidLayout, s: State, img: Bytes) {
    && |img| <= APPLICATION_SIZE && Load(s.flash, Ota.Start(), |img|) == img
    && (if Enabled(l, s.flash) then InfoSize(Info(l, s.flash)) == |img| else AppShows(s.flash, img))
    && match s.phase
       case Off => true
       case Installing(base, k) => Copying(l, s.flash, base, k, img)
       case Saving(purpose, base, buffer, k) => Clearing(l, s.flash, purpose, base, buffer, k, img)
       case Running => AppShows(s.flash, img)
       case Downloading => false
  }

  ghost predicate Copying(l: ValidLayout, flash: Memory, base: Memory, k: nat, img: Bytes) {
    && |img| <= APPLICATION_SIZE && InfoSize(Info(l, base)) == |img| && Load(base, Ota.Start(), |img|) == img
    && Enabled(l, base) && k <= |InstallOps(l, base)| && flash == ApplyAll(base, InstallOps(l, base)[..k])
  }

  ghost predicate Clearing(l: ValidLayout, flash: Memory, purpose: Purpose, base: Memory, buffer: Bytes, k: nat,
                           img: Bytes)
  {
    && !purpose.MakeRequest? && AppShows(flash, img) && SavedSoFar(l, flash, base, buffer, k)
    && !InfoEnabled(l, OtaInfo(l, buffer)) && (Enabled(l, base) ==> InfoSize(Info(l, base)) == |img|)
  }

  lemma SameOta(m: Memory, n: Memory, size: nat)
    requires Agree(m, n, Ota.Start(), Ota.End()) && size <= APPLICATION_SIZE
    ensures Load(m, Ota.Start(), size) == Load(n, Ota.Start(), size)
  {}

  lemma SameShown(m: Memory, n: Memory, img: Bytes)
    requires Agree(m, n, App.Start(), App.End())
    ensures AppShows(m, img) == AppShows(n, img)
  {
    if |img| <= APPLICATION_SIZE {
      assert Load(m, App.Start(), |img|) == Load(n, App.Start(), |img|);
    }
  }

  lemma UpdatingCopyStep(l: ValidLayout, s: State, t: State, img: Bytes)
    requires Updating(l, s, img) && CopyStep(l, s, t)
    ensures Updating(l, t, img)
  {
    var base, k := s.phase.base, s.phase.next;
    CopyingInfo(l, s.flash, base, k, img);
    ApplyNext(base, InstallOps(l, base), k);
    CopyingInfo(l, t.flash, base, k + 1, img);
  }

  /** The copy leaves the request and the download area as they were. */
  lemma CopyingInfo(l: ValidLayout, flash: Memory, base: Memory, k: nat, img: Bytes)
    requires Copying(l, flash, base, k, img)
    ensures Info(l, flash) == Info(l, base) && Load(flash, Ota.Start(), |img|) == img
  {
    CopyInside(base, App, Ota, |img|);
    DisjointUnchanged(base, InstallOps(l, base)[..k], App.Start(), App.End(), CONFIG, CONFIG + CONFIG_LIMIT);
    DisjointUnchanged(base, InstallOps(l, base)[..k], App.Start(), App.End(), Ota.Start(), Ota.End());
    SameInfo(l, flash, base);
    SameOta(flash, base, |img|);
  }

  lemma UpdatingCopyDone(l: ValidLayout, s: State, t: State, img: Bytes)
    requires Updating(l, s, img) && CopyDone(l, s, t)
    ensures Updating(l, t, img)
  {
    var base := s.phase.base;
    CopyingInfo(l, s.flash, base, s.phase.next, img);
    assert InstallOps(l, base)[..s.phase.next] == InstallOps(l, base);
    CopyInstalls(base, s.flash, |img|);
    BufferInfo(l, t.phase.buffer);
    StatusWritten(l, Config(l, base), false);
    assert ConfigOps(l, t.phase.buffer)[..0] == [];
  }

  lemma UpdatingSaveStep(l: ValidLayout, s: State, t: State, img: Bytes)
    requires Updating(l, s, img) && SaveStep(l, s, t)
    ensures Updating(l, t, img)
  {
    hide ApplyAll, Apply, AppShows, Info, SavedSoFar, ConfigOps, InfoEnabled;
    var base, buffer, k := s.phase.base, s.phase.buffer, s.phase.next;
    var op := ConfigOps(l, buffer)[k];
    ConfigOpsInside(l, buffer);
    assert op.Inside(CONFIG, CONFIG + CONFIG_LIMIT);
    OneOp(s.flash, op, CONFIG, CONFIG + CONFIG_LIMIT);
    SameOta(t.flash, s.flash, |img|);
    SameShown(t.flash, s.flash, img);
    SavedOneMore(l, s.flash, base, buffer, k);
    SavingInfo(l, t.flash, base, buffer, k + 1);
  }

  lemma UpdatingDefaults(l: ValidLayout, s: State, t: State, img: Bytes)
    requires Updating(l, s, img) && StartDefaults(l, s, t)
    ensures Updating(l, t, img)
  {
    assert ConfigOps(l, t.phase.buffer)[..0] == [];
    BlankNotEnabled(l);
    assert Info(l, s.flash) == Erased(OTA_INFO_SIZE);
  }

  lemma UpdatingCertificate(l: ValidLayout, s: State, t: State, img: Bytes)
    requires Updating(l, s, img) && CertificateStep(s, t)
    ensures Updating(l, t, img)
  {
    var low, high := CERT, CERT + 4096 * Sectors(CERT_INFO_SIZE);
    var op: FlashOp :| op.Inside(low, high) && t.flash == Apply(s.flash, op);
    OneOp(s.flash, op, low, high);
    SameOta(t.flash, s.flash, |img|);
    SameShown(t.flash, s.flash, img);
    SameInfo(l, t.flash, s.flash);
  }

  lemma UpdatingStep(l: ValidLayout, s: State, t: State, img: Bytes)
    requires Updating(l, s, img) && QuietNext(l, s, t)
    ensures Updating(l, t, img)
  {
    if BootFindsRequest(l, s, t) {
      assert InstallOps(l, s.flash)[..0] == [];
    } else if CopyStep(l, s, t) {
      UpdatingCopyStep(l, s, t, img);
    } else if CopyDone(l, s, t) {
      UpdatingCopyDone(l, s, t, img);
    } else if SaveStep(l, s, t) {
      UpdatingSaveStep(l, s, t, img);
    } else if StartDefaults(l, s, t) {
      UpdatingDefaults(l, s, t, img);
    } else if CertificateStep(s, t) {
      UpdatingCertificate(l, s, t, img);
    }
  }

  /** Crash-safe update. Once a request for n bytes is in flash, with whatever CRC, then however often power fails
      between single erase and program operations, and until the application starts another download: the download
      area keeps the image, and every time the boot loader reaches its jump the application area holds exactly it. */
  lemma {:induction false} CrashSafeUpdate(l: ValidLayout, states: seq<State>, img: Bytes, i: nat)
    requires QuietRun(l, states) && i < |states|
    requires states[0].phase.Off? && Enabled(l, states[0].flash)
    requires InfoSize(Info(l, states[0].flash)) <= APPLICATION_SIZE
    requires img == Load(states[0].flash, Ota.Start(), InfoSize(Info(l, states[0].flash)))
    ensures Updating(l, states[i], img) && (Inv(l, states[0]) ==> Inv(l, states[i]))
    ensures Load(states[i].flash, Ota.Start(), |img|) == img
    ensures states[i].phase.Running? ==> Load(states[i].flash, App.Start(), |img|) == img
    decreases i
  {
    if i > 0 {
      CrashSafeUpdate(l, states, img, i - 1);
      assert QuietNext(l, states[i - 1], states[i - 1 + 1]);
      UpdatingStep(l, states[i - 1], states[i], img);
      if Inv(l, states[0]) {
        StepKeepsInvariant(l, states[i - 1], states[i]);
      }
    }
  }

  /** What a request is, byte by byte: the status is 1, little-endian in as many bytes as the enum has; the size follows
      in four bytes and the CRC in two, low byte first. at is the place of DEVICE_OTA_INFO_t in the flash. */
  lemma RequestBytes(l: ValidLayout, m: Memory, at: nat)
    requires at == 0x1C_0000 + l.otaInfo
    ensures at + 12 <= CHIP_SIZE
    ensures Enabled(l, m) <==> m[at] == 1 && forall j :: at < j < at + l.statusWidth ==> m[j] == 0
    ensures
      ReadSize(Info(l, m)[4..8]) == m[at + 4] as bv32 + 0x100 * (m[at + 5] as bv32) + 0x1_0000 * (m[at + 6] as bv32)
                                    + 0x100_0000 * (m[at + 7] as bv32)
    ensures InfoCrc(Info(l, m)) == C.BitsOf(m[at + 9]) + C.BitsOf(m[at + 8])
  {
    hide ReadSize, C.BitsOf;
    var info := Info(l, m);
    forall j | 0 <= j < OTA_INFO_SIZE
      ensures info[j] == m[at + j]
    {
      InfoByte(l, m, j);
    }
    StatusRead(l, info);
    assert info[4..8] == [m[at + 4], m[at + 5], m[at + 6], m[at + 7]];
    SizeRead(m[at + 4], m[at + 5], m[at + 6], m[at + 7]);
    if Enabled(l, m) {
      forall j | at < j < at + l.statusWidth
        ensures m[j] == 0
      {
        assert info[j - at] == m[j];
      }
    }
    if m[at] == 1 && forall j :: at < j < at + l.statusWidth ==> m[j] == 0 {
      assert forall j :: 1 <= j < l.statusWidth ==> info[j] == m[at + j];
    }
  }

  /** Crash-safe update, in addresses: at every jump the bytes from 0x4_0000 on, where the jump goes, are those that the
      download area had from 0x14_0000 on when the request was there, as many as the request asks for. */
  lemma JumpFindsImage(l: ValidLayout, states: seq<State>, i: nat)
    requires QuietRun(l, states) && i < |states| && states[i].phase.Running?
    requires states[0].phase.Off? && Enabled(l, states[0].flash) && InfoSize(Info(l, states[0].flash)) <= 0x8_0000
    ensures
      var first, now := states[0].flash, states[i].flash;
      forall j: nat :: j < InfoSize(Info(l, first)) ==> now[0x4_0000..0xC_0000][j] == first[0x14_0000..0x1C_0000][j]
  {
    hide QuietNext, Enabled, Info, Updating, Inv;
    var first, now := states[0].flash, states[i].flash;
    var size := InfoSize(Info(l, first));
    var img := Load(first, Ota.Start(), size);
    CrashSafeUpdate(l, states, img, i);
    forall j: nat | j < size
      ensures now[0x4_0000..0xC_0000][j] == first[0x14_0000..0x1C_0000][j]
    {
      assert img[j] == Load(now, App.Start(), size)[j];
    }
  }

  /** No step touches the boot loader or the factory image, wherever power is cut and however far a download goes. */
  lemma StepLeavesFactory(l: ValidLayout, s: State, t: State, high: nat)
    requires Next(l, s, t, high)
    ensures Agree(t.flash, s.flash, 0, App.Start()) && Agree(t.flash, s.flash, Factory.Start(), Factory.End())
  {
    if CopyStep(l, s, t) {
      var ops, k := InstallOps(l, s.phase.base), s.phase.next;
      CopyInside(s.phase.base, App, Ota, InfoSize(Info(l, s.phase.base)));
      assert ops[k].Inside(App.Start(), App.End());
      OneOp(s.flash, ops[k], App.Start(), App.End());
    } else if SaveStep(l, s, t) {
      var ops, k := ConfigOps(l, s.phase.buffer), s.phase.next;
      ConfigOpsInside(l, s.phase.buffer);
      assert ops[k].Inside(CONFIG, CONFIG + CONFIG_LIMIT);
      OneOp(s.flash, ops[k], CONFIG, CONFIG + CONFIG_LIMIT);
    } else if DownloadStep(s, t, high) {
      var op: FlashOp :| op.Inside(Ota.Start(), high) && t.flash == Apply(s.flash, op);
      OneOp(s.flash, op, Ota.Start(), high);
    } else if CertificateStep(s, t) {
      var low, high := CERT, CERT + 4096 * Sectors(CERT_INFO_SIZE);
      var op: FlashOp :| op.Inside(low, high) && t.flash == Apply(s.flash, op);
      OneOp(s.flash, op, low, high);
    }
  }

  lemma {:induction false} RunLeavesFactory(l: ValidLayout, states: seq<State>, high: nat, i: nat)
    requires Run(l, states, high) && i < |states|
    ensures Agree(states[i].flash, states[0].flash, 0, 0x4_0000)
    ensures Agree(states[i].flash, states[0].flash, 0xC_0000, 0x14_0000)
    decreases i
  {
    if i > 0 {
      RunLeavesFactory(l, states, high, i - 1);
      assert Next(l, states[i - 1], states[i - 1 + 1], high);
      StepLeavesFactory(l, states[i - 1], states[i], high);
    }
  }

  lemma LoadLess(m: Memory, offset: nat, n: nat, k: nat)
    requires k <= n && offset + n <= CHIP_SIZE
    ensures Load(m, offset, k) == Load(m, offset, n)[..k]
  {}

  /** Factory reset: back up n bytes of the application, let the device run through any number of updates and
      power cuts, restore k <= n bytes: the application area starts with its original k bytes. */
  lemma FactoryRestore(l: ValidLayout, original: Memory, n: nat, states: seq<State>, high: nat, k: nat)
    requires k <= n <= APPLICATION_SIZE && Run(l, states, high)
    requires states[0].flash == ApplyAll(original, CopyOps(original, Factory, App, n))
    ensures
      var last := states[|states| - 1].flash;
      Load(ApplyAll(last, CopyOps(last, App, Factory, k)), App.Start(), k) == Load(original, App.Start(), k)
  {
    var first, last := states[0].flash, states[|states| - 1].flash;
    CopyCopies(original, Factory, App, n);
    RunLeavesFactory(l, states, high, |states| - 1);
    CopyCopies(last, App, Factory, k);
    assert Load(last, Factory.Start(), k) == Load(first, Factory.Start(), k);
    LoadLess(first, Factory.Start(), n, k);
    LoadLess(original, App.Start(), n, k);
  }
}
