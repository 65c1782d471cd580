/** What a download does to the configuration behind its area. write_flash_ota_binary has no bound, and nothing compares
    the length of the content with the area: a longer content is programmed on into APP_COMMON_t. Says exactly when
    that breaks the promise of the flash, and gives a run in which it does. */
module OverlongDownload {
  import opened Wrappers
  import opened NorFlash
  import opened FlashControl
  import opened DeviceConfig
  import opened OtaDownload
  import opened OtaSystem
  import opened UpdateJob
  import opened JobRun
  import C = Crc16

  // ---- The request after a download ----------------------------------------------------------------

  /** Where the byte j of DEVICE_OTA_INFO_t lies, counted from the start of the download area. */
  function InfoPlace(l: ValidLayout, j: nat): (place: nat)
    requires j < OTA_INFO_SIZE
    ensures Ota.Start() + place == CONFIG + l.otaInfo + j && place < OTA_ROOM
  {
    APPLICATION_SIZE + l.otaInfo + j
  }

  /** What is left of a DEVICE_OTA_INFO_t when data is programmed from the start of the download area on. */
  function Overlaid(l: ValidLayout, info: Bytes, data: Bytes): (changed: Bytes)
    requires |info| == OTA_INFO_SIZE
    ensures |changed| == OTA_INFO_SIZE
  {
    seq(OTA_INFO_SIZE, j requires 0 <= j < OTA_INFO_SIZE => ProgramData(info[j], data, InfoPlace(l, j)))
  }

  lemma DownloadedInfo(l: ValidLayout, m: Memory, chunks: seq<Bytes>)
    requires AllFit(chunks)
    ensures Info(l, ApplyAll(m, EraseAreaOps() + WriteOps(chunks))) == Overlaid(l, Info(l, m), Flatten(chunks))
  {
    hide ApplyAll, WriteOps, AllFit, EraseAreaOps, ProgramData, Flatten, Info;
    var after := ApplyAll(m, EraseAreaOps() + WriteOps(chunks));
    var left, right := Info(l, after), Overlaid(l, Info(l, m), Flatten(chunks));
    forall j | 0 <= j < OTA_INFO_SIZE
      ensures left[j] == right[j]
    {
      DownloadedByte(m, chunks, InfoPlace(l, j));
      InfoByte(l, after, j);
      InfoByte(l, m, j);
    }
  }

  /** A download that ends before DEVICE_OTA_INFO_t leaves it alone. */
  lemma NotReached(l: ValidLayout, info: Bytes, data: Bytes)
    requires |info| == OTA_INFO_SIZE && 256 * Pages(|data|) <= APPLICATION_SIZE + l.otaInfo
    ensures Overlaid(l, info, data) == info
  {
    hide Pages;
    PagesCover(|data|);
    forall j | 0 <= j < OTA_INFO_SIZE
      ensures Overlaid(l, info, data)[j] == info[j]
    {
      AndOnes(info[j], Padded(data, InfoPlace(l, j)));
    }
  }

  /** Over a blank configuration, such as a power cut leaves when it hits the save that clears a request, a download
      that is long enough writes a request of its own: twelve bytes of its content. */
  lemma BlankTakesContent(l: ValidLayout, data: Bytes)
    requires InfoPlace(l, 0) + OTA_INFO_SIZE <= |data|
    ensures Overlaid(l, Erased(OTA_INFO_SIZE), data) == data[InfoPlace(l, 0)..InfoPlace(l, 0) + OTA_INFO_SIZE]
  {
    forall j | 0 <= j < OTA_INFO_SIZE
      ensures Overlaid(l, Erased(OTA_INFO_SIZE), data)[j] == data[InfoPlace(l, 0)..InfoPlace(l, 0) + OTA_INFO_SIZE][j]
    {
      AndOnes(Erased(OTA_INFO_SIZE)[j], Padded(data, InfoPlace(l, j)));
    }
  }

  /** The download area holds an image that answers the request in info. */
  ghost predicate Answers(info: Bytes, area: Bytes)
    requires |info| == OTA_INFO_SIZE && |area| == APPLICATION_SIZE
  {
    InfoSize(info) <= APPLICATION_SIZE && C.Crc(area[..InfoSize(info)]) == InfoCrc(info)
  }

  /** Exactly when a download that is carried out to its end keeps the promise: what it leaves of DEVICE_OTA_INFO_t
      must not be enabled, or be answered by what was downloaded. Both can be read off the configuration before and
      the content. A content that ends before it always does. */
  lemma PromiseKeptExactly(l: ValidLayout, s: State, chunks: seq<Bytes>)
    requires Inv(l, s) && (s.phase.Running? || s.phase.Downloading?) && AllFit(chunks)
    ensures
      var info := Overlaid(l, Info(l, s.flash), Flatten(chunks));
      Promise(l, ApplyAll(s.flash, EraseAreaOps() + WriteOps(chunks)), s.image)
      <==> !InfoEnabled(l, info) || Answers(info, AreaAfter(Flatten(chunks)))
    ensures 256 * Pages(Total(chunks)) <= APPLICATION_SIZE + l.otaInfo ==>
              Promise(l, ApplyAll(s.flash, EraseAreaOps() + WriteOps(chunks)), s.image)
  {
    hide ApplyAll, WriteOps, AllFit, EraseAreaOps, Flatten, Info, Overlaid, AreaAfter, InArea, InfoEnabled;
    var ops := EraseAreaOps() + WriteOps(chunks);
    var after := ApplyAll(s.flash, ops);
    DownloadedInfo(l, s.flash, chunks);
    DownloadAssembles(s.flash, chunks);
    InAreaExactly(chunks);
    DisjointUnchanged(s.flash, ops, Ota.Start(), CHIP_SIZE, App.Start(), App.End());
    SameApp(after, s.flash, s.image);
    BackedByArea(l, Info(l, after), after, AreaAfter(Flatten(chunks)));
    if 256 * Pages(Total(chunks)) <= APPLICATION_SIZE + l.otaInfo {
      NotReached(l, Info(l, s.flash), Flatten(chunks));
    }
  }

  lemma BackedByArea(l: ValidLayout, info: Bytes, m: Memory, area: Bytes)
    requires |info| == OTA_INFO_SIZE && area == Load(m, Ota.Start(), APPLICATION_SIZE)
    ensures Backed(l, info, m) <==> Answers(info, area)
  {
    if InfoSize(info) <= APPLICATION_SIZE {
      LoadLess(m, Ota.Start(), APPLICATION_SIZE, InfoSize(info));
    }
  }

  // ---- A download that breaks the promise ----------------------------------------------------------

  /** A content of all ones but for an enabled status where DEVICE_OTA_INFO_t will lie. */
  function OverlongByte(l: ValidLayout, i: nat): bv8 {
    if APPLICATION_SIZE + l.otaInfo <= i < APPLICATION_SIZE + l.otaInfo + l.statusWidth then
      StatusBytes(l.statusWidth, true)[i - (APPLICATION_SIZE + l.otaInfo)]
    else 0xFF
  }

  /** It takes 257 deliveries that fill the buffer, or up to three more, depending on where DEVICE_OTA_INFO_t lies. */
  function OverlongCount(l: ValidLayout): (n: nat)
    ensures 257 <= n <= 260
    ensures InfoPlace(l, 0) + OTA_INFO_SIZE <= HTTP_BUF_MAX_SIZE * n <= OTA_ROOM
  {
    var page, at := l.otaInfo / 256, l.otaInfo % 256;
    assert l.otaInfo == 256 * page + at && l.otaInfo / 2048 == page / 8;
    257 + l.otaInfo / 2048
  }

  function OverlongChunk(l: ValidLayout, k: nat): (chunk: Bytes)
    ensures |chunk| == HTTP_BUF_MAX_SIZE
  {
    seq(HTTP_BUF_MAX_SIZE, i requires 0 <= i => OverlongByte(l, HTTP_BUF_MAX_SIZE * k + i))
  }

  function OverlongDeliveries(l: ValidLayout): (deliveries: seq<Bytes>)
    ensures |deliveries| == OverlongCount(l)
    ensures forall k :: 0 <= k < |deliveries| ==> |deliveries[k]| == HTTP_BUF_MAX_SIZE
  {
    seq(OverlongCount(l), k requires 0 <= k => OverlongChunk(l, k))
  }

  lemma {:induction false} FlattenFull(chunks: seq<Bytes>, i: nat)
    requires forall k :: 0 <= k < |chunks| ==> |chunks[k]| == HTTP_BUF_MAX_SIZE
    requires i < HTTP_BUF_MAX_SIZE * |chunks|
    ensures |Flatten(chunks)| == HTTP_BUF_MAX_SIZE * |chunks|
    ensures Flatten(chunks)[i] == chunks[i / HTTP_BUF_MAX_SIZE][i % HTTP_BUF_MAX_SIZE]
    decreases |chunks|
  {
    var k := |chunks| - 1;
    FullTotal(chunks[..k]);
    if i < HTTP_BUF_MAX_SIZE * k {
      FlattenFull(chunks[..k], i);
    } else {
      assert i / HTTP_BUF_MAX_SIZE == k && i % HTTP_BUF_MAX_SIZE == i - HTTP_BUF_MAX_SIZE * k;
    }
  }

  lemma OverlongContent(l: ValidLayout, i: nat)
    requires i < HTTP_BUF_MAX_SIZE * OverlongCount(l)
    ensures |Flatten(OverlongDeliveries(l))| == HTTP_BUF_MAX_SIZE * OverlongCount(l)
    ensures Flatten(OverlongDeliveries(l))[i] == OverlongByte(l, i)
  {
    hide OverlongByte, OverlongCount;
    var deliveries := OverlongDeliveries(l);
    FlattenFull(deliveries, i);
    assert deliveries[i / HTTP_BUF_MAX_SIZE] == OverlongChunk(l, i / HTTP_BUF_MAX_SIZE);
  }

  /** The request that this content is, read as a DEVICE_OTA_INFO_t: enabled, and for more than any area holds. */
  lemma OverlongRequest(l: ValidLayout)
    ensures
      var data := Flatten(OverlongDeliveries(l));
      && |data| == HTTP_BUF_MAX_SIZE * OverlongCount(l)
      && var info := data[InfoPlace(l, 0)..InfoPlace(l, 0) + OTA_INFO_SIZE];
         InfoEnabled(l, info) && InfoSize(info) > APPLICATION_SIZE
  {
    hide OverlongDeliveries, Flatten, StatusBytes, ReadSize, OverlongCount;
    var data := Flatten(OverlongDeliveries(l));
    OverlongContent(l, 0);
    var info := data[InfoPlace(l, 0)..InfoPlace(l, 0) + OTA_INFO_SIZE];
    var width := l.statusWidth;
    forall j | 0 <= j < OTA_INFO_SIZE
      ensures info[j] == if j < width then StatusBytes(width, true)[j] else 0xFF
    {
      OverlongContent(l, InfoPlace(l, j));
    }
    assert info[..width] == StatusBytes(width, true);
    assert info[4..8] == [0xFF, 0xFF, 0xFF, 0xFF];
    OnesAreLarge();
  }

  lemma OnesAreLarge()
    ensures ReadSize([0xFF, 0xFF, 0xFF, 0xFF]) as nat > APPLICATION_SIZE
  {}

  /** The deliveries are the chunks of the download, which is carried out to its end and reports success. */
  lemma CarriedOut(l: ValidLayout)
    ensures
      var deliveries := OverlongDeliveries(l);
      && Chunks(true, [], 0, HTTP_BUF_MAX_SIZE * OverlongCount(l), deliveries) == deliveries && AllFit(deliveries)
      && OutcomeOf(HTTP_BUF_MAX_SIZE * OverlongCount(l), deliveries) == Returned(0) && !InArea(deliveries)
  {
    TooLongDownload(HTTP_BUF_MAX_SIZE * OverlongCount(l), OverlongDeliveries(l));
  }

  /** The connection that brings it: the headers announce the whole length, and no body comes with them. */
  function OverlongLink(l: ValidLayout): (link: Link)
    ensures BodyFits(link)
  {
    Connected(Partial([], HTTP_BUF_MAX_SIZE * OverlongCount(l)))
  }

  lemma OverlongFetched(l: ValidLayout, before: Memory, d: Download)
    requires Fetched(before, OverlongLink(l), OverlongDeliveries(l), d)
    ensures !ContentFits(OverlongLink(l), OverlongDeliveries(l)) && d.outcome == Returned(0)
    ensures AllFit(OverlongDeliveries(l)) && d.ops == EraseAreaOps() + WriteOps(OverlongDeliveries(l))
  {
    hide Chunks, OutcomeOf, OverlongDeliveries, OverlongCount, AllFit, InArea, WriteOps, AreaAfter, ApplyAll, Flatten;
    CarriedOut(l);
    StoredAll(OverlongDeliveries(l));
    assert OverlongDeliveries(l)[..|OverlongDeliveries(l)|] == OverlongDeliveries(l);
  }

  /** From a blank DEVICE_OTA_INFO_t it leaves an enabled request that no image answers. */
  lemma OverlongBreaks(l: ValidLayout, m: Memory, d: Download, image: Image)
    requires Fetched(m, OverlongLink(l), OverlongDeliveries(l), d) && Info(l, m) == Erased(OTA_INFO_SIZE)
    ensures
      var after := ApplyAll(m, d.ops);
      && Enabled(l, after) && InfoSize(Info(l, after)) > APPLICATION_SIZE
      && !Promise(l, after, image)
  {
    hide ApplyAll, WriteOps, AllFit, EraseAreaOps, Flatten, Info, OverlongDeliveries, Overlaid, Fetched;
    OverlongFetched(l, m, d);
    DownloadedInfo(l, m, OverlongDeliveries(l));
    OverlongRequest(l);
    BlankTakesContent(l, Flatten(OverlongDeliveries(l)));
  }

  /** The boot loader has lost power in the save that clears a request, behind the erase and the first page. Unless
      DEVICE_OTA_INFO_t is in that page, it is blank, but the configuration is not, so the application that starts next
      does not write defaults. Everything else is as on a device without a request. */
  lemma CutLeavesBlankInfo(l: ValidLayout, m: Memory, buffer: Bytes, image: Image)
    requires ConfigBuffer(l, buffer) && buffer[0] != 0xFF && l.otaInfo >= 256
    requires AppHolds(m, image) && Genuine(image)
    ensures Sectors(l.size) + 1 <= |ConfigOps(l, buffer)|
    ensures
      var s := State(ApplyAll(m, ConfigOps(l, buffer)[..Sectors(l.size) + 1]), Off, image);
      Initial(l, s) && Info(l, s.flash) == Erased(OTA_INFO_SIZE) && Config(l, s.flash) != Erased(l.size)
  {
    hide ApplyAll, ConfigOps;
    FirstPageWritten(l, m, buffer);
    var ops := ConfigOps(l, buffer)[..Sectors(l.size) + 1];
    var after := ApplyAll(m, ops);
    assert Config(l, after)[0] == after[CONFIG] != Erased(l.size)[0];
    BlankNotEnabled(l);
    ConfigOpsInside(l, buffer);
    DisjointUnchanged(m, ops, CONFIG, CONFIG + CONFIG_LIMIT, App.Start(), App.End());
    SameApp(after, m, image);
  }

  lemma FirstPageWritten(l: ValidLayout, m: Memory, buffer: Bytes)
    requires ConfigBuffer(l, buffer) && l.otaInfo >= 256
    ensures Sectors(l.size) + 1 <= |ConfigOps(l, buffer)|
    ensures
      var after := ApplyAll(m, ConfigOps(l, buffer)[..Sectors(l.size) + 1]);
      after[CONFIG] == buffer[0] && Info(l, after) == Erased(OTA_INFO_SIZE)
  {
    hide ApplyAll, RewriteOps, Info;
    var k, pages := Sectors(l.size) + 1, Pages(l.size);
    PagesCover(l.size);
    SectorsCover(l.size);
    SectorsCoverPages(l.size);
    RewriteCut(m, CONFIG_SECTOR, Sectors(l.size), buffer[..256 * pages], pages, k, CONFIG);
    var info := Info(l, ApplyAll(m, ConfigOps(l, buffer)[..k]));
    forall j | 0 <= j < OTA_INFO_SIZE
      ensures info[j] == 0xFF
    {
      CutByte(l, m, buffer, k, j);
    }
  }

  /** A whole run that breaks the promise: a device whose DEVICE_OTA_INFO_t is blank, but not its configuration, boots,
      an update job brings this content, whatever its parameters, and power fails before the job can save a request of
      its own. */
  lemma PromiseBroken(l: ValidLayout, s: State, config: Bytes, job: Job, verdict: Verdict, d: Download,
                      done: seq<FlashOp>, after: Bytes)
    returns (states: seq<State>, i: nat)
    requires Initial(l, s) && Info(l, s.flash) == Erased(OTA_INFO_SIZE) && Config(l, s.flash) != Erased(l.size)
    requires |config| == l.size && SaneJob(job)
    requires job.jobType == "OTA" && job.params.Some? && job.newer && job.link == OverlongLink(l)
    requires DocumentDone(l, s.flash, config, job, OverlongDeliveries(l), verdict, d, done, after)
    ensures !JobFits(job, OverlongDeliveries(l)) && !verdict.DriverFault?
    ensures Run(l, states, CHIP_SIZE) && states[0] == s && i < |states|
    ensures !Promise(l, states[i].flash, states[i].image)
  {
    hide OverlongDeliveries, OverlongLink, Fetched, Matches, ConfigOps, WithStatus, Requested, Info, ApplyAll, Next;
    hide ContentFits, Promise, RequestBuffer;
    OverlongFetched(l, s.flash, d);
    OverlongBreaks(l, s.flash, d, s.image);
    var running := s.(phase := Running);
    states := DocumentIsRun(l, running, config, job, OverlongDeliveries(l), verdict, d, done, after);
    assert d.ops == done[..|d.ops|];
    var k :| 0 <= k < |states| && states[k].flash == ApplyAll(running.flash, done[..|d.ops|]);
    OverlongBreaks(l, s.flash, d, states[k].image);
    BootsInto(l, s, states);
    states, i := [s] + states, k + 1;
  }

  lemma BootsInto(l: ValidLayout, s: State, states: seq<State>)
    requires Initial(l, s) && Run(l, states, CHIP_SIZE) && states[0] == s.(phase := Running)
    ensures Run(l, [s] + states, CHIP_SIZE)
  {
    hide Next, Enabled;
    assert Next(l, s, states[0], CHIP_SIZE) by {
      JumpIsNext(l, s, states[0]);
    }
    var all := [s] + states;
    forall i | 0 <= i < |all| - 1
      ensures Next(l, all[i], all[i + 1], CHIP_SIZE)
    {
      if i > 0 {
        assert Next(l, states[i - 1], states[i - 1 + 1], CHIP_SIZE);
      }
    }
  }

  lemma JumpIsNext(l: ValidLayout, s: State, t: State)
    requires s.phase.Off? && !Enabled(l, s.flash) && t == s.(phase := Running)
    ensures Next(l, s, t, CHIP_SIZE)
  {
    assert BootJumps(l, s, t);
  }
}
