/** The update job of the application: ota_download_firmware and the OTA branch of start_job_document. */
module UpdateJob {
  import opened Wrappers
  import opened NorFlash
  import opened FlashControl
  import opened DeviceConfig
  import opened OtaDownload
  import opened OtaSystem
  import C = Crc16

  /** How http_get goes: without a connection it returns a code of its own, otherwise what the callback returns. */
  datatype Link = NoConnection(code: int) | Connected(response: Response)

  /** The image is accepted or rejected, or the flash driver is driven outside its contract on the way. */
  datatype Verdict = Accepted | Rejected | DriverFault

  /** The parameters a job announces for its image. */
  datatype Firmware = Firmware(size: bv32, crc: bv16)

  /** http_get returns neither of the two codes ota_download_firmware recognises as failures. */
  predicate PassesForSuccess(link: Link, outcome: Outcome) {
    match link
    case NoConnection(code) => code != -1 && code != -2
    case Connected(_) => outcome == Returned(0)
  }

  /** The download area holds an image of the announced size with the announced CRC. */
  ghost predicate Matches(m: Memory, firmware: Firmware) {
    && firmware.size as nat <= APPLICATION_SIZE
    && C.Crc(Load(m, Ota.Start(), firmware.size as nat)) == C.Word(firmware.crc)
  }

  /** The part of the body that came with the headers is in the receive buffer. */
  ghost predicate BodyFits(link: Link) {
    link.Connected? && link.response.Partial? ==> |link.response.body| <= HTTP_BUF_MAX_SIZE
  }

  /** Both bounds the update relies on: the announced size fits the download area, and the body the buffer. */
  ghost predicate Sane(link: Link, firmware: Firmware) {
    firmware.size as nat <= APPLICATION_SIZE && BodyFits(link)
  }

  /** What a download did: how the callback ended, the operations on the download area and the bytes received. */
  datatype Download = Download(outcome: Outcome, ops: seq<FlashOp>, stream: Bytes)

  /** The chunks that go to flash when a connection delivers these. */
  function WrittenChunks(link: Link, deliveries: seq<Bytes>): (chunks: seq<Bytes>)
    requires BodyFits(link)
    ensures AllFit(chunks)
  {
    if link.Connected? && link.response.Partial? then
      var chunks := Chunks(true, link.response.body, 0, link.response.contentLength, deliveries);
      chunks[..Stored(chunks)]
    else
      NothingInArea();
      []
  }

  /** The content fits the download area: all of its pages lie there. The program relies on this and checks it
      nowhere. */
  predicate ContentFits(link: Link, deliveries: seq<Bytes>)
    requires BodyFits(link)
  {
    InArea(WrittenChunks(link, deliveries))
  }

  /** What http_get leaves behind, for a link and what its connection delivers. Only a response that does not fit the
      buffer is written to flash; if that ends in success, the download area holds what was received, with zeros to
      the end of the page and blank behind it. */
  ghost predicate Fetched(before: Memory, link: Link, deliveries: seq<Bytes>, d: Download)
    requires BodyFits(link)
  {
    match link
    case NoConnection(code) => d.outcome == Returned(code) && d.ops == []
    case Connected(response) =>
      if response.Partial? then
        var chunks := Chunks(true, response.body, 0, response.contentLength, deliveries);
        && d.outcome == OutcomeOf(response.contentLength, chunks)
        && d.ops == EraseAreaOps() + WriteOps(WrittenChunks(link, deliveries))
        && (d.outcome == Returned(0) ==>
              && d.stream == Flatten(chunks)
              && Load(ApplyAll(before, d.ops), Ota.Start(), APPLICATION_SIZE) == AreaAfter(d.stream))
      else d.outcome == Returned(-2) && d.ops == []
  }

  lemma PartialFetched(before: Memory, response: Response, deliveries: seq<Bytes>, outcome: Outcome,
                       written: seq<Bytes>, got: Bytes)
    requires response.Partial? && BodyFits(Connected(response)) && AllFit(written)
    requires Received(outcome, response.contentLength,
                      Chunks(true, response.body, 0, response.contentLength, deliveries), written, response.body + got)
    ensures Fetched(before, Connected(response), deliveries,
                    Download(outcome, EraseAreaOps() + WriteOps(written), response.body + got))
  {
    var chunks := Chunks(true, response.body, 0, response.contentLength, deliveries);
    hide Chunks, AllFit, WriteOps, Flatten, AreaAfter, ApplyAll;
    assert chunks[..|chunks|] == chunks;
    DownloadAssembles(before, written);
  }

  /** A download programs only in its area if and only if its content fits there; it never programs before it. */
  lemma FetchedInArea(before: Memory, link: Link, deliveries: seq<Bytes>, d: Download)
    requires BodyFits(link) && Fetched(before, link, deliveries, d)
    ensures AllInside(d.ops, Ota.Start(), Ota.End()) <==> ContentFits(link, deliveries)
    ensures AllInside(d.ops, Ota.Start(), CHIP_SIZE)
  {
    hide Chunks, AllFit, WriteOps, AreaAfter, EraseAreaOps, OutcomeOf, ApplyAll;
    if link.Connected? && link.response.Partial? {
      InAreaExactly(WrittenChunks(link, deliveries));
    } else {
      NothingInArea();
    }
  }

  /** http_get, with ota_http_send_request_callback as its callback. */
  method HttpGet(flash: FlashDevice, transport: Transport, link: Link)
    returns (outcome: Outcome, ghost d: Download)
    requires flash.Valid() && BodyFits(link)
    modifies flash, flash.cells, transport
    ensures flash.Valid() && flash.log == old(flash.log) + d.ops && d.outcome == outcome
    ensures Fetched(old(flash.Contents()), link, old(transport.deliveries), d)
  {
    match link {
      case NoConnection(code) =>
        outcome := Returned(code);
        d := Download(outcome, [], []);
      case Connected(response) =>
        ghost var written, got;
        outcome, written, got := RequestCallback(flash, transport, response);
        d := Download(outcome, [], []);
        if response.Partial? {
          d := Download(outcome, EraseAreaOps() + WriteOps(written), response.body + got);
          PartialFetched(old(flash.Contents()), response, old(transport.deliveries), outcome, written, got);
        }
    }
  }

  /** Over a connection the callback reports success or -2, so nothing else is taken for success. */
  lemma CallbackStatus(before: Memory, link: Link, deliveries: seq<Bytes>, d: Download)
    requires BodyFits(link) && Fetched(before, link, deliveries, d) && d.outcome.Returned?
    ensures PassesForSuccess(link, d.outcome) <==> d.outcome.status != -1 && d.outcome.status != -2
  {}

  lemma SameWord(a: bv16, b: bv16)
    ensures C.Word(a) == C.Word(b) <==> a == b
  {
    if C.Word(a) == C.Word(b) {
      C.WordInjective(a, b);
    }
  }

  /** The CRC gate at the end of ota_download_firmware. */
  method CheckCrc(flash: FlashDevice, fwSize: nat, fwCrc: bv16) returns (ok: bool)
    requires flash.Valid() && fwSize <= APPLICATION_SIZE
    ensures ok <==> C.Crc(Load(flash.Contents(), Ota.Start(), fwSize)) == C.Word(fwCrc)
  {
    var calcedCrc := C.DeviceCrc(flash.cells, Ota.Start(), fwSize);
    assert flash.cells[Ota.Start()..Ota.Start() + fwSize] == Load(flash.Contents(), Ota.Start(), fwSize);
    SameWord(calcedCrc, fwCrc);
    ok := calcedCrc == fwCrc;
  }

  /** ota_download_firmware. The CRC is computed over the download area in every case that is not recognised as a
      failure, so an accepted image always has the announced CRC, even when nothing was downloaded. */
  method DownloadFirmware(flash: FlashDevice, transport: Transport, link: Link, firmware: Firmware)
    returns (verdict: Verdict, ghost d: Download)
    requires flash.Valid() && Sane(link, firmware)
    modifies flash, flash.cells, transport
    ensures flash.Valid() && flash.log == old(flash.log) + d.ops
    ensures Fetched(old(flash.Contents()), link, old(transport.deliveries), d)
    ensures verdict == VerdictOf(link, d, flash.Contents(), firmware)
  {
    var outcome;
    outcome, d := HttpGet(flash, transport, link);
    if !outcome.Returned? {
      return DriverFault, d;
    }
    CallbackStatus(old(flash.Contents()), link, old(transport.deliveries), d);
    var retHttpResult := outcome.status;
    if retHttpResult == -1 || retHttpResult == -2 {
      return Rejected, d;
    }
    var ok := CheckCrc(flash, firmware.size as nat, firmware.crc);
    verdict := if ok then Accepted else Rejected;
  }

  /** What becomes of a download that leaves the flash as after. */
  ghost function VerdictOf(link: Link, d: Download, after: Memory, firmware: Firmware): Verdict {
    if !d.outcome.Returned? then DriverFault
    else if PassesForSuccess(link, d.outcome) && Matches(after, firmware) then Accepted
    else Rejected
  }

  // ---- What an accepted image is -------------------------------------------------------------------

  /** When an image is accepted. Over a connection the CRC is that of the bytes received, and beyond them of zeros to
      the end of their page and of blank flash, up to the announced size, which is compared with nothing. Without a
      connection it is the CRC of what the download area held before. */
  lemma AcceptedExactly(before: Memory, link: Link, deliveries: seq<Bytes>, d: Download, firmware: Firmware)
    requires Sane(link, firmware) && Fetched(before, link, deliveries, d)
    ensures VerdictOf(link, d, ApplyAll(before, d.ops), firmware) == Accepted
            <==> match link
                 case NoConnection(code) => code != -1 && code != -2 && Matches(before, firmware)
                 case Connected(_) =>
                   && d.outcome == Returned(0)
                   && C.Crc(AreaAfter(d.stream)[..firmware.size as nat]) == C.Word(firmware.crc)
  {
    hide Chunks, OutcomeOf, AreaAfter;
    var size := firmware.size as nat;
    if link.Connected? && d.outcome == Returned(0) {
      LoadLess(ApplyAll(before, d.ops), Ota.Start(), APPLICATION_SIZE, size);
    }
  }

  /** What an image accepted over a connection is, and that it is what was received if and only if the announced size
      is not larger. */
  lemma AcceptedImage(before: Memory, link: Link, deliveries: seq<Bytes>, d: Download, firmware: Firmware)
    requires Sane(link, firmware) && Fetched(before, link, deliveries, d)
    requires link.Connected? && VerdictOf(link, d, ApplyAll(before, d.ops), firmware) == Accepted
    ensures
      var size := firmware.size as nat;
      var image := Load(ApplyAll(before, d.ops), Ota.Start(), size);
      && image == AreaAfter(d.stream)[..size]
      && (size <= |d.stream| ==> image == d.stream[..size])
      && (image <= d.stream <==> size <= |d.stream|)
  {
    hide Chunks, OutcomeOf;
    var size := firmware.size as nat;
    LoadLess(ApplyAll(before, d.ops), Ota.Start(), APPLICATION_SIZE, size);
    if size <= |d.stream| {
      AreaStarts(d.stream, size);
    }
  }

  lemma AreaStarts(data: Bytes, size: nat)
    requires size <= |data| && size <= APPLICATION_SIZE
    ensures AreaAfter(data)[..size] == data[..size]
  {
    forall i | 0 <= i < size
      ensures AreaAfter(data)[..size][i] == data[i]
    {
      assert AreaAfter(data)[..size][i] == AreaAfter(data)[i] == Padded(data, i);
    }
  }

  /** What http_get returns when the connection cannot be made: HTTPNetworkError of the HTTP library. */
  const HTTP_NETWORK_ERROR := 2

  /** An image accepted without a download: http_get returns something that is not recognised as a failure, as it does
      when the connection cannot be made, and the download area still holds an image with the announced CRC. */
  lemma StaleImageAccepted(before: Memory, deliveries: seq<Bytes>, firmware: Firmware, code: int)
    requires Matches(before, firmware) && code != -1 && code != -2
    ensures
      var link, d := NoConnection(code), Download(Returned(code), [], []);
      && Sane(link, firmware) && Fetched(before, link, deliveries, d)
      && VerdictOf(link, d, ApplyAll(before, d.ops), firmware) == Accepted
  {}

  /** Such a case: the network fails, and the area starts with a zero, for a firmware of one byte and CRC 0. */
  lemma StaleImageExists(before: Memory, deliveries: seq<Bytes>)
    requires before[Ota.Start()] == 0
    ensures
      var link, d := NoConnection(HTTP_NETWORK_ERROR), Download(Returned(HTTP_NETWORK_ERROR), [], []);
      && Fetched(before, link, deliveries, d)
      && VerdictOf(link, d, ApplyAll(before, d.ops), Firmware(1, 0)) == Accepted
  {
    assert Load(before, Ota.Start(), 1) == [0];
    C.CrcOfZero();
    StaleImageAccepted(before, deliveries, Firmware(1, 0), HTTP_NETWORK_ERROR);
  }

  // ---- The job document ----------------------------------------------------------------------------

  /** The part of APP_COMMON_t in memory that a job changes. */
  class AppCommon {
    var config: Bytes
    var enableReboot: bool

    constructor (config: Bytes)
      ensures this.config == config && !enableReboot
    {
      this.config := config;
      enableReboot := false;
    }
  }

  /** The configuration a successful job saves, and whatever lies behind it in memory. */
  function RequestBuffer(l: ValidLayout, config: Bytes, firmware: Firmware, behind: Bytes): (buffer: Bytes)
    requires |config| == l.size && |behind| >= PAGE_SIZE
    ensures ConfigBuffer(l, buffer) && buffer[..l.size] == Requested(l, config, firmware.size, firmware.crc)
  {
    PagesCover(l.size);
    Requested(l, config, firmware.size, firmware.crc) + behind
  }

  method SaveRequest(flash: FlashDevice, l: ValidLayout, app: AppCommon, firmware: Firmware, behind: Bytes)
    requires flash.Valid() && |app.config| == l.size && |behind| >= PAGE_SIZE
    modifies flash, flash.cells, app
    ensures flash.Valid()
    ensures flash.log == old(flash.log) + ConfigOps(l, RequestBuffer(l, old(app.config), firmware, behind))
    ensures app.config == Requested(l, old(app.config), firmware.size, firmware.crc) && app.enableReboot
  {
    ghost var buffer := RequestBuffer(l, app.config, firmware, behind);
    app.config := Requested(l, app.config, firmware.size, firmware.crc);
    SectorsCover(l.size);
    flash.SaveCommonConfig(app.config + behind, l.size);
    app.enableReboot := true;
  }

  /** What a job brings with it: its type, what parsing_ota_job_params finds in its document, what
      is_upper_version_fw says of the version, how its download goes, and the memory behind the configuration. */
  datatype Job = Job(jobType: string, params: Option<Firmware>, newer: bool, link: Link, behind: Bytes)

  ghost predicate SaneJob(job: Job) {
    |job.behind| >= PAGE_SIZE && (job.params.Some? ==> Sane(job.link, job.params.value))
  }

  /** What a job document does to the flash and to the configuration in memory. Only an OTA job does anything; it
      is accepted if and only if the image ends up in the download area with the announced CRC, and only then is a
      request saved. done are all operations performed, those on the download area first. */
  ghost predicate DocumentDone(l: ValidLayout, before: Memory, config: Bytes, job: Job, deliveries: seq<Bytes>,
                               verdict: Verdict, d: Download, done: seq<FlashOp>, after: Bytes)
    requires |config| == l.size && SaneJob(job)
  {
    if job.jobType != "OTA" then
      verdict == Accepted && done == [] && after == config
    else
      var disabled := WithStatus(l, config, false);
      if job.params.None? || !job.newer then
        verdict == Rejected && done == [] && after == disabled
      else
        && Fetched(before, job.link, deliveries, d)
        && verdict == VerdictOf(job.link, d, ApplyAll(before, d.ops), job.params.value)
        && (if verdict.Accepted?
            then && done == d.ops + ConfigOps(l, RequestBuffer(l, disabled, job.params.value, job.behind))
                 && after == Requested(l, disabled, job.params.value.size, job.params.value.crc)
            else done == d.ops && after == disabled)
  }

  /** What a job document leaves of the configuration, by the fields that the boot loader reads, and in flash: a job of
      another type changes nothing; one that is accepted leaves its request in memory and in flash; any other leaves no
      request in memory and does not save. Nothing else of the configuration changes. */
  lemma DocumentLeaves(l: ValidLayout, before: Memory, config: Bytes, job: Job, deliveries: seq<Bytes>,
                       verdict: Verdict, d: Download, done: seq<FlashOp>, after: Bytes)
    requires |config| == l.size && SaneJob(job)
    requires DocumentDone(l, before, config, job, deliveries, verdict, d, done, after)
    ensures |after| == l.size
    ensures forall i :: 0 <= i < l.size && !(l.otaInfo <= i < l.otaInfo + 12) ==> after[i] == config[i]
    ensures job.jobType != "OTA" ==> verdict.Accepted? && done == [] && after == config
    ensures
      var was, now := OtaInfo(l, config), OtaInfo(l, after);
      job.jobType == "OTA" ==>
        if verdict.Accepted?
        then && job.params.Some? && job.newer && InfoEnabled(l, now) && InfoSize(now) == job.params.value.size as nat
             && InfoCrc(now) == C.Word(job.params.value.crc) && Config(l, ApplyAll(before, done)) == after
        else && !InfoEnabled(l, now) && InfoSize(now) == InfoSize(was) && InfoCrc(now) == InfoCrc(was)
             && (job.params.None? || !job.newer ==> verdict.Rejected? && done == [])
             && (job.params.Some? && job.newer ==> done == d.ops)
  {
    hide Fetched, VerdictOf, WithStatus, Requested, ConfigOps, ApplyAll, InfoEnabled, OtaInfo;
    if job.jobType == "OTA" {
      var disabled := WithStatus(l, config, false);
      StatusWritten(l, config, false);
      forall i | 0 <= i < l.size && !(l.otaInfo <= i < l.otaInfo + 12)
        ensures disabled[i] == config[i]
      {
        OnlyInfoChanges(l, config, false, 0, 0, i);
      }
      if verdict.Accepted? {
        var firmware := job.params.value;
        var buffer := RequestBuffer(l, disabled, firmware, job.behind);
        RequestWritten(l, disabled, firmware.size, firmware.crc);
        ApplyAllAppend(before, d.ops, ConfigOps(l, buffer));
        ConfigDone(l, ApplyAll(before, d.ops), buffer);
        forall i | 0 <= i < l.size && !(l.otaInfo <= i < l.otaInfo + 12)
          ensures after[i] == disabled[i]
        {
          OnlyInfoChanges(l, disabled, true, firmware.size, firmware.crc, i);
        }
      }
    }
  }

  /** start_job_document. */
  method StartJobDocument(flash: FlashDevice, l: ValidLayout, app: AppCommon, job: Job, transport: Transport)
    returns (verdict: Verdict, ghost d: Download, ghost done: seq<FlashOp>)
    requires flash.Valid() && |app.config| == l.size && SaneJob(job)
    modifies flash, flash.cells, app, transport
    ensures flash.Valid() && flash.log == old(flash.log) + done && |app.config| == l.size
    ensures DocumentDone(l, old(flash.Contents()), old(app.config), job, old(transport.deliveries), verdict, d, done,
                         app.config)
    ensures app.enableReboot == (old(app.enableReboot) || (job.jobType == "OTA" && verdict.Accepted?))
  {
    hide Fetched, VerdictOf, WithStatus, Requested, ConfigOps, ApplyAll;
    d, done := Download(Returned(-1), [], []), [];
    if job.jobType != "OTA" {
      return Accepted, d, done;
    }
    app.config := WithStatus(l, app.config, false);
    if job.params.None? || !job.newer {
      return Rejected, d, done;
    }
    verdict, d := DownloadFirmware(flash, transport, job.link, job.params.value);
    ApplyAllAppend(flash.initial, old(flash.log), d.ops);
    done := d.ops;
    if verdict.Accepted? {
      done := d.ops + ConfigOps(l, RequestBuffer(l, app.config, job.params.value, job.behind));
      SaveRequest(flash, l, app, job.params.value, job.behind);
    }
  }
}
