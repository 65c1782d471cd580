/** iot_jobs_job_ota_handler.c: receiving an image chunk by chunk into the download area, and the CRC check. */
module OtaDownload {
  import opened Wrappers
  import opened NorFlash
  import opened FlashControl

  const HTTP_BUF_MAX_SIZE: nat := 2048

  /** A receive: what it returns and what is still to come. It takes the next delivery, or as much of it as there is
      room for; when nothing comes within the timeout it returns no bytes. */
  datatype Arrival = Arrival(data: Bytes, left: seq<Bytes>)

  function Receive(deliveries: seq<Bytes>, room: nat): (arrival: Arrival)
    ensures |arrival.data| <= room
  {
    if deliveries == [] then Arrival([], [])
    else if |deliveries[0]| <= room then Arrival(deliveries[0], deliveries[1..])
    else Arrival(deliveries[0][..room], [deliveries[0][room..]] + deliveries[1..])
  }

  /** The network under the HTTP client: what each future delivery will bring. */
  class Transport {
    var deliveries: seq<Bytes>
    ghost var received: Bytes

    method Recv(room: nat) returns (data: Bytes)
      modifies this
      ensures Arrival(data, deliveries) == Receive(old(deliveries), room)
      ensures received == old(received) + data
    {
      if deliveries == [] {
        data := [];
      } else if |deliveries[0]| <= room {
        data := deliveries[0];
        deliveries := deliveries[1..];
      } else {
        data := deliveries[0][..room];
        deliveries := [deliveries[0][room..]] + deliveries[1..];
      }
      received := received + data;
    }
  }

  /** What HTTPClient_Send reports: a failure, a response that fits the 2048-byte buffer, or one that does not,
      with the part of the body that did. */
  datatype Response = Failed | Complete | Partial(body: Bytes, contentLength: nat)

  /** How the request callback ends: it returns a status, or asks the flash driver for something outside its
      contract, a page program that does not start on a page or one beyond the chip. */
  datatype Outcome = Returned(status: int) | Misaligned | PastChip

  function Flatten(chunks: seq<Bytes>): Bytes {
    if chunks == [] then [] else Flatten(chunks[..|chunks| - 1]) + chunks[|chunks| - 1]
  }

  function Total(chunks: seq<Bytes>): nat {
    |Flatten(chunks)|
  }

  /** The receive buffer with a chunk at its front: it is zeroed before each chunk. */
  function Buffer(chunk: Bytes): (buffer: Bytes)
    requires |chunk| <= HTTP_BUF_MAX_SIZE
    ensures |buffer| == HTTP_BUF_MAX_SIZE
  {
    chunk + seq(HTTP_BUF_MAX_SIZE - |chunk|, i => 0 as bv8)
  }

  /** The flash driver can program chunk where total bytes have been written before: it wants whole pages that are on
      the chip, and knows nothing of areas. */
  predicate Fits(total: nat, chunk: Bytes) {
    && |chunk| <= HTTP_BUF_MAX_SIZE
    && total % 256 == 0 && total + 256 * Pages(|chunk|) <= OTA_ROOM
  }

  function ChunkOps(total: nat, chunk: Bytes): seq<FlashOp>
    requires Fits(total, chunk)
  {
    PagesCover(|chunk|);
    ProgramOps(16 * Ota.Sector() + total / 256, Buffer(chunk)[..256 * Pages(|chunk|)], Pages(|chunk|))
  }

  predicate AllFit(chunks: seq<Bytes>) {
    chunks != [] ==>
      var k := |chunks| - 1;
      AllFit(chunks[..k]) && Fits(Total(chunks[..k]), chunks[k])
  }

  /** The programs that write the chunks one behind the other. */
  function WriteOps(chunks: seq<Bytes>): seq<FlashOp>
    requires AllFit(chunks)
  {
    if chunks == [] then []
    else
      var k := |chunks| - 1;
      WriteOps(chunks[..k]) + ChunkOps(Total(chunks[..k]), chunks[k])
  }

  function EraseAreaOps(): seq<FlashOp> {
    EraseOps(Ota.Sector(), IMAGE_SECTORS)
  }

  lemma FlattenAppend(chunks: seq<Bytes>, chunk: Bytes)
    ensures Flatten(chunks + [chunk]) == Flatten(chunks) + chunk
    ensures AllFit(chunks) && Fits(Total(chunks), chunk) ==>
              && AllFit(chunks + [chunk])
              && WriteOps(chunks + [chunk]) == WriteOps(chunks) + ChunkOps(Total(chunks), chunk)
  {
    assert (chunks + [chunk])[..|chunks|] == chunks;
  }

  /** A chunk: the first is the part of the body that came with the headers and what the next receive brings; a later
      one that does not fill the buffer is topped up with a second receive. */
  function NextChunk(first: bool, body: Bytes, deliveries: seq<Bytes>): (chunk: Arrival)
    requires |body| <= HTTP_BUF_MAX_SIZE
    ensures |chunk.data| <= HTTP_BUF_MAX_SIZE
  {
    if first then
      var more := Receive(deliveries, HTTP_BUF_MAX_SIZE - |body|);
      Arrival(body + more.data, more.left)
    else
      var once := Receive(deliveries, HTTP_BUF_MAX_SIZE);
      if |once.data| < HTTP_BUF_MAX_SIZE then
        var twice := Receive(once.left, HTTP_BUF_MAX_SIZE - |once.data|);
        Arrival(once.data + twice.data, twice.left)
      else once
  }

  /** The chunks a download brings from here on, if all of them can be stored: up to one that is empty, or one that
      completes the announced content. */
  function Chunks(first: bool, body: Bytes, total: nat, contentLength: nat, deliveries: seq<Bytes>): seq<Bytes>
    requires |body| <= HTTP_BUF_MAX_SIZE
    decreases contentLength - total, first
  {
    var chunk := NextChunk(first, body, deliveries);
    if chunk.data == [] then []
    else if total + |chunk.data| >= contentLength then [chunk.data]
    else [chunk.data] + Chunks(false, body, total + |chunk.data|, contentLength, chunk.left)
  }

  /** How many of the chunks go to flash before one that cannot be stored where it lands. */
  function Stored(chunks: seq<Bytes>): (k: nat)
    ensures k <= |chunks| && AllFit(chunks[..k])
    ensures k < |chunks| ==> !Fits(Total(chunks[..k]), chunks[k])
  {
    if AllFit(chunks) then
      assert chunks[..|chunks|] == chunks;
      |chunks|
    else
      var front := chunks[..|chunks| - 1];
      var k := Stored(front);
      assert chunks[..k] == front[..k];
      assert AllFit(front) ==> k == |front|;
      k
  }

  /** How a download that brings these chunks ends. */
  function OutcomeOf(contentLength: nat, chunks: seq<Bytes>): Outcome {
    var k := Stored(chunks);
    if k < |chunks| then if Total(chunks[..k]) % 256 != 0 then Misaligned else PastChip
    else Returned(if chunks != [] && contentLength <= Total(chunks) then 0 else -2)
  }

  /** What the buffer of 2048 bytes takes from the deliveries, and what it leaves. The first chunk is the body and one
      delivery, or as much of it as there is room for. A later chunk is one delivery, or two if the first of them leaves
      room; a delivery that is larger than the room is cut. */
  ghost predicate Receives(first: bool, body: Bytes, deliveries: seq<Bytes>, chunk: Bytes, left: seq<Bytes>) {
    var start := if first then body else [];
    var n := |deliveries|;
    if n == 0 then chunk == start && left == []
    else if |start| + |deliveries[0]| > 2048 then
      Cut(start, 2048 - |start|, deliveries[0], deliveries[1..], chunk, left)
    else if first || n == 1 || |deliveries[0]| == 2048 then chunk == start + deliveries[0] && left == deliveries[1..]
    else if |deliveries[0]| + |deliveries[1]| > 2048 then
      Cut(deliveries[0], 2048 - |deliveries[0]|, deliveries[1], deliveries[2..], chunk, left)
    else chunk == deliveries[0] + deliveries[1] && left == deliveries[2..]
  }

  /** Only room bytes of data go behind start; the rest stays in front of what is left. */
  ghost predicate Cut(start: Bytes, room: int, data: Bytes, rest: seq<Bytes>, chunk: Bytes, left: seq<Bytes>) {
    0 <= room <= |data| && chunk == start + data[..room] && left == [data[room..]] + rest
  }

  lemma NextReceives(first: bool, body: Bytes, deliveries: seq<Bytes>)
    requires |body| <= HTTP_BUF_MAX_SIZE
    ensures
      var chunk := NextChunk(first, body, deliveries);
      Receives(first, body, deliveries, chunk.data, chunk.left)
  {
    if !first && |deliveries| > 1 {
      assert deliveries[1..][0] == deliveries[1] && deliveries[1..][1..] == deliveries[2..];
    }
  }

  /** ReceiveChunk takes exactly what has been delivered. */
  method ReceiveChunk(transport: Transport, isFirstRecv: bool, body: Bytes)
    returns (chunk: Bytes, ghost arrived: Bytes)
    requires |body| <= HTTP_BUF_MAX_SIZE
    modifies transport
    ensures Arrival(chunk, transport.deliveries) == NextChunk(isFirstRecv, body, old(transport.deliveries))
    ensures Receives(isFirstRecv, body, old(transport.deliveries), chunk, transport.deliveries)
    ensures transport.received == old(transport.received) + arrived
    ensures chunk == (if isFirstRecv then body else []) + arrived
  {
    NextReceives(isFirstRecv, body, transport.deliveries);
    if isFirstRecv {
      var data := transport.Recv(HTTP_BUF_MAX_SIZE - |body|);
      chunk, arrived := body + data, data;
    } else {
      chunk := transport.Recv(HTTP_BUF_MAX_SIZE);
      if |chunk| < HTTP_BUF_MAX_SIZE {
        var received2nd := transport.Recv(HTTP_BUF_MAX_SIZE - |chunk|);
        chunk := chunk + received2nd;
      }
      arrived := chunk;
    }
  }

  /** write_flash_ota_binary on the receive buffer, if the driver can take it there. */
  method StoreChunk(flash: FlashDevice, total: nat, chunk: Bytes) returns (outcome: Outcome)
    requires flash.Valid() && |chunk| <= HTTP_BUF_MAX_SIZE
    modifies flash, flash.cells
    ensures flash.Valid()
    ensures if Fits(total, chunk)
            then outcome == Returned(0) && flash.log == old(flash.log) + ChunkOps(total, chunk)
            else outcome == (if total % 256 != 0 then Misaligned else PastChip) && flash.log == old(flash.log)
  {
    PagesCover(|chunk|);
    if total % PAGE_SIZE != 0 {
      return Misaligned;
    } else if !Fits(total, chunk) {
      return PastChip;
    }
    flash.WriteOtaBinary(total, Buffer(chunk), |chunk|, total / PAGE_SIZE);
    return Returned(0);
  }

  /** What the receive loop has done when it ends, when the download brings these chunks: those that could be stored
      went to flash. stream is everything received, with the part of the body found in the response. */
  ghost predicate Received(outcome: Outcome, contentLength: nat, chunks: seq<Bytes>, written: seq<Bytes>,
                           stream: Bytes)
  {
    && outcome == OutcomeOf(contentLength, chunks) && written == chunks[..Stored(chunks)]
    && stream == Flatten(chunks[..if Stored(chunks) < |chunks| then Stored(chunks) + 1 else Stored(chunks)])
  }

  /** Between two passes: written has gone to flash, got has been received, first says that nothing has been. */
  ghost predicate Between(first: bool, body: Bytes, total: nat, written: seq<Bytes>, got: Bytes) {
    && AllFit(written) && total == Total(written) && first == (written == [])
    && Flatten(written) + (if first then body else []) == body + got
  }

  lemma ChunkArrives(first: bool, body: Bytes, total: nat, written: seq<Bytes>, got: Bytes, arrived: Bytes)
    requires Between(first, body, total, written, got)
    ensures Flatten(written) + ((if first then body else []) + arrived) == body + (got + arrived)
  {
    Regroup(Flatten(written), if first then body else [], arrived);
    Regroup(body, got, arrived);
  }

  lemma ChunkStored(body: Bytes, total: nat, written: seq<Bytes>, chunk: Bytes, got: Bytes)
    requires AllFit(written) && total == Total(written) && Fits(total, chunk)
    requires Flatten(written) + chunk == body + got
    ensures Between(false, body, total + |chunk|, written + [chunk], got)
    ensures WriteOps(written + [chunk]) == WriteOps(written) + ChunkOps(total, chunk)
  {
    FlattenAppend(written, chunk);
  }

  lemma {:induction false} PrefixFits(chunks: seq<Bytes>, j: nat, k: nat)
    requires j <= k <= |chunks| && AllFit(chunks[..k])
    ensures AllFit(chunks[..j]) && (j < k ==> Fits(Total(chunks[..j]), chunks[j]))
    decreases k
  {
    if j < k {
      assert chunks[..k][..k - 1] == chunks[..k - 1];
      PrefixFits(chunks, j, k - 1);
    }
  }

  /** There is only one place where the first chunk that cannot be stored can be. */
  lemma StoredIs(chunks: seq<Bytes>, k: nat)
    requires k <= |chunks| && AllFit(chunks[..k])
    requires k < |chunks| ==> !Fits(Total(chunks[..k]), chunks[k])
    ensures Stored(chunks) == k
  {
    hide Fits, AllFit;
    var n := Stored(chunks);
    if n < k {
      PrefixFits(chunks, n, k);
    } else if k < n {
      PrefixFits(chunks, k, n);
    }
  }

  /** The loop ends in front of a chunk that is empty. */
  lemma EmptyEnds(contentLength: nat, chunks: seq<Bytes>, written: seq<Bytes>)
    requires AllFit(written) && chunks == written && (written == [] || Total(written) < contentLength)
    ensures Received(Returned(-2), contentLength, chunks, written, Flatten(written))
  {
    assert chunks[..|chunks|] == chunks;
    StoredIs(chunks, |chunks|);
  }

  /** The loop ends behind a chunk that completes the content. */
  lemma CompleteEnds(contentLength: nat, chunks: seq<Bytes>, written: seq<Bytes>)
    requires AllFit(written) && chunks == written && written != [] && Total(written) >= contentLength
    ensures Received(Returned(0), contentLength, chunks, written, Flatten(written))
  {
    assert chunks[..|chunks|] == chunks;
    StoredIs(chunks, |chunks|);
  }

  /** The loop ends at a chunk that cannot be stored, whatever would come behind it. */
  lemma FaultEnds(contentLength: nat, chunks: seq<Bytes>, written: seq<Bytes>, chunk: Bytes, behind: seq<Bytes>)
    requires AllFit(written) && !Fits(Total(written), chunk) && chunks == written + ([chunk] + behind)
    ensures Received(if Total(written) % 256 != 0 then Misaligned else PastChip, contentLength, chunks, written,
                     Flatten(written) + chunk)
  {
    hide AllFit, Fits, Flatten;
    var k := |written|;
    assert chunks[..k] == written && chunks[k] == chunk && chunks[..k + 1] == written + [chunk];
    StoredIs(chunks, k);
    FlattenAppend(written, chunk);
  }

  /** One pass of the loop: receive a chunk and, if it is not empty, write it. */
  method ReceivePass(flash: FlashDevice, transport: Transport, first: bool, body: Bytes, total: nat,
                     ghost written: seq<Bytes>, ghost got: Bytes)
    returns (outcome: Outcome, chunk: Bytes, ghost arrived: Bytes)
    requires flash.Valid() && |body| <= HTTP_BUF_MAX_SIZE && Between(first, body, total, written, got)
    modifies flash, flash.cells, transport
    ensures flash.Valid() && transport.received == old(transport.received) + arrived
    ensures Arrival(chunk, transport.deliveries) == NextChunk(first, body, old(transport.deliveries))
    ensures |chunk| <= HTTP_BUF_MAX_SIZE && Flatten(written) + chunk == body + (got + arrived)
    ensures if chunk == [] then outcome == Returned(-2) && flash.log == old(flash.log)
            else if Fits(total, chunk)
            then outcome == Returned(0) && flash.log == old(flash.log) + ChunkOps(total, chunk)
            else outcome == (if total % 256 != 0 then Misaligned else PastChip) && flash.log == old(flash.log)
  {
    chunk, arrived := ReceiveChunk(transport, first, body);
    ChunkArrives(first, body, total, written, got, arrived);
    if |chunk| == 0 {
      return Returned(-2), chunk, arrived;
    }
    outcome := StoreChunk(flash, total, chunk);
  }

  /** Between two passes of a download that brings all: what is still to come, and what has come. */
  ghost predicate Ongoing(all: seq<Bytes>, first: bool, body: Bytes, total: nat, contentLength: nat,
                          deliveries: seq<Bytes>, written: seq<Bytes>, got: Bytes)
  {
    && |body| <= HTTP_BUF_MAX_SIZE && Between(first, body, total, written, got) && (first || total < contentLength)
    && all == written + Chunks(first, body, total, contentLength, deliveries)
  }

  lemma DownloadStarts(body: Bytes, contentLength: nat, deliveries: seq<Bytes>)
    requires |body| <= HTTP_BUF_MAX_SIZE
    ensures Ongoing(Chunks(true, body, 0, contentLength, deliveries), true, body, 0, contentLength, deliveries, [], [])
    ensures WriteOps([]) == []
  {}

  /** A pass that ends the download without storing its chunk. */
  lemma PassEnds(all: seq<Bytes>, first: bool, body: Bytes, total: nat, contentLength: nat, deliveries: seq<Bytes>,
                 written: seq<Bytes>, got: Bytes, chunk: Bytes)
    requires Ongoing(all, first, body, total, contentLength, deliveries, written, got)
    requires chunk == NextChunk(first, body, deliveries).data && (chunk == [] || !Fits(total, chunk))
    ensures
      var outcome := if chunk == [] then Returned(-2) else if total % 256 != 0 then Misaligned else PastChip;
      Received(outcome, contentLength, all, written, Flatten(written) + chunk)
  {
    hide NextChunk, Received, AllFit, Fits, Flatten;
    var later := Chunks(first, body, total, contentLength, deliveries);
    if chunk == [] {
      EmptyEnds(contentLength, all, written);
      assert Flatten(written) + chunk == Flatten(written);
    } else {
      assert later == [chunk] + later[1..];
      FaultEnds(contentLength, all, written, chunk, later[1..]);
    }
  }

  /** A pass that stores its chunk. */
  lemma PassStores(all: seq<Bytes>, first: bool, body: Bytes, total: nat, contentLength: nat, deliveries: seq<Bytes>,
                   written: seq<Bytes>, got: Bytes, chunk: Arrival, now: Bytes)
    requires Ongoing(all, first, body, total, contentLength, deliveries, written, got)
    requires chunk == NextChunk(first, body, deliveries) && chunk.data != [] && Fits(total, chunk.data)
    requires Flatten(written) + chunk.data == body + now
    ensures AllFit(written) && AllFit(written + [chunk.data])
    ensures WriteOps(written + [chunk.data]) == WriteOps(written) + ChunkOps(total, chunk.data)
    ensures
      var sum, more := total + |chunk.data|, written + [chunk.data];
      if sum >= contentLength then Received(Returned(0), contentLength, all, more, body + now)
      else Ongoing(all, false, body, sum, contentLength, chunk.left, more, now)
  {
    hide NextChunk, Received, AllFit, Fits, Flatten, WriteOps, ChunkOps;
    var sum, more := total + |chunk.data|, written + [chunk.data];
    ChunkStored(body, total, written, chunk.data, now);
    if sum >= contentLength {
      CompleteEnds(contentLength, all, more);
      assert Flatten(more) + [] == Flatten(more);
    } else {
      Regroup(written, [chunk.data], Chunks(false, body, sum, contentLength, chunk.left));
    }
  }

  /** The receive loop of ota_http_send_request_callback. */
  method ReceiveBody(flash: FlashDevice, transport: Transport, body: Bytes, contentLength: nat)
    returns (outcome: Outcome, ghost written: seq<Bytes>, ghost got: Bytes)
    requires flash.Valid() && |body| <= HTTP_BUF_MAX_SIZE
    modifies flash, flash.cells, transport
    ensures flash.Valid() && transport.received == old(transport.received) + got
    ensures Received(outcome, contentLength, Chunks(true, body, 0, contentLength, old(transport.deliveries)),
                     written, body + got)
    ensures outcome.Returned? ==> outcome.status == 0 || outcome.status == -2
    ensures AllFit(written) && flash.log == old(flash.log) + WriteOps(written)
  {
    hide NextChunk, Received, AllFit, Fits, Flatten, WriteOps, ChunkOps, Chunks;
    ghost var all := Chunks(true, body, 0, contentLength, transport.deliveries);
    DownloadStarts(body, contentLength, transport.deliveries);
    var currentTotalLen := 0;
    var isFirstRecv := true;
    written, got := [], [];
    while true
      invariant flash.Valid()
      invariant Ongoing(all, isFirstRecv, body, currentTotalLen, contentLength, transport.deliveries, written, got)
      invariant flash.log == old(flash.log) + WriteOps(written)
      invariant transport.received == old(transport.received) + got
      decreases contentLength - currentTotalLen, isFirstRecv
    {
      ghost var arrived;
      ghost var deliveries := transport.deliveries;
      var chunk: Bytes;
      outcome, chunk, arrived := ReceivePass(flash, transport, isFirstRecv, body, currentTotalLen, written, got);
      Regroup(old(transport.received), got, arrived);
      if outcome != Returned(0) {
        PassEnds(all, isFirstRecv, body, currentTotalLen, contentLength, deliveries, written, got, chunk);
        return outcome, written, got + arrived;
      }
      PassStores(all, isFirstRecv, body, currentTotalLen, contentLength, deliveries, written, got,
                 Arrival(chunk, transport.deliveries), got + arrived);
      Regroup(old(flash.log), WriteOps(written), ChunkOps(currentTotalLen, chunk));
      got := got + arrived;
      written := written + [chunk];
      isFirstRecv := false;
      currentTotalLen := currentTotalLen + |chunk|;
      if currentTotalLen >= contentLength {
        return Returned(0), written, got;
      }
    }
  }

  // ---- What a download leaves in flash -------------------------------------------------------------

  /** The bytes that a download of data programs, one for each place from the start of the download area on: the data,
      zeros from the receive buffer to the end of the page, and ones, which change nothing, where it programs no
      more. */
  function Padded(data: Bytes, i: nat): bv8 {
    if i < |data| then data[i] else if i < 256 * Pages(|data|) then 0 else 0xFF
  }

  lemma PagesOfSum(total: nat, n: nat)
    requires total % 256 == 0
    ensures 256 * Pages(total) == total && 256 * Pages(total + n) == total + 256 * Pages(n)
  {
    PagesCover(n);
    PagesCover(total);
    PagesCover(total + n);
  }

  /** Another chunk continues where the data before it ended, on a page of its own. */
  lemma PaddedMore(data: Bytes, chunk: Bytes, i: nat)
    requires |data| % 256 == 0 && |chunk| <= HTTP_BUF_MAX_SIZE
    ensures Padded(data + chunk, i) ==
            if |data| <= i < |data| + 256 * Pages(|chunk|) then Padded(chunk, i - |data|) else Padded(data, i)
    ensures i >= |data| ==> Padded(data, i) == 0xFF
  {
    PagesOfSum(|data|, |chunk|);
    PagesCover(|chunk|);
  }

  lemma BufferByte(chunk: Bytes, j: nat)
    requires |chunk| <= HTTP_BUF_MAX_SIZE && j < 256 * Pages(|chunk|)
    ensures j < HTTP_BUF_MAX_SIZE && Buffer(chunk)[j] == Padded(chunk, j)
  {
    PagesCover(|chunk|);
  }

  lemma ProgrammedAll(m: Memory, page: nat, data: Bytes, pages: nat, i: nat)
    requires |data| == 256 * pages && 256 * (page + pages) <= CHIP_SIZE && i < CHIP_SIZE
    ensures ApplyAll(m, ProgramOps(page, data, pages))[i] ==
            if 256 * page <= i < 256 * (page + pages) then m[i] & data[i - 256 * page] else m[i]
  {
    hide ApplyAll;
    ProgrammedByte(m, page, data, pages, pages, i);
    assert ProgramOps(page, data, pages)[..pages] == ProgramOps(page, data, pages);
  }

  /** A byte after a chunk is programmed behind total bytes: programming can only clear bits. */
  function ProgramByte(byte: bv8, total: nat, chunk: Bytes, i: nat): bv8 {
    if total <= i < total + 256 * Pages(|chunk|) then byte & Padded(chunk, i - total) else byte
  }

  lemma ChunkProgrammed(m: Memory, total: nat, chunk: Bytes, i: nat)
    requires Fits(total, chunk) && i < OTA_ROOM
    ensures ApplyAll(m, ChunkOps(total, chunk))[Ota.Start() + i] == ProgramByte(m[Ota.Start() + i], total, chunk, i)
  {
    hide Buffer, ApplyAll, Padded;
    var page, pages := 16 * Ota.Sector() + total / 256, Pages(|chunk|);
    PagesCover(|chunk|);
    var data := Buffer(chunk)[..256 * pages];
    assert 256 * page == Ota.Start() + total;
    ProgrammedAll(m, page, data, pages, Ota.Start() + i);
    if total <= i < total + 256 * pages {
      BufferByte(chunk, i - total);
    }
  }

  /** A byte after all of data is programmed. */
  function ProgramData(byte: bv8, data: Bytes, i: nat): bv8 {
    byte & Padded(data, i)
  }

  lemma DataMore(byte: bv8, data: Bytes, chunk: Bytes, i: nat)
    requires |data| % 256 == 0 && |chunk| <= HTTP_BUF_MAX_SIZE
    ensures ProgramData(byte, data + chunk, i) == ProgramByte(ProgramData(byte, data, i), |data|, chunk, i)
  {
    hide Padded, Pages;
    PaddedMore(data, chunk, i);
    if i >= |data| {
      AndOnes(byte, Padded(data, i));
    }
  }

  /** Every place from the start of the download area on is programmed at most once, with its byte of the data. */
  lemma {:induction false} ChunksProgram(m: Memory, chunks: seq<Bytes>, i: nat)
    requires AllFit(chunks) && i < OTA_ROOM
    ensures ApplyAll(m, WriteOps(chunks))[Ota.Start() + i] == ProgramData(m[Ota.Start() + i], Flatten(chunks), i)
    decreases |chunks|
  {
    hide ApplyAll, ChunkOps, ProgramByte, ProgramData, Pages;
    if chunks == [] {
      NothingProgrammed(m, i);
    } else {
      var k := |chunks| - 1;
      var front, last := chunks[..k], chunks[k];
      ChunksProgram(m, front, i);
      ApplyAllAppend(m, WriteOps(front), ChunkOps(Total(front), last));
      ChunkProgrammed(ApplyAll(m, WriteOps(front)), Total(front), last, i);
      DataMore(m[Ota.Start() + i], Flatten(front), last, i);
    }
  }

  lemma NothingProgrammed(m: Memory, i: nat)
    requires i < OTA_ROOM
    ensures ApplyAll(m, [])[Ota.Start() + i] == ProgramData(m[Ota.Start() + i], [], i)
  {
    AndOnes(m[Ota.Start() + i], Padded([], i));
  }

  /** The download area after a download of data. */
  function AreaAfter(data: Bytes): (area: Bytes)
    ensures |area| == APPLICATION_SIZE
  {
    seq(APPLICATION_SIZE, i requires 0 <= i < APPLICATION_SIZE => Padded(data, i))
  }

  /** The byte at i after the erase and the writes: in the download area the byte of the data, because the flash there
      was erased before; behind it the data is programmed over whatever was there. */
  lemma DownloadedByte(m: Memory, chunks: seq<Bytes>, i: nat)
    requires AllFit(chunks) && i < OTA_ROOM
    ensures ApplyAll(m, EraseAreaOps() + WriteOps(chunks))[Ota.Start() + i] ==
            if i < APPLICATION_SIZE then Padded(Flatten(chunks), i)
            else ProgramData(m[Ota.Start() + i], Flatten(chunks), i)
  {
    hide ApplyAll, WriteOps, Padded, AllFit, EraseOps;
    var blank := ApplyAll(m, EraseAreaOps());
    ApplyAllAppend(m, EraseAreaOps(), WriteOps(chunks));
    ErasedByte(m, Ota.Sector(), IMAGE_SECTORS, Ota.Start() + i);
    ChunksProgram(blank, chunks, i);
    AndOnes(blank[Ota.Start() + i], Padded(Flatten(chunks), i));
  }

  /** After the erase and the writes the download area holds the chunks one behind the other, zeros to the end of
      their last page, and is blank from there. */
  lemma DownloadAssembles(m: Memory, chunks: seq<Bytes>)
    requires AllFit(chunks)
    ensures Load(ApplyAll(m, EraseAreaOps() + WriteOps(chunks)), Ota.Start(), APPLICATION_SIZE)
            == AreaAfter(Flatten(chunks))
  {
    hide ApplyAll, WriteOps, Padded, AllFit, EraseAreaOps;
    var after := ApplyAll(m, EraseAreaOps() + WriteOps(chunks));
    forall i | 0 <= i < APPLICATION_SIZE
      ensures after[Ota.Start() + i] == Padded(Flatten(chunks), i)
    {
      DownloadedByte(m, chunks, i);
    }
    SameArea(after, Flatten(chunks));
  }

  /** The same byte by byte and in addresses: from 0x14_0000 on the content, zeros to the end of its last page of 256
      bytes, and blank flash up to 0x1C_0000. */
  lemma DownloadedArea(m: Memory, chunks: seq<Bytes>, i: nat)
    requires AllFit(chunks) && i < 0x8_0000
    ensures
      var content := Flatten(chunks);
      ApplyAll(m, EraseAreaOps() + WriteOps(chunks))[0x14_0000 + i] ==
      if i < |content| then content[i] else if i < 256 * ((|content| + 255) / 256) then 0 else 0xFF
  {
    hide ApplyAll, WriteOps, AllFit, EraseAreaOps, Flatten, Pages;
    DownloadedByte(m, chunks, i);
    RoundedUp(Total(chunks));
  }

  lemma SameArea(m: Memory, data: Bytes)
    requires forall i :: 0 <= i < APPLICATION_SIZE ==> m[Ota.Start() + i] == Padded(data, i)
    ensures Load(m, Ota.Start(), APPLICATION_SIZE) == AreaAfter(data)
  {
    hide Padded;
    forall i | 0 <= i < APPLICATION_SIZE
      ensures Load(m, Ota.Start(), APPLICATION_SIZE)[i] == AreaAfter(data)[i]
    {
      assert Load(m, Ota.Start(), APPLICATION_SIZE)[i] == m[Ota.Start() + i] == Padded(data, i);
    }
  }

  // ---- Where it programs ---------------------------------------------------------------------------

  /** The pages that a download of chunks programs all lie in the download area. */
  predicate InArea(chunks: seq<Bytes>) {
    256 * Pages(Total(chunks)) <= APPLICATION_SIZE
  }

  lemma ChunkInside(total: nat, chunk: Bytes)
    requires Fits(total, chunk)
    ensures AllInside(ChunkOps(total, chunk), Ota.Start(), Ota.Start() + total + 256 * Pages(|chunk|))
  {
    hide Buffer;
    var page, pages := 16 * Ota.Sector() + total / 256, Pages(|chunk|);
    PagesCover(|chunk|);
    var data := Buffer(chunk)[..256 * pages];
    assert 256 * page == Ota.Start() + total;
    ProgramInside(page, data, pages, pages);
    assert ProgramOps(page, data, pages)[..pages] == ProgramOps(page, data, pages);
  }

  /** The programs reach exactly to the end of the last page. */
  lemma {:induction false} WritesInside(chunks: seq<Bytes>)
    requires AllFit(chunks)
    ensures 256 * Pages(Total(chunks)) <= OTA_ROOM
    ensures AllInside(WriteOps(chunks), Ota.Start(), Ota.Start() + 256 * Pages(Total(chunks)))
    decreases |chunks|
  {
    hide ChunkOps, Pages;
    if chunks == [] {
      PagesOfSum(0, 0);
    } else {
      var k := |chunks| - 1;
      WritesInside(chunks[..k]);
      ChunkInside(Total(chunks[..k]), chunks[k]);
      PagesOfSum(Total(chunks[..k]), |chunks[k]|);
    }
  }

  lemma LastPage(total: nat, chunk: Bytes)
    requires Fits(total, chunk) && chunk != []
    ensures ChunkOps(total, chunk) != []
    ensures
      var ops := ChunkOps(total, chunk);
      ops[|ops| - 1].End() == Ota.Start() + total + 256 * Pages(|chunk|)
  {
    hide Buffer;
    PagesCover(|chunk|);
  }

  lemma {:induction false} WritesReach(chunks: seq<Bytes>)
    requires AllFit(chunks) && !InArea(chunks)
    ensures !AllInside(WriteOps(chunks), Ota.Start(), Ota.End())
    decreases |chunks|
  {
    hide ChunkOps, Pages;
    if chunks == [] {
      PagesOfSum(0, 0);
    } else {
      var k := |chunks| - 1;
      var front, last := chunks[..k], chunks[k];
      var first, ops := WriteOps(front), ChunkOps(Total(front), last);
      PagesOfSum(Total(front), |last|);
      if !InArea(front) {
        WritesReach(front);
        var i :| 0 <= i < |first| && !first[i].Inside(Ota.Start(), Ota.End());
        assert (first + ops)[i] == first[i];
      } else {
        NoPages();
        LastPage(Total(front), last);
        assert (first + ops)[|first| + |ops| - 1] == ops[|ops| - 1];
      }
    }
  }

  lemma NoPages()
    ensures Pages(0) == 0
  {}

  /** A download programs only in its area if and only if the pages of what it writes fit there. */
  lemma InAreaExactly(chunks: seq<Bytes>)
    requires AllFit(chunks)
    ensures AllInside(EraseAreaOps() + WriteOps(chunks), Ota.Start(), Ota.End()) <==> InArea(chunks)
    ensures AllInside(EraseAreaOps() + WriteOps(chunks), Ota.Start(), CHIP_SIZE)
  {
    hide WriteOps, AllFit, Pages, EraseOps;
    EraseInside(Ota.Sector(), IMAGE_SECTORS);
    WritesInside(chunks);
    var erase, write := EraseAreaOps(), WriteOps(chunks);
    if !InArea(chunks) {
      WritesReach(chunks);
      var i :| 0 <= i < |write| && !write[i].Inside(Ota.Start(), Ota.End());
      assert (erase + write)[|erase| + i] == write[i];
    }
  }

  // ---- When the driver stays inside its contract ---------------------------------------------------

  /** A download ends with a status if and only if every chunk can be stored where it lands. */
  lemma ReturnsExactly(contentLength: nat, chunks: seq<Bytes>)
    ensures OutcomeOf(contentLength, chunks).Returned? <==> AllFit(chunks)
  {
    assert chunks[..|chunks|] == chunks;
  }

  /** Chunks can be stored one behind the other if and only if all but the last fill whole pages, and the pages of
      all of them together are on the chip. */
  lemma {:induction false} FitExactly(chunks: seq<Bytes>)
    requires forall i :: 0 <= i < |chunks| ==> |chunks[i]| <= HTTP_BUF_MAX_SIZE
    ensures AllFit(chunks) <==> WholePages(chunks) && 256 * Pages(Total(chunks)) <= OTA_ROOM
    ensures WholePages(chunks) && (chunks != [] ==> |chunks[|chunks| - 1]| % 256 == 0) ==> Total(chunks) % 256 == 0
    ensures chunks != [] && AllFit(chunks) && Total(chunks) % 256 == 0 ==> |chunks[|chunks| - 1]| % 256 == 0
    decreases |chunks|
  {
    if chunks != [] {
      var k := |chunks| - 1;
      var front := chunks[..k];
      FitExactly(front);
      assert WholePages(chunks) <==> WholePages(front) && (k > 0 ==> |front[k - 1]| % 256 == 0);
      PagesCover(Total(front));
      PagesCover(|chunks[k]|);
      if Total(front) % 256 == 0 {
        PagesOfSum(Total(front), |chunks[k]|);
      }
    }
  }

  predicate WholePages(chunks: seq<Bytes>) {
    forall i :: 0 <= i < |chunks| - 1 ==> |chunks[i]| % 256 == 0
  }

  lemma {:induction false} TotalFirst(chunk: Bytes, rest: seq<Bytes>)
    ensures Total([chunk] + rest) == |chunk| + Total(rest)
    decreases |rest|
  {
    var all := [chunk] + rest;
    if rest == [] {
      assert all[..0] == [];
    } else {
      TotalFirst(chunk, rest[..|rest| - 1]);
      assert all[..|all| - 1] == [chunk] + rest[..|rest| - 1];
    }
  }

  /** No chunk of a download is empty or larger than the buffer, and only the last can complete the content. */
  lemma {:induction false} ChunkFacts(first: bool, body: Bytes, total: nat, contentLength: nat, deliveries: seq<Bytes>,
                                      k: nat)
    requires |body| <= HTTP_BUF_MAX_SIZE && k < |Chunks(first, body, total, contentLength, deliveries)|
    ensures
      var chunks := Chunks(first, body, total, contentLength, deliveries);
      && chunks[k] != [] && |chunks[k]| <= HTTP_BUF_MAX_SIZE
      && (k > 0 ==> total + Total(chunks[..k]) < contentLength)
    decreases k
  {
    hide NextChunk;
    var chunks := Chunks(first, body, total, contentLength, deliveries);
    var chunk := NextChunk(first, body, deliveries);
    if k > 0 {
      var sum := total + |chunk.data|;
      var rest := Chunks(false, body, sum, contentLength, chunk.left);
      ChunkFacts(false, body, sum, contentLength, chunk.left, k - 1);
      assert chunks[..k] == [chunk.data] + rest[..k - 1];
      TotalFirst(chunk.data, rest[..k - 1]);
    }
  }

  /** Whether a download ends with a status can be read off what will be delivered: it does if and only if every chunk
      but the last fills whole pages, and the pages of all of them are on the chip. */
  lemma DownloadReturnsExactly(body: Bytes, contentLength: nat, deliveries: seq<Bytes>)
    requires |body| <= HTTP_BUF_MAX_SIZE
    ensures
      var chunks := Chunks(true, body, 0, contentLength, deliveries);
      OutcomeOf(contentLength, chunks).Returned?
      <==> WholePages(chunks) && 256 * Pages(Total(chunks)) <= OTA_ROOM
  {
    var chunks := Chunks(true, body, 0, contentLength, deliveries);
    forall i | 0 <= i < |chunks|
      ensures |chunks[i]| <= HTTP_BUF_MAX_SIZE
    {
      ChunkFacts(true, body, 0, contentLength, deliveries, i);
    }
    ReturnsExactly(contentLength, chunks);
    FitExactly(chunks);
  }

  /** Every chunk but the last fills the buffer. */
  predicate AlmostFull(chunks: seq<Bytes>) {
    forall i :: 0 <= i < |chunks| - 1 ==> |chunks[i]| == HTTP_BUF_MAX_SIZE
  }

  /** When every chunk but the last fills the buffer and the announced content fits the area, the download stays in the
      area and ends with a status, with success exactly if chunks came until the content was complete. */
  lemma FullChunksReturn(body: Bytes, contentLength: nat, deliveries: seq<Bytes>)
    requires |body| <= HTTP_BUF_MAX_SIZE && contentLength <= APPLICATION_SIZE
    requires AlmostFull(Chunks(true, body, 0, contentLength, deliveries))
    ensures
      var chunks := Chunks(true, body, 0, contentLength, deliveries);
      && InArea(chunks)
      && OutcomeOf(contentLength, chunks) == Returned(if chunks != [] && contentLength <= Total(chunks) then 0 else -2)
  {
    var chunks := Chunks(true, body, 0, contentLength, deliveries);
    hide Chunks, AllFit, Fits, Flatten, Pages, InArea;
    forall k | 0 <= k < |chunks|
      ensures |chunks[k]| <= HTTP_BUF_MAX_SIZE && (k > 0 ==> Total(chunks[..k]) < contentLength)
    {
      ChunkFacts(true, body, 0, contentLength, deliveries, k);
    }
    FullInArea(chunks, contentLength);
    var k := Stored(chunks);
    assert chunks[..|chunks|] == chunks;
    if k < |chunks| {
      FullChunkFits(chunks[..k], chunks[k], contentLength);
    }
  }

  lemma FullInArea(chunks: seq<Bytes>, contentLength: nat)
    requires contentLength <= APPLICATION_SIZE
    requires AlmostFull(chunks)
    requires forall k | 0 <= k < |chunks| ::
               |chunks[k]| <= HTTP_BUF_MAX_SIZE && (k > 0 ==> Total(chunks[..k]) < contentLength)
    ensures InArea(chunks)
  {
    hide Fits, Flatten, Pages;
    NothingInArea();
    if chunks != [] {
      var last := |chunks| - 1;
      FullChunkFits(chunks[..last], chunks[last], contentLength);
      TotalOfLast(chunks);
      PagesOfSum(Total(chunks[..last]), |chunks[last]|);
    }
  }

  lemma NothingInArea()
    ensures InArea([]) && AllFit([])
  {}

  lemma TotalOfLast(chunks: seq<Bytes>)
    requires chunks != []
    ensures Total(chunks) == Total(chunks[..|chunks| - 1]) + |chunks[|chunks| - 1]|
  {}

  /** Behind full chunks that do not complete the content there is room for another in the area. */
  lemma FullChunkFits(chunks: seq<Bytes>, next: Bytes, contentLength: nat)
    requires forall i :: 0 <= i < |chunks| ==> |chunks[i]| == HTTP_BUF_MAX_SIZE
    requires chunks == [] || Total(chunks) < contentLength
    requires contentLength <= APPLICATION_SIZE && |next| <= HTTP_BUF_MAX_SIZE
    ensures Total(chunks) % 256 == 0 && Total(chunks) + 256 * Pages(|next|) <= APPLICATION_SIZE
    ensures Fits(Total(chunks), next)
  {
    FullTotal(chunks);
    PagesCover(|next|);
    NoPages();
  }

  /** The download comes to a chunk that is empty, because nothing arrives in time, before the content is complete. */
  predicate RunsDry(first: bool, body: Bytes, total: nat, contentLength: nat, deliveries: seq<Bytes>)
    requires |body| <= HTTP_BUF_MAX_SIZE
    decreases contentLength - total, first
  {
    var chunk := NextChunk(first, body, deliveries);
    var sum := total + |chunk.data|;
    chunk.data == [] || (sum < contentLength && RunsDry(false, body, sum, contentLength, chunk.left))
  }

  /** It does if and only if its chunks are less than the content, or there are none. */
  lemma {:induction false} DryExactly(first: bool, body: Bytes, total: nat, contentLength: nat, deliveries: seq<Bytes>)
    requires |body| <= HTTP_BUF_MAX_SIZE && (first || total < contentLength)
    ensures
      var chunks := Chunks(first, body, total, contentLength, deliveries);
      RunsDry(first, body, total, contentLength, deliveries) <==> chunks == [] || total + Total(chunks) < contentLength
    decreases contentLength - total, first
  {
    hide NextChunk;
    var chunk := NextChunk(first, body, deliveries);
    var sum := total + |chunk.data|;
    if chunk.data != [] {
      if sum < contentLength {
        DryExactly(false, body, sum, contentLength, chunk.left);
        TotalFirst(chunk.data, Chunks(false, body, sum, contentLength, chunk.left));
      } else {
        TotalFirst(chunk.data, []);
      }
    }
  }

  /** What a finished receive loop has written: after success at least the announced content, and less than a buffer
      more unless one chunk was all; otherwise nothing, or less than that. A driver fault, too, comes before the
      content is complete. Where every chunk can be stored, the loop ends in -2 if it comes to an empty chunk, and in
      success if it does not. */
  lemma WrittenTotal(body: Bytes, contentLength: nat, deliveries: seq<Bytes>, outcome: Outcome, written: seq<Bytes>,
                     stream: Bytes)
    requires |body| <= HTTP_BUF_MAX_SIZE
    requires Received(outcome, contentLength, Chunks(true, body, 0, contentLength, deliveries), written, stream)
    ensures AllFit(written)
    ensures outcome == Returned(0) ==>
              && written != [] && stream == Flatten(written) && contentLength <= Total(written)
              && (Total(written) < contentLength + HTTP_BUF_MAX_SIZE || |written| == 1)
    ensures outcome != Returned(0) ==> written == [] || Total(written) < contentLength
    ensures
      var dry := RunsDry(true, body, 0, contentLength, deliveries);
      var all := AllFit(Chunks(true, body, 0, contentLength, deliveries));
      && (outcome == Returned(-2) <==> all && dry) && (outcome == Returned(0) <==> all && !dry)
      && (outcome.Returned? <==> all)
  {
    hide Chunks, AllFit, Fits, NextChunk, RunsDry;
    var chunks := Chunks(true, body, 0, contentLength, deliveries);
    var k := Stored(chunks);
    assert chunks[..|chunks|] == chunks;
    ReturnsExactly(contentLength, chunks);
    DryExactly(true, body, 0, contentLength, deliveries);
    if k < |chunks| {
      ChunkFacts(true, body, 0, contentLength, deliveries, k);
    } else if chunks != [] {
      ChunkFacts(true, body, 0, contentLength, deliveries, |chunks| - 1);
      TotalOfLast(chunks);
    }
  }

  /** A short chunk that is not the last makes the next program start inside a page: the headers bring a part of the
      body that does not fill whole pages, nothing more comes in time for the first chunk, and one byte for the
      second. */
  lemma ShortChunkMisaligned(body: Bytes, x: bv8, contentLength: nat)
    requires |body| < HTTP_BUF_MAX_SIZE && |body| % 256 != 0 && contentLength > |body|
    ensures Chunks(true, body, 0, contentLength, [[], [x]]) == [body, [x]]
    ensures OutcomeOf(contentLength, [body, [x]]) == Misaligned
  {
    var deliveries, later := [[], [x]], [[x]];
    assert deliveries[1..] == later && later[1..] == [];
    assert NextChunk(true, body, deliveries) == Arrival(body, later);
    assert NextChunk(false, body, later) == Arrival([x], []);
    assert Chunks(false, body, |body| + 1, contentLength, []) == [];
    assert Chunks(false, body, |body|, contentLength, later) == [[x]];
    assert Chunks(true, body, 0, contentLength, deliveries) == [body] + [[x]];
    AloneFits(body);
    var chunks := [body, [x]];
    assert chunks[..1] == [body];
    StoredIs(chunks, 1);
  }

  lemma AloneFits(chunk: Bytes)
    requires |chunk| <= HTTP_BUF_MAX_SIZE
    ensures AllFit([chunk]) && Total([chunk]) == |chunk|
  {
    PagesCover(|chunk|);
    assert [chunk][..0] == [];
  }

  lemma {:induction false} FullTotal(chunks: seq<Bytes>)
    requires forall i | 0 <= i < |chunks| :: |chunks[i]| == HTTP_BUF_MAX_SIZE
    ensures Total(chunks) == HTTP_BUF_MAX_SIZE * |chunks|
    decreases |chunks|
  {
    if chunks != [] {
      FullTotal(chunks[..|chunks| - 1]);
    }
  }

  lemma FullArrival(first: bool, deliveries: seq<Bytes>)
    requires deliveries != [] && |deliveries[0]| == HTTP_BUF_MAX_SIZE
    ensures NextChunk(first, [], deliveries) == Arrival(deliveries[0], deliveries[1..])
  {}

  /** Deliveries that each fill the buffer are the chunks, until they complete the content. */
  lemma {:induction false} FullDeliveries(first: bool, total: nat, contentLength: nat, deliveries: seq<Bytes>)
    requires deliveries != [] && forall i :: 0 <= i < |deliveries| ==> |deliveries[i]| == HTTP_BUF_MAX_SIZE
    requires total + HTTP_BUF_MAX_SIZE * (|deliveries| - 1) < contentLength
    requires contentLength <= total + HTTP_BUF_MAX_SIZE * |deliveries|
    ensures Chunks(first, [], total, contentLength, deliveries) == deliveries
    decreases |deliveries|
  {
    hide NextChunk;
    FullArrival(first, deliveries);
    if |deliveries| > 1 {
      FullDeliveries(false, total + HTTP_BUF_MAX_SIZE, contentLength, deliveries[1..]);
    }
    assert deliveries == [deliveries[0]] + deliveries[1..];
  }

  // ---- What comes out of the deliveries ------------------------------------------------------------

  lemma {:induction false} FlattenFirst(chunk: Bytes, rest: seq<Bytes>)
    ensures Flatten([chunk] + rest) == chunk + Flatten(rest)
    decreases |rest|
  {
    var all := [chunk] + rest;
    if rest == [] {
      assert all[..0] == [];
    } else {
      var k := |rest| - 1;
      FlattenFirst(chunk, rest[..k]);
      assert all[..|all| - 1] == [chunk] + rest[..k];
      Regroup(chunk, Flatten(rest[..k]), rest[k]);
    }
  }

  lemma ReceiveKeeps(deliveries: seq<Bytes>, room: nat)
    ensures
      var got := Receive(deliveries, room);
      got.data + Flatten(got.left) == Flatten(deliveries)
  {
    hide Flatten;
    if deliveries != [] {
      var first, rest := deliveries[0], deliveries[1..];
      FlattenFirst(first, rest);
      assert deliveries == [first] + rest;
      if |first| > room {
        FlattenFirst(first[room..], rest);
        Regroup(first[..room], first[room..], Flatten(rest));
        assert first == first[..room] + first[room..];
      }
    }
  }

  /** A chunk takes what came first and leaves the rest: no byte is lost, doubled or moved. */
  lemma ChunkKeeps(first: bool, body: Bytes, deliveries: seq<Bytes>)
    requires |body| <= HTTP_BUF_MAX_SIZE
    ensures
      var chunk := NextChunk(first, body, deliveries);
      chunk.data + Flatten(chunk.left) == (if first then body else []) + Flatten(deliveries)
  {
    hide Receive, Flatten;
    if first {
      var more := Receive(deliveries, HTTP_BUF_MAX_SIZE - |body|);
      ReceiveKeeps(deliveries, HTTP_BUF_MAX_SIZE - |body|);
      Regroup(body, more.data, Flatten(more.left));
    } else {
      var once := Receive(deliveries, HTTP_BUF_MAX_SIZE);
      ReceiveKeeps(deliveries, HTTP_BUF_MAX_SIZE);
      assert [] + Flatten(deliveries) == Flatten(deliveries);
      if |once.data| < HTTP_BUF_MAX_SIZE {
        var twice := Receive(once.left, HTTP_BUF_MAX_SIZE - |once.data|);
        ReceiveKeeps(once.left, HTTP_BUF_MAX_SIZE - |once.data|);
        Regroup(once.data, twice.data, Flatten(twice.left));
      }
    }
  }

  /** The chunks one behind the other are the beginning of what is delivered, the body first. */
  lemma {:induction false} ChunksKeep(first: bool, body: Bytes, total: nat, contentLength: nat, deliveries: seq<Bytes>)
    requires |body| <= HTTP_BUF_MAX_SIZE
    ensures Flatten(Chunks(first, body, total, contentLength, deliveries))
            <= (if first then body else []) + Flatten(deliveries)
    decreases contentLength - total, first
  {
    hide NextChunk, Flatten;
    var chunk := NextChunk(first, body, deliveries);
    var sum := total + |chunk.data|;
    ChunkKeeps(first, body, deliveries);
    FlattenFirst(chunk.data, []);
    assert Flatten([]) == [] by {
      NothingFlattened();
    }
    if chunk.data != [] && sum < contentLength {
      var rest := Chunks(false, body, sum, contentLength, chunk.left);
      ChunksKeep(false, body, sum, contentLength, chunk.left);
      FlattenFirst(chunk.data, rest);
      assert [] + Flatten(chunk.left) == Flatten(chunk.left);
    } else {
      assert [chunk.data] + [] == [chunk.data];
    }
  }

  lemma NothingFlattened()
    ensures Flatten([]) == []
  {}

  predicate NoneEmpty(deliveries: seq<Bytes>) {
    forall i :: 0 <= i < |deliveries| ==> deliveries[i] != []
  }

  lemma ChunkTakes(first: bool, body: Bytes, deliveries: seq<Bytes>)
    requires |body| <= HTTP_BUF_MAX_SIZE && NoneEmpty(deliveries)
    ensures
      var chunk := NextChunk(first, body, deliveries);
      NoneEmpty(chunk.left) && (chunk.data == [] <==> deliveries == [] && (first ==> body == []))
  {
    NextReceives(first, body, deliveries);
  }

  /** When each delivery brings something, the download comes to its end if and only if all of them together, with the
      body, bring the announced content, and anything at all. */
  lemma {:induction false} DeliveredExactly(first: bool, body: Bytes, total: nat, contentLength: nat,
                                            deliveries: seq<Bytes>)
    requires |body| <= HTTP_BUF_MAX_SIZE && NoneEmpty(deliveries) && (first || total < contentLength)
    ensures
      var all := (if first then |body| else 0) + Total(deliveries);
      RunsDry(first, body, total, contentLength, deliveries) <==> total + all < contentLength || all == 0
    decreases contentLength - total, first
  {
    hide NextChunk, Flatten;
    var chunk := NextChunk(first, body, deliveries);
    var sum := total + |chunk.data|;
    ChunkKeeps(first, body, deliveries);
    ChunkTakes(first, body, deliveries);
    NothingFlattened();
    if chunk.data != [] && sum < contentLength {
      DeliveredExactly(false, body, sum, contentLength, chunk.left);
    }
  }

  // ---- Downloads whose deliveries pair up ----------------------------------------------------------

  /** Two deliveries for each pair. */
  function Unpaired(pairs: seq<(Bytes, Bytes)>): seq<Bytes> {
    if pairs == [] then [] else [pairs[0].0, pairs[0].1] + Unpaired(pairs[1..])
  }

  function Joined(pairs: seq<(Bytes, Bytes)>): seq<Bytes> {
    if pairs == [] then [] else [pairs[0].0 + pairs[0].1] + Joined(pairs[1..])
  }

  /** Neither of a pair fills the buffer, both together do. */
  predicate FillPairs(pairs: seq<(Bytes, Bytes)>) {
    forall i :: 0 <= i < |pairs| ==> 0 < |pairs[i].0| < 2048 && |pairs[i].0| + |pairs[i].1| == 2048
  }

  lemma {:induction false} JoinedFull(pairs: seq<(Bytes, Bytes)>)
    requires FillPairs(pairs)
    ensures |Joined(pairs)| == |pairs| && forall i :: 0 <= i < |pairs| ==> |Joined(pairs)[i]| == 2048
    decreases |pairs|
  {
    if pairs != [] {
      JoinedFull(pairs[1..]);
    }
  }

  lemma PairArrives(body: Bytes, a: Bytes, b: Bytes, rest: seq<Bytes>)
    requires |body| <= HTTP_BUF_MAX_SIZE && 0 < |a| < 2048 && |a| + |b| == 2048
    ensures NextChunk(false, body, [a, b] + rest) == Arrival(a + b, rest)
  {
    var deliveries := [a, b] + rest;
    NextReceives(false, body, deliveries);
    assert deliveries[2..] == rest;
  }

  lemma {:induction false} PairsArrive(body: Bytes, total: nat, contentLength: nat, pairs: seq<(Bytes, Bytes)>)
    requires |body| <= HTTP_BUF_MAX_SIZE && pairs != [] && FillPairs(pairs)
    requires total + 2048 * (|pairs| - 1) < contentLength <= total + 2048 * |pairs|
    ensures Chunks(false, body, total, contentLength, Unpaired(pairs)) == Joined(pairs)
    decreases |pairs|
  {
    hide NextChunk;
    var a, b, rest := pairs[0].0, pairs[0].1, pairs[1..];
    PairArrives(body, a, b, Unpaired(rest));
    if rest != [] {
      PairsArrive(body, total + 2048, contentLength, rest);
    }
  }

  /** Deliveries that fill the buffer one by one for the first chunk and two by two for the others: the download ends in
      success, and the download area, at 0x14_0000, starts with the body and all that was delivered. */
  lemma PairedDownload(m: Memory, body: Bytes, first: Bytes, pairs: seq<(Bytes, Bytes)>, contentLength: nat)
    requires |body| + |first| == 2048 && FillPairs(pairs)
    requires 2048 * |pairs| < contentLength <= 2048 * (|pairs| + 1) <= 0x8_0000
    ensures
      var deliveries := [first] + Unpaired(pairs);
      var chunks := Chunks(true, body, 0, contentLength, deliveries);
      && chunks == [body + first] + Joined(pairs) && AllFit(chunks)
      && OutcomeOf(contentLength, chunks) == Returned(0)
      && var after := ApplyAll(m, EraseAreaOps() + WriteOps(chunks));
         after[0x14_0000..0x14_0000 + 2048 * (|pairs| + 1)] == body + Flatten(deliveries)
  {
    hide ApplyAll, WriteOps, EraseAreaOps, Padded, Flatten, AllFit, Fits, Unpaired, Joined;
    var deliveries, size := [first] + Unpaired(pairs), 2048 * (|pairs| + 1);
    var chunks := [body + first] + Joined(pairs);
    JoinedFull(pairs);
    PairedChunks(body, first, pairs, contentLength);
    FullOutcome(contentLength, chunks);
    ChunksKeep(true, body, 0, contentLength, deliveries);
    UnpairedLength(pairs);
    FlattenFirst(first, Unpaired(pairs));
    assert Flatten(chunks) == body + Flatten(deliveries);
    DownloadAssembles(m, chunks);
    AreaHolds(ApplyAll(m, EraseAreaOps() + WriteOps(chunks)), Flatten(chunks));
  }

  lemma PairedChunks(body: Bytes, first: Bytes, pairs: seq<(Bytes, Bytes)>, contentLength: nat)
    requires |body| + |first| == 2048 && FillPairs(pairs)
    requires 2048 * |pairs| < contentLength <= 2048 * (|pairs| + 1)
    ensures Chunks(true, body, 0, contentLength, [first] + Unpaired(pairs)) == [body + first] + Joined(pairs)
  {
    var deliveries := [first] + Unpaired(pairs);
    assert deliveries[1..] == Unpaired(pairs);
    assert NextChunk(true, body, deliveries) == Arrival(body + first, Unpaired(pairs));
    if pairs != [] {
      PairsArrive(body, 2048, contentLength, pairs);
    }
  }

  lemma {:induction false} UnpairedLength(pairs: seq<(Bytes, Bytes)>)
    requires FillPairs(pairs)
    ensures Total(Unpaired(pairs)) == 2048 * |pairs|
    decreases |pairs|
  {
    hide Flatten;
    if pairs == [] {
      NothingFlattened();
    } else {
      var a, b, rest := pairs[0].0, pairs[0].1, Unpaired(pairs[1..]);
      UnpairedLength(pairs[1..]);
      FlattenFirst(b, rest);
      FlattenFirst(a, [b] + rest);
      assert Unpaired(pairs) == [a] + ([b] + rest);
    }
  }

  /** Chunks that each fill the buffer and complete the content with the last of them. */
  lemma FullOutcome(contentLength: nat, chunks: seq<Bytes>)
    requires chunks != [] && HTTP_BUF_MAX_SIZE * |chunks| <= OTA_ROOM
    requires forall i :: 0 <= i < |chunks| ==> |chunks[i]| == HTTP_BUF_MAX_SIZE
    requires contentLength <= HTTP_BUF_MAX_SIZE * |chunks|
    ensures AllFit(chunks) && OutcomeOf(contentLength, chunks) == Returned(0)
    ensures Total(chunks) == HTTP_BUF_MAX_SIZE * |chunks|
  {
    hide Fits, AllFit, Flatten;
    FullTotal(chunks);
    PagesCover(Total(chunks));
    FitExactly(chunks);
    StoredAll(chunks);
  }

  lemma AreaHolds(m: Memory, data: Bytes)
    requires Load(m, Ota.Start(), APPLICATION_SIZE) == AreaAfter(data) && |data| <= APPLICATION_SIZE
    ensures m[0x14_0000..0x14_0000 + |data|] == data
  {
    hide Padded;
    var held := m[0x14_0000..0x14_0000 + |data|];
    forall i | 0 <= i < |data|
      ensures held[i] == data[i]
    {
      assert held[i] == m[0x14_0000..0x1C_0000][i] == AreaAfter(data)[i] == Padded(data, i);
      DataFirst(data, i);
    }
  }

  lemma DataFirst(data: Bytes, i: nat)
    requires i < |data|
    ensures Padded(data, i) == data[i]
  {}

  /** A download of more than the area holds is carried out to its end all the same, beyond the area: 257 deliveries
      that fill the buffer are enough, and any number that the chip has room for. */
  lemma TooLongDownload(contentLength: nat, deliveries: seq<Bytes>)
    requires 256 < |deliveries| && HTTP_BUF_MAX_SIZE * |deliveries| <= OTA_ROOM
    requires forall i :: 0 <= i < |deliveries| ==> |deliveries[i]| == HTTP_BUF_MAX_SIZE
    requires HTTP_BUF_MAX_SIZE * (|deliveries| - 1) < contentLength <= HTTP_BUF_MAX_SIZE * |deliveries|
    ensures Chunks(true, [], 0, contentLength, deliveries) == deliveries && AllFit(deliveries)
    ensures OutcomeOf(contentLength, deliveries) == Returned(0) && !InArea(deliveries)
  {
    hide Fits, AllFit, Flatten, Chunks;
    FullDeliveries(true, 0, contentLength, deliveries);
    FullOutcome(contentLength, deliveries);
    PagesCover(Total(deliveries));
  }

  lemma StoredAll(chunks: seq<Bytes>)
    requires AllFit(chunks)
    ensures Stored(chunks) == |chunks|
  {}

  /** ota_http_send_request_callback from the point where the response is there. */
  method RequestCallback(flash: FlashDevice, transport: Transport, response: Response)
    returns (outcome: Outcome, ghost written: seq<Bytes>, ghost got: Bytes)
    requires flash.Valid() && (response.Partial? ==> |response.body| <= HTTP_BUF_MAX_SIZE)
    modifies flash, flash.cells, transport
    ensures flash.Valid() && transport.received == old(transport.received) + got && AllFit(written)
    ensures if response.Partial?
            then && Received(outcome, response.contentLength,
                             Chunks(true, response.body, 0, response.contentLength, old(transport.deliveries)),
                             written, response.body + got)
                 && flash.log == old(flash.log) + (EraseAreaOps() + WriteOps(written))
            else outcome == Returned(-2) && got == [] && flash.log == old(flash.log)
  {
    hide Received, Chunks, Fits, WriteOps, Flatten, EraseOps;
    written, got := [], [];
    var isSuccess := response.Complete?;
    var currentReceived := 0;
    if response.Partial? {
      flash.EraseFlash(Ota.Start(), APPLICATION_SIZE, Ota.Sector());
      outcome, written, got := ReceiveBody(flash, transport, response.body, response.contentLength);
      if !outcome.Returned? {
        return;
      }
      isSuccess := outcome.status == 0;
      currentReceived := if isSuccess then 1 else 0;
    }
    var returnStatus := 0;
    if !isSuccess {
      returnStatus := -1;
    }
    if currentReceived == 0 {
      returnStatus := -2;
    }
    outcome := Returned(returnStatus);
  }
}
