# Verified model of the device's update path and its tools

A Dafny model of the parts of this repository that keep state, do arithmetic or encode and decode, and proofs of what
they are for.

* **Flash and update** (`NorFlash`, `FlashControl`, `DeviceConfig`, `OtaDownload`, `UpdateJob`, `BootLoader`,
  `OtaSystem`, `JobRun`, `OverlongDownload`, `JobHistory`). The flash is a class over an array of bytes: an erase sets
  a 4096-byte sector to 0xFF, a program ANDs a 256-byte page. Every routine says which operations it performs, in
  order, in a log; power can fail between any two of them, so what a power cut leaves is the flash after a prefix.
  `OtaSystem` is the state machine of boot loader, application and power cuts, and `BootIsRun`, `DocumentIsRun` and
  `Session` show that what the methods do are runs of it.
* **CRC** (`Crc16Table`, `CrcRegister`, `Crc16`). The device's table loop, the host's Python loop, bit-at-a-time
  division by x^16 + x^12 + x^5 + 1 (ITU-T V.41, section 2), and what follows for error detection.
* **Jobs** (`JobList`, `JobHandler`, `JobsTask`). The 5 by 64 character array that is the job queue, the MQTT callback
  that feeds it, and the procedures that drain it. `JobHandler` says what the functions do as functions on values,
  among it what they publish; `JobsTask` proves the class with the globals against them.
* **SVF to XSVF** (`BitVectors`, `XsvfRecords`, `SvfVectors`, `SvfCompiler`, `SvfStatements`, `SvfBytes`,
  `SvfWriter`). The compiler from parsed statements to bytes, the dumper from bytes to records, and a player that says
  what records mean.
* **URLs** (`UrlParser`). strtok as an object over a mutable buffer, and `parse_url_info` on top of it.

`dafny verify dfyconfig.toml` checks everything.

## What the code relies on

These are `requires` clauses, or conditions of the theorems.

* The content of a download fits the download area (`UpdateJob.ContentFits`). Nothing compares the two: a longer
  content is programmed on into the configuration. The methods, `AcceptedExactly` and `AcceptedJobIsInstalled` hold
  for any content; that a run keeps the invariant is proved for contents that fit, and is false of others.
* A sector erase and a page program are each atomic.
* A firmware size is at most APPLICATION_SIZE. `CopySizeExactly` shows that this is exactly when a copy is right.
* DEVICE_OTA_INFO_t lies in one flash page. Its place in APP_COMMON_t depends on wizchip_conf.h, which is not part of
  this model, so the proofs hold for every layout with that property (`DeviceConfig.Layout`).
* The first pass of the boot loop is not already past its timeout; otherwise a request waits for the next boot.
* `recv` returns between 0 and the number of bytes asked for.
* Job ids are shorter than 64 characters and contain no NUL.
* The clock runs, so a wait ends.
* Shift lengths in an SVF file are below 2^29, so that three vectors together have a size four bytes can hold.

## What the proofs turned up

* `http_get` returns positive codes of its own when there is no connection. `ota_download_firmware` takes only -1 and
  -2 for failures, so the CRC check then runs on whatever the download area holds (`StaleImageAccepted`). The
  announced size is compared with nothing: beyond what was received, the check and the installation cover zeros and
  blank flash (`AcceptedExactly`, `AcceptedImage`). The invariant holds all the same.
* A content longer than the download area is downloaded to its end and can be accepted (`TooLongDownload`), although
  its programs leave the area (`InAreaExactly`). What it clears of DEVICE_OTA_INFO_t decides whether the flash keeps its
  promise (`PromiseKeptExactly`). Where a power cut in the save that clears a request has left that struct blank, the
  content becomes a request; from such a state (`CutLeavesBlankInfo`), `PromiseBroken` is a run of at least 257 full
  deliveries that ends in a request for more than any area holds.
* The request callback never returns -1: without received bytes the -2 overwrites it.
* A chunk that is not the last and does not fill whole pages makes the next program start inside a page
  (`ShortChunkMisaligned`); `DownloadReturnsExactly` says when that, or a program past the chip, does not happen.
* `is_exist_job_id` compares only as many characters as the new id has, so it refuses a new id that is a proper prefix
  of a queued one (`KnownExactly`), and `is_empty_job_id_list` answers the opposite of its name.
* A host or path that fills its buffer passes the length checks and leaves no room for its NUL (`NoRoomExactly`); a URL
  without a host or a path hands a null token to a string function (`NullTokenExactly`). A scheme is accepted if it
  only starts with `http`.
* The test on the name SIR in `syncLengths` changes nothing: its mask is replaced by zeros in any case.

## Model

| member | source | states |
|---|---|---|
| OtaSystem.CrashSafeUpdate | boot/main.c:44-72 | Once a request for n bytes is in flash, with whatever CRC, for any number of power cuts between single erase and program operations, and until another download starts: the download area keeps the image, and at every jump the application area holds exactly those n bytes |
| OtaSystem.JumpFindsImage | boot/main.c:62-107 | The same in addresses: at every jump the bytes from 0x4_0000 on are those the download area had from 0x14_0000 on when the request was found |
| OtaSystem.RequestBytes | port/device_common/config.h:17-37 | What counts as a request, byte by byte from 0x1C_0000 on: status 1 low byte first, size in the four bytes at 4, CRC in the two at 8, low byte first |
| OtaSystem.RunKeepsPromise | app/aws_iot/iot_jobs_handler.c:290-345 | In every state of every run whose downloads fit their area, with power cuts anywhere: a request in flash is backed by a download area with the announced CRC; without one the application area holds the last completely installed image; an image installed by a job has the CRC its job announced |
| OtaSystem.StepKeepsInvariant | boot/main.c:44-72 | Every step of boot loader, application and power failure keeps that invariant, if a download stays in its area |
| OverlongDownload.PromiseKeptExactly | app/aws_iot/iot_jobs_job_ota_handler.c:132-187 | Exactly when a download of any length keeps the promise: what it leaves of DEVICE_OTA_INFO_t, the old bytes cleared by the content that lands there, is not enabled, or is answered by the image in the area; always if the content ends before it |
| OverlongDownload.DownloadedInfo | app/aws_iot/iot_jobs_job_ota_handler.c:174-187 | Every byte of DEVICE_OTA_INFO_t after a download is the old byte AND the byte of the content that lands there |
| OverlongDownload.PromiseBroken | app/aws_iot/iot_jobs_handler.c:276-355 | For every layout, a run from a state that starts with a blank DEVICE_OTA_INFO_t in a configuration that is not blank, so that no defaults are written, through a job with any parameters whose content is too long for the area, to a state that breaks the promise |
| OverlongDownload.CutLeavesBlankInfo | port/flash_interface/flash_control.c:130-140 | There is such a state wherever DEVICE_OTA_INFO_t is not in the first page: a save of the configuration cut behind its erase and its first page |
| OverlongDownload.OverlongBreaks | app/aws_iot/iot_jobs_job_ota_handler.c:136-193 | What that content leaves is an enabled request for more than any area holds |
| OtaSystem.ConfigCut | port/flash_interface/flash_control.c:130-140 | A save of the configuration cut after any number of operations leaves DEVICE_OTA_INFO_t old, blank or new: no partial configuration reads as a request |
| OtaSystem.ConfigDone | port/flash_interface/flash_control.c:130-140 | A completed save leaves exactly the saved configuration |
| OtaSystem.RunLeavesFactory | port/flash_interface/flash_control.h:11-26 | No run, however far its downloads go, changes a byte of the boot loader or of the factory image |
| OtaSystem.FactoryRestore | port/flash_interface/flash_control.c:244-312 | Back up n bytes of the application, run any number of updates and power cuts, restore m <= n bytes: the original m bytes are back |
| BootLoader.Boot | boot/main.c:44-72 | The boot loop carries a request out, once, if and only if the first pass is not more than 2000 ms after the start; it performs exactly the copy and the save that clears the request; it jumps exactly when some pass is more than 2000 ms after the start, counted modulo 2^32 |
| Wrappers.ElapsedWraps | boot/main.c:54-57 | The difference of two millisecond counts is the time between them, also across the wrap-around |
| BootLoader.Install | boot/main.c:62-72 | One pass with a request performs the copy and then the save, and clears the status in memory |
| BootLoader.BootLeaves | boot/main.c:62-72 | After a request has been carried out: its image at 0x4_0000, no request, size and CRC as they were, and no byte changed outside the application and the configuration |
| BootLoader.BootIsRun | boot/main.c:62-72 | The operations of the boot loop form a run of the state machine that passes through the flash of every prefix of them and ends in the jump |
| UpdateJob.HttpGet | app/aws_iot/iot_jobs_job_ota_handler.c:122-213 | The outcome of a download and every operation it performs, from what is delivered; after success the whole download area is what was received, zeros to the end of the page, and blank flash |
| UpdateJob.FetchedInArea | app/aws_iot/iot_jobs_job_ota_handler.c:132-187 | A download programs only inside its area if and only if the pages of its content fit there; it never programs before it |
| UpdateJob.CheckCrc | app/aws_iot/iot_jobs_job_ota_handler.c:251-260 | The gate passes exactly when the download area has the announced CRC |
| UpdateJob.DownloadFirmware | app/aws_iot/iot_jobs_job_ota_handler.c:215-264 | Accepted if and only if http_get returned none of the two recognised failure codes and the download area has the announced CRC, downloaded or not |
| UpdateJob.SaveRequest | app/aws_iot/iot_jobs_handler.c:334-344 | The three fields are set, the configuration is saved, the reboot flag is raised |
| UpdateJob.StartJobDocument | app/aws_iot/iot_jobs_handler.c:276-355 | Complete effect of a job document on flash, configuration and reboot flag; only an accepted OTA job saves a request |
| UpdateJob.DocumentLeaves | app/aws_iot/iot_jobs_handler.c:276-355 | By fields: a job of another type changes nothing; an accepted OTA job leaves its request in memory and in flash; any other OTA job leaves no request in memory, size and CRC as they were, and saves nothing; without parameters or a newer version nothing is downloaded; no other byte of the configuration changes |
| JobRun.DocumentIsRun | app/aws_iot/iot_jobs_handler.c:276-355 | Whatever a job document does to the flash is a run of the state machine through every prefix of its operations, also when the content is too long or the driver is misused; if the content fits the area, every state of that run keeps the invariant |
| JobHistory.HistoryIsRun | app/aws_iot/iot_jobs_handler.c:205-274 | What any sequence of job documents does to the flash, each starting from what the one before it left, is one run through every prefix of all their operations; if every content fits the area, every state of that run keeps the invariant |
| JobRun.JobIsRun | app/aws_iot/iot_jobs_handler.c:322-344 | An accepted job is such a run: download, then save of the request |
| JobRun.RejectedJobIsRun | app/aws_iot/iot_jobs_handler.c:322-331 | A rejected job is such a run and ends with the application running |
| JobRun.AcceptedJobIsInstalled | app/aws_iot/iot_jobs_handler.c:322-344 | After an accepted job and its reboot, whatever the length of the content, with the certificate written at any time during the job and power failing any number of times after it, every jump finds in the application area exactly what the job left in the download area, with the announced CRC: the first size bytes received, if and only if the connection brought that many |
| JobRun.AcceptedJobIsRun | app/aws_iot/iot_jobs_handler.c:322-344 | Such a job, with certificate writes beside it, is a run of the state machine |
| JobRun.JobFetchesAndSaves | app/aws_iot/iot_jobs_handler.c:322-344 | A job on its own is the case without certificate writes |
| UpdateJob.AcceptedExactly | app/aws_iot/iot_jobs_job_ota_handler.c:230-263 | When an image is accepted: over a connection, whatever the length of the content, the CRC is that of the bytes received and, beyond them, of zeros and blank flash up to the announced size; without one, of what the area held before |
| UpdateJob.AcceptedImage | app/aws_iot/iot_jobs_job_ota_handler.c:246-263 | The accepted image is the beginning of what was received if and only if no more was announced than came |
| UpdateJob.StaleImageAccepted | app/aws_iot/iot_jobs_job_ota_handler.c:233-263 | With http_get returning anything but -1 and -2 and no connection, nothing is downloaded, and any matching old area is accepted |
| UpdateJob.StaleImageExists | app/aws_iot/iot_jobs_job_ota_handler.c:233-263 | There is such an area, for the network error that http_get returns when it cannot connect |
| OtaDownload.ReceiveChunk | app/aws_iot/iot_jobs_job_ota_handler.c:138-169 | What a chunk takes from the deliveries and what it leaves, case by case: the body and one delivery for the first, one delivery or two that share the 2048 bytes for a later one, a delivery too large for the room cut there |
| OtaDownload.ChunkKeeps | app/aws_iot/iot_jobs_job_ota_handler.c:138-169 | A chunk and what it leaves are together what was there: no byte is lost, doubled or moved |
| OtaDownload.ChunksKeep | app/aws_iot/iot_jobs_job_ota_handler.c:136-193 | All chunks one behind the other are the beginning of the body and the deliveries |
| OtaDownload.DeliveredExactly | app/aws_iot/iot_jobs_job_ota_handler.c:136-193 | When each delivery brings something, the loop comes to an empty chunk if and only if the body and all deliveries together are less than the announced content, or nothing |
| OtaDownload.PairedDownload | app/aws_iot/iot_jobs_job_ota_handler.c:153-187 | Deliveries of any sizes that fill the 2048-byte buffer two by two: the download succeeds and 0x14_0000 and on hold the body and all that was delivered |
| OtaDownload.StoreChunk | app/aws_iot/iot_jobs_job_ota_handler.c:174-181 | A chunk is programmed at the running total if that is page-aligned and its pages are on the chip, inside the area or not; otherwise the driver is used outside its contract |
| OtaDownload.ReceiveBody | app/aws_iot/iot_jobs_job_ota_handler.c:136-193 | The loop ends, with the outcome and the chunks written that follow from what is delivered |
| OtaDownload.RequestCallback | app/aws_iot/iot_jobs_job_ota_handler.c:121-213 | Which outcome each response leads to, and exactly which operations are performed |
| OtaDownload.DownloadAssembles | app/aws_iot/iot_jobs_job_ota_handler.c:132-187 | After the erase and the writes, however many, the download area holds the chunks one behind the other, zeros to the end of their last page, and is blank from there |
| OtaDownload.DownloadedArea | app/aws_iot/iot_jobs_job_ota_handler.c:132-187 | The same byte for byte from 0x14_0000 on |
| OtaDownload.ChunksProgram | app/aws_iot/iot_jobs_job_ota_handler.c:174-181 | Every byte from the start of the download area to the end of the chip is programmed at most once, with the byte received for its place |
| OtaDownload.InAreaExactly | app/aws_iot/iot_jobs_job_ota_handler.c:174-181 | The erase and all programs of a download lie inside the download area if and only if the pages of its content fit there; none reaches past the chip |
| OtaDownload.TooLongDownload | app/aws_iot/iot_jobs_job_ota_handler.c:136-193 | More than 256 deliveries that fill the buffer, as many as the chip has room for: all are programmed, the download reports success, and it leaves its area |
| OtaDownload.DownloadReturnsExactly | app/aws_iot/iot_jobs_job_ota_handler.c:136-193 | A download ends with a status, inside the contract of the flash driver, if and only if every chunk it brings but the last fills whole pages, and the pages of all of them are on the chip |
| OtaDownload.FullChunksReturn | app/aws_iot/iot_jobs_job_ota_handler.c:153-187 | If every chunk but the last fills the 2048-byte buffer and the announced content fits the area, it does, stays in the area, and succeeds exactly if the content came complete |
| OtaDownload.ShortChunkMisaligned | app/aws_iot/iot_jobs_job_ota_handler.c:138-181 | Downloads that program inside a page, at any announced length that is not reached: a part of the body with the headers that does not fill whole pages, for example 100 bytes, nothing in time, then one byte |
| OtaDownload.WrittenTotal | app/aws_iot/iot_jobs_job_ota_handler.c:174-192 | After success at least the announced content is in flash, and less than a buffer more unless it came as one chunk; after any failure, and at any driver fault, nothing or less than the announced content; if every chunk can be stored, the outcome is -2 exactly when the loop comes to an empty chunk, and success otherwise |
| OtaDownload.DryExactly | app/aws_iot/iot_jobs_job_ota_handler.c:153-192 | The loop comes to an empty chunk if and only if there was no chunk or the chunks before it are less than the announced content |
| FlashControl.PageCount | port/flash_interface/flash_control.c:33-39 | The 16-bit counter ends at the size in pages, rounded up, modulo 2^16 |
| FlashControl.SectorCount | port/flash_interface/flash_control.c:16-22 | The same for sectors |
| FlashControl.CopySizeExactly | port/flash_interface/flash_control.c:222-241 | The pages copied cover the image and stay in the area if and only if the size is at most APPLICATION_SIZE |
| FlashControl.FlashDevice.EraseFlash | port/flash_interface/flash_control.c:14-29 | Exactly the sectors that hold dataSize bytes are erased, one by one |
| FlashControl.FlashDevice.WriteFlash | port/flash_interface/flash_control.c:31-45 | Exactly the pages that hold dataSize bytes are programmed, one by one, the last one in full |
| FlashControl.FlashDevice.SaveCommonConfig | port/flash_interface/flash_control.c:130-140 | Erase, then program: byte for byte, the struct is at 0x1C_0000, its sectors are blank behind its last page, and nothing else changes |
| FlashControl.FlashDevice.SaveProvisionedCertInfo | port/flash_interface/flash_control.c:118-128 | The same for the certificate struct at 0x1C_3000 |
| FlashControl.FlashDevice.WriteOtaBinary | port/flash_interface/flash_control.c:142-149 | A chunk is programmed at its offset from the start of the download area, as far as the chip goes |
| FlashControl.FlashDevice.LoadBytes | port/flash_interface/flash_control.c:151-173 | Loading reads the flash and changes nothing |
| FlashControl.FlashDevice.CopyArea | port/flash_interface/flash_control.c:209-242 | Erase of the whole target area, then page by page what the source area holds |
| FlashControl.FlashDevice.CopyOtaToApp | port/flash_interface/flash_control.c:209-242 | The copy from the download area: byte for byte, 0x4_0000 and on become the image from 0x14_0000 on in whole pages and blank flash behind it up to 0xC_0000, and nothing else changes |
| FlashControl.FlashDevice.CopyFactoryToApp | port/flash_interface/flash_control.c:244-277 | The copy from the factory area, in the same way from 0xC_0000 to 0x4_0000 |
| FlashControl.FlashDevice.CopyAppToFactory | port/flash_interface/flash_control.c:279-312 | The backup to the factory area, in the same way from 0x4_0000 to 0xC_0000 |
| FlashControl.SaveThenLoad | port/flash_interface/flash_control.c:130-173 | Programming freshly erased pages acts as assignment: load after save gives the saved bytes, and no byte outside the erased sectors changes |
| FlashControl.CertInfoParts | port/flash_interface/flash_control.c:118-167 | After a save of the certificate struct the token read at +0x1000 and the id read at +0x1200 are those in the struct |
| FlashControl.CopyCopies | port/flash_interface/flash_control.c:209-312 | After a copy the target starts with the n bytes of the source; nothing outside the target area changes |
| FlashControl.CopyMoves | port/flash_interface/flash_control.c:209-312 | The flash after a copy byte for byte: the pages of the image, blank flash to the end of the 512 KB, everything else as it was |
| FlashControl.SaveStores | port/flash_interface/flash_control.c:118-140 | The flash after a save byte for byte |
| FlashControl.ChunkLands | port/flash_interface/flash_control.c:142-149 | A chunk goes to 0x14_0000 plus its offset, in whole pages, and clears bits only; no other byte changes |
| FlashControl.CopyInside | port/flash_interface/flash_control.h:11-26 | Every operation of a copy lies inside the target area |
| FlashControl.SaveInside | port/flash_interface/flash_control.h:11-26 | Every operation of a save lies inside the sectors of the struct |
| NorFlash.OutsideUnchanged | port/flash_interface/flash_control.c:14-45 | Operations inside an area leave every other byte as it was |
| NorFlash.RewriteCut | port/flash_interface/flash_control.c:130-140 | What every byte is after any prefix of an erase-then-program sequence |
| NorFlash.ApplyAllAppend | port/flash_interface/flash_control.c:14-45 | Performing a list of operations in two parts is performing it at once, so a prefix is a power cut |
| DeviceConfig.StatusWritten | boot/main.c:69-70 | Writing the status makes it read back as written and changes neither size nor CRC |
| DeviceConfig.RequestWritten | app/aws_iot/iot_jobs_handler.c:334-336 | Status, size and CRC read back as the request that was written |
| DeviceConfig.BlankNotEnabled | port/device_common/config.h:17-21 | An erased configuration does not ask for an update |
| Crc16Table.ReadTable | port/device_common/crc16.h:4-37 | Every one of the 256 table entries is eight bit steps of its index |
| Crc16.TableStep | port/device_common/crc16.h:43-44 | One round of the table loop feeds the eight bits of a byte into the polynomial register |
| Crc16.DeviceCrc | port/device_common/crc16.h:39-46 | The C loop with 16-bit truncation computes the bit-at-a-time CRC of the bytes |
| Crc16.HostCrc | build_tools/crc16_maker/crc16_ccit_maker.py:41-44 | The Python loop with its mask computes the same, from any start value |
| Crc16.DeviceAndHostAgree | build_tools/crc16_maker/crc16_ccit_maker.py:41-44 | Started at 0, both programs return the same value on every message |
| Crc16.CrcIsRemainder | port/device_common/crc16.h:39-46 | The CRC is the remainder of the message times x^16 on division by x^16 + x^12 + x^5 + 1 |
| Crc16.CheckValue | port/device_common/crc16.h:39-46 | The CRC of the characters 1 to 9 is 0x31C3 |
| CrcRegister.RemainderCharacterised | port/device_common/crc16.h:39-46 | That remainder is the only register that completes a multiple of the generator to the dividend, and there is always one |
| CrcRegister.FeedDivides | port/device_common/crc16.h:43-44 | Feeding bits into the register is long division |
| Crc16.CrcContinues | build_tools/crc16_maker/crc16_ccit_maker.py:5-44 | Continuing from the CRC of a over b gives the CRC of a + b |
| Crc16.CrcLinear | port/device_common/crc16.h:39-46 | For equal lengths the CRC of a xor b is the xor of the CRCs |
| Crc16.CrcOfMessageWithCrc | port/device_common/crc16.h:39-46 | A message followed by its CRC, high byte first, has CRC 0 |
| Crc16.BurstDetected | port/device_common/crc16.h:39-46 | Two different images of equal length whose difference lies within 16 consecutive bits have different CRCs |
| Crc16.OddErrorDetected | port/device_common/crc16.h:39-46 | Two images of equal length that differ in an odd number of bits have different CRCs |
| JobList.Queue.IsEmptyJobIdList | app/aws_iot/iot_jobs_job_list.c:7-22 | Answers true exactly when the queue is not empty, which is how its caller reads it |
| JobList.Queue.IsExistJobId | app/aws_iot/iot_jobs_job_list.c:24-37 | True exactly when the new id is empty or a prefix of a queued one |
| JobList.Queue.GetAvailableIndex | app/aws_iot/iot_jobs_job_list.c:39-58 | Finds the first free slot, the one behind the queue, unless all five are taken |
| JobList.Queue.GetFirstJobId | app/aws_iot/iot_jobs_job_list.c:60-73 | Returns the head of the queue, if there is one |
| JobList.Queue.DelFirstJobId | app/aws_iot/iot_jobs_job_list.c:75-88 | Shifting the slots drops the head of the queue and keeps the others in order |
| JobList.Queue.AddJobId | app/aws_iot/iot_jobs_job_list.c:90-104 | Appends, or fails and changes nothing when five are queued; the empty id takes no slot |
| JobHandler.EveryRun | app/aws_iot/iot_jobs_handler.c:47-138 | After any sequence of messages, get procedures and start procedures: added ids are the deleted ones in order followed by the queued ones; none is empty or repeated or a prefix of one queued before; at most five are queued; exactly as many were deleted as reports were acknowledged, and no more than updates accepted; a job is marked started if and only if one was lost to a driver fault |
| JobHandler.KnownExactly | app/aws_iot/iot_jobs_job_list.c:24-37 | The duplicate test is true of an id exactly when it is queued or is a proper prefix of a queued id |
| JobHandler.NewJobRefused | app/aws_iot/iot_jobs_job_list.c:24-37 | A concrete new id that is refused because a queued one starts with it |
| JobHandler.TopicsApart | app/aws_iot/iot_jobs_handler.c:64-134 | With a job id without slash, none of the three topics is taken for another by the prefix comparison |
| JobHandler.ExactGet | app/aws_iot/iot_jobs_handler.c:64-93 | A message on the get topic sets its flag; the job it names goes behind the queue unless its id is empty, a queued id starts with it, or five are queued; no other field changes |
| JobHandler.ExactStartNext | app/aws_iot/iot_jobs_handler.c:95-127 | A message on the start-next topic sets its flag and stores id, document and type of the job it brings, unless a job is started; no other field changes |
| JobHandler.ExactUpdate | app/aws_iot/iot_jobs_handler.c:129-134 | A message on the update topic of the watched job sets its flag and counts as an acknowledgement; no other field changes |
| JobHandler.ShortTopic | app/aws_iot/iot_jobs_handler.c:64-134 | A topic that ends before the three differ sets off all three branches |
| JobHandler.RefusedJobEnds | app/aws_iot/iot_jobs_handler.c:70-93 | Unless it names a job that is not queued: that ends the callback after the first branch |
| JobHandler.MessageKeeps | app/aws_iot/iot_jobs_handler.c:47-138 | The callback keeps the order of the queue |
| JobHandler.WaitKeeps | app/aws_iot/iot_jobs_handler.c:605-634 | A wait keeps it, and an answered update leaves an acknowledgement not yet spent |
| JobHandler.AskExactly | app/aws_iot/iot_jobs_handler.c:543-634 | A request that is not published fails; a wait goes through passes of at most 1000 ms and succeeds exactly if its own flag is set behind one of them, the first such one, and clears that flag only |
| JobHandler.ProceduresExactly | app/aws_iot/iot_jobs_handler.c:177-416 | What each of the three procedures publishes, on which topic, and which flag it waits for |
| JobHandler.StartJobKeeps | app/aws_iot/iot_jobs_handler.c:205-274 | The start procedure keeps it, deletes only against an acknowledgement, and takes back the mark of a started job unless the job is lost |
| JobHandler.StartJobExactly | app/aws_iot/iot_jobs_handler.c:205-274 | An empty queue or a started job: nothing happens. Otherwise a start-next request is published, and for a job that is not lost its id with SUCCEEDED or FAILED; an acknowledged report deletes the head that was there before the call, without one nothing is deleted; new jobs go behind |
| JobHandler.AskedBrings | app/aws_iot/iot_jobs_handler.c:108-124 | The job that runs is the last one brought by the messages of the wait, with its id, document and type, or an empty one |
| JobsTask.Task.EventCallback | app/aws_iot/iot_jobs_handler.c:47-138 | The callback does to the globals what the specification says, including the early return for a job it does not queue |
| JobsTask.Task.Wait | app/aws_iot/iot_jobs_handler.c:605-634 | A wait ends at the first pass that finds the flag, which it clears, or at the first pass past the timeout |
| JobsTask.Task.GetProcedure | app/aws_iot/iot_jobs_handler.c:177-203 | Publish, then wait for the get answer |
| JobsTask.Task.StartNextProcedure | app/aws_iot/iot_jobs_handler.c:357-382 | Publish, then wait for the start-next answer |
| JobsTask.Task.UpdateStatusProcedure | app/aws_iot/iot_jobs_handler.c:384-416 | Publish, then wait for the update answer; from then on the callback watches the job id |
| JobsTask.Task.StartJobProcedure | app/aws_iot/iot_jobs_handler.c:205-274 | Which job runs and when, that its document has the type the answer brought, what it does to flash and configuration, that the head of the queue is dropped exactly when the report is acknowledged, and that the device reboots exactly after an accepted OTA job |
| JobsTask.Perform | app/aws_iot/iot_jobs_handler.c:205-274 | Each thing that can happen to the task changes the globals as the specification says; only a job that is started touches the flash, and that job is one document |
| JobsTask.Session | app/aws_iot/iot_jobs_handler.c:205-274 | The same for the class with the globals, over every run from power-up to a reboot: order, no repetition, acknowledgements, and no job left marked as started unless the last one was lost; all flash operations of the session are a run of the state machine through every prefix of them, which keeps the invariant in every state if every content fits its area |
| UrlParser.Tokenizer.Next | port/network_interface/http_interface.c:410-435 | strtok with its saved position: the token behind any delimiters, ended by a NUL in place of the next one; the buffer before the position is untouched |
| UrlParser.ParseUrlInfo | port/network_interface/http_interface.c:391-453 | The three calls of strtok on a copy of the URL compute ParseUrl, the output buffers hold the parts, the URL is unchanged; more than 2176 characters are refused |
| UrlParser.UrlRoundTrip | port/network_interface/http_interface.c:391-447 | scheme://host/path comes apart into port 80 or 443, exactly host, and "/" + path (section 3 of RFC 3986) |
| UrlParser.ShapeParsed | port/network_interface/http_interface.c:410-447 | Every URL of the accepted shape that fits the buffers is taken apart into exactly its parts |
| UrlParser.ParsedShape | port/network_interface/http_interface.c:410-447 | Nothing else is accepted: from a result the URL can be put together again |
| UrlParser.NullTokenExactly | port/network_interface/http_interface.c:410-436 | When a null token is handed to a string function: only colons and slashes; or only slashes behind an accepted scheme; or an address that fits with nothing but a slash behind it |
| UrlParser.NoRoomExactly | port/network_interface/http_interface.c:402-444 | When a part passes its length check without room for its NUL: the URL fills its copy, the address its buffer, or the path its buffer. With the rows on parsed URLs and null tokens, everything else is refused |
| UrlParser.PortExactly | port/network_interface/http_interface.c:410-422 | Port 443 for every scheme that starts with https, otherwise 80 for every one that starts with http, otherwise none |
| UrlParser.LongestHostHasNoRoom | port/network_interface/http_interface.c:425-432 | A host exactly as long as its buffer has no room for its NUL |
| UrlParser.UnfinishedUrls | port/network_interface/http_interface.c:410-426 | The empty URL and one that ends behind its scheme hand over a null token |
| UrlParser.NoPathNoResult | port/network_interface/http_interface.c:435-436 | So does one that ends with its host, or with the slash behind it |
| BitVectors.MakeBitArray | build_tools/OpenOCD-20230202-0.12.0/share/openocd/contrib/xsvf_tools/svf2xsvf.py:239-268 | Fails exactly when there are too few digits; otherwise bitCount bits that stand for the number modulo 2^bitCount |
| BitVectors.MakeXSVFBytes | build_tools/OpenOCD-20230202-0.12.0/share/openocd/contrib/xsvf_tools/svf2xsvf.py:271-294 | ceil(n / 8) bytes that stand, big-endian, for the number of the bits |
| BitVectors.BytesToHexString | build_tools/OpenOCD-20230202-0.12.0/share/openocd/contrib/xsvf_tools/xsvfdump.py:77-84 | The hexadecimal text has two lower-case digits a byte and stands for the number the bytes stand for |
| BitVectors.PrintedNumber | build_tools/OpenOCD-20230202-0.12.0/share/openocd/contrib/xsvf_tools/xsvfdump.py:77-84 | A number of a statement, cut to n bits, packed and dumped, is printed as the same number modulo 2^n |
| BitVectors.UnpackPack | build_tools/OpenOCD-20230202-0.12.0/share/openocd/contrib/xsvf_tools/svf2xsvf.py:271-294 | Reading n bits back from the packed bytes gives the vector that was packed |
| BitVectors.ValueInjective | build_tools/OpenOCD-20230202-0.12.0/share/openocd/contrib/xsvf_tools/svf2xsvf.py:239-268 | A number has only one vector of a given length |
| SvfStatements.CombinedValue | build_tools/OpenOCD-20230202-0.12.0/share/openocd/contrib/xsvf_tools/svf2xsvf.py:308-318 | The header is in the least significant bits of a combined vector, the trailer in the most significant |
| SvfVectors.MaskSet.SyncLengths | build_tools/OpenOCD-20230202-0.12.0/share/openocd/contrib/xsvf_tools/svf2xsvf.py:200-235 | The lengths are brought into step as the specification says |
| SvfVectors.MaskSet.Shift | build_tools/OpenOCD-20230202-0.12.0/share/openocd/contrib/xsvf_tools/svf2xsvf.py:421-459 | A whole shift statement on its vector set |
| SvfVectors.TakenFails | build_tools/OpenOCD-20230202-0.12.0/share/openocd/contrib/xsvf_tools/svf2xsvf.py:430-439 | A statement fails exactly when some part has too few digits |
| SvfVectors.ShiftMeaning | build_tools/OpenOCD-20230202-0.12.0/share/openocd/contrib/xsvf_tools/svf2xsvf.py:182-235 | After every shift statement all four vectors have exactly the length it names, and each is what was given last, else what it was, else zeros or, for the mask of SDR, ones |
| SvfStatements.SdrMeaning | build_tools/OpenOCD-20230202-0.12.0/share/openocd/contrib/xsvf_tools/svf2xsvf.py:479-534 | The mask, input and expected output an SDR statement sends, in terms of what it gives and what was in force |
| SvfStatements.LsdrMeaning | build_tools/OpenOCD-20230202-0.12.0/share/openocd/contrib/xsvf_tools/svf2xsvf.py:536-565 | The same for LSDR, which is always masked and compared |
| SvfStatements.SirInput | build_tools/OpenOCD-20230202-0.12.0/share/openocd/contrib/xsvf_tools/svf2xsvf.py:462-477 | The input vector an SIR statement sends, its record, and that from 32768 bits on the compiler stops |
| SvfStatements.ShiftSets | build_tools/OpenOCD-20230202-0.12.0/share/openocd/contrib/xsvf_tools/svf2xsvf.py:408-459 | Which vectors each of the seven shift commands sets and to what; all others stay; header and trailer commands write nothing |
| SvfBytes.RunTestBytes | build_tools/OpenOCD-20230202-0.12.0/share/openocd/contrib/xsvf_tools/svf2xsvf.py:321-352 | RUNTEST in bytes: the comment, 24, the run state, the end state, the count and the microseconds in four bytes each; which states are in force before and after; when the compiler stops instead and behind what |
| SvfBytes.DelayBytes | build_tools/OpenOCD-20230202-0.12.0/share/openocd/contrib/xsvf_tools/svf2xsvf.py:321-352 | LDELAY in bytes: the same with 26 and without the end state |
| SvfBytes.EndDrBytes | build_tools/OpenOCD-20230202-0.12.0/share/openocd/contrib/xsvf_tools/svf2xsvf.py:632-648 | ENDDR in bytes: the comment, 20, and 1 for DRPAUSE or 0 |
| SvfBytes.EndIrBytes | build_tools/OpenOCD-20230202-0.12.0/share/openocd/contrib/xsvf_tools/svf2xsvf.py:650-666 | ENDIR in bytes: the comment, 19, and 1 for IRPAUSE or 0 |
| SvfBytes.StateBytes | build_tools/OpenOCD-20230202-0.12.0/share/openocd/contrib/xsvf_tools/svf2xsvf.py:668-684 | STATE in bytes: one comment, and 18 with its number for each state; nothing for FREQUENCY |
| SvfBytes.TrstBytes | build_tools/OpenOCD-20230202-0.12.0/share/openocd/contrib/xsvf_tools/svf2xsvf.py:699-713 | TRST in bytes: the comment with the mode, 28, and the number of the mode |
| SvfBytes.LoopCountBytes | build_tools/OpenOCD-20230202-0.12.0/share/openocd/contrib/xsvf_tools/svf2xsvf.py:617-630 | LCOUNT in bytes: the comment, 25 and the count, or an exception behind the comment |
| SvfBytes.ShiftBytes | build_tools/OpenOCD-20230202-0.12.0/share/openocd/contrib/xsvf_tools/svf2xsvf.py:479-565 | SDR and LSDR in bytes: the comment, 8 and the size if it changed, 1 and the mask if it changed, then 3, 9 or 27 and the vectors |
| SvfBytes.SirBytes | build_tools/OpenOCD-20230202-0.12.0/share/openocd/contrib/xsvf_tools/svf2xsvf.py:462-477 | SIR in bytes: the comment, 2 and one byte of length or 21 and two, and the vector |
| SvfBytes.FileBytes | build_tools/OpenOCD-20230202-0.12.0/share/openocd/contrib/xsvf_tools/svf2xsvf.py:400-728 | The whole file: 7 and 0, the statements, and 0, also when a statement stops the compiler |
| SvfBytes.Numbers | build_tools/OpenOCD-20230202-0.12.0/share/openocd/contrib/xsvf_tools/svf2xsvf.py:68-77 | The TAP states and the modes of TRST by their numbers |
| SvfBytes.DecimalNumber | build_tools/OpenOCD-20230202-0.12.0/share/openocd/contrib/xsvf_tools/svf2xsvf.py:297-305 | The line number in a comment reads as the number it is, without leading zeros |
| SvfStatements.MeaningGood | build_tools/OpenOCD-20230202-0.12.0/share/openocd/contrib/xsvf_tools/svf2xsvf.py:408-715 | Every statement keeps all vector sets even and yields only what the format can hold |
| SvfCompiler.ChangeDetectionIsFaithful | build_tools/OpenOCD-20230202-0.12.0/share/openocd/contrib/xsvf_tools/svf2xsvf.py:391-393 | The stream that sends size and mask only on change plays as the shifts it was made from, as does the one that always sends them |
| SvfCompiler.EventArrives | build_tools/OpenOCD-20230202-0.12.0/share/openocd/contrib/xsvf_tools/svf2xsvf.py:488-534 | One shift arrives with its size, mask, input and expected output, whatever was sent before |
| SvfCompiler.DumpedFilePlays | build_tools/OpenOCD-20230202-0.12.0/share/openocd/contrib/xsvf_tools/xsvfdump.py:250-263 | The dumper reads the whole compiled file, finds the records written, and they play as the events compiled |
| SvfStatements.CompiledFileMeansProgram | build_tools/OpenOCD-20230202-0.12.0/share/openocd/contrib/xsvf_tools/svf2xsvf.py:400-728 | For every statement sequence the compiled file is dumped to its end and plays as exactly what the statements mean |
| SvfWriter.Writer.Convert | build_tools/OpenOCD-20230202-0.12.0/share/openocd/contrib/xsvf_tools/svf2xsvf.py:400-728 | The compiler leaves the bytes 7 and 0, the compiled statements, and 0, also when a statement stops it |
| SvfWriter.Writer.Process | build_tools/OpenOCD-20230202-0.12.0/share/openocd/contrib/xsvf_tools/svf2xsvf.py:408-715 | One statement adds exactly the bytes of its events to the file and changes the vector sets as it means |
| SvfWriter.Writer.WriteShift | build_tools/OpenOCD-20230202-0.12.0/share/openocd/contrib/xsvf_tools/svf2xsvf.py:488-534 | A data shift, with size and mask before it exactly when they changed |
| SvfWriter.Writer.WriteRunTest | build_tools/OpenOCD-20230202-0.12.0/share/openocd/contrib/xsvf_tools/svf2xsvf.py:321-352 | The comment and the record in bytes, with opcode 24 or 26 and the fields in their order, or an exception after the comment when a number does not fit |
| XsvfRecords.IntRoundTrip | build_tools/OpenOCD-20230202-0.12.0/share/openocd/contrib/xsvf_tools/svf2xsvf.py:342-343 | A four-byte integer reads back as it was written |
| XsvfRecords.PackedNumber | build_tools/OpenOCD-20230202-0.12.0/share/openocd/contrib/xsvf_tools/svf2xsvf.py:342-343 | The four bytes are the number in two's complement, most significant byte first |
| XsvfRecords.RecordRoundTrip | build_tools/OpenOCD-20230202-0.12.0/share/openocd/contrib/xsvf_tools/xsvfdump.py:106-247 | A record reads back as itself and leaves what follows it unread |
| XsvfRecords.FramingRoundTrip | build_tools/OpenOCD-20230202-0.12.0/share/openocd/contrib/xsvf_tools/xsvfdump.py:250-263 | The dumper consumes every byte of any framed record sequence, meets no unknown opcode, and recovers every record |
| XsvfRecords.EncodingInjective | build_tools/OpenOCD-20230202-0.12.0/share/openocd/contrib/xsvf_tools/xsvfdump.py:106-247 | Different record sequences have different files |
| XsvfRecords.CutRecord | build_tools/OpenOCD-20230202-0.12.0/share/openocd/contrib/xsvf_tools/xsvfdump.py:106-247 | What a record that is cut short by the end of the file comes to, which lengths raise an exception, and which opcodes are unknown |
| XsvfRecords.DumpStops | build_tools/OpenOCD-20230202-0.12.0/share/openocd/contrib/xsvf_tools/xsvfdump.py:243-263 | Behind any framed records, a record cut short ends the dump in an exception and an unknown opcode ends it as unknown; the records before are shown |
| XsvfRecords.Dumper.ShowOpcode | build_tools/OpenOCD-20230202-0.12.0/share/openocd/contrib/xsvf_tools/xsvfdump.py:106-247 | One opcode that the compiler writes and its fields, or an exception where the file ends too early or a length is below -15 |
| XsvfRecords.Dumper.Dump | build_tools/OpenOCD-20230202-0.12.0/share/openocd/contrib/xsvf_tools/xsvfdump.py:250-263 | The loop of the dumper, to the end of the file or to what stops it |

## Left out

- TLS, sockets, DHCP, DNS, SPI, GPIO and the MQTT, HTTP and JSON libraries: what they deliver is a parameter of the
  methods, or a message or delivery that may come in any order.
- Logging, hexadecimal dumps, menus, clock setup and the jump itself: input and output. The operator menus of the boot
  loader erase flash, so the crash-safety runs leave them out.
- The tasks of FreeRTOS as concurrent threads: the jobs task runs its callback from its own waits; of the other tasks
  only the writes to the certificate area appear, between the operations of the update.
- AppCommon: holds APP_COMMON_t as bytes and the reboot flag beside them; the flag's own byte and the other flags that
  other tasks change are not modelled.
- is_upper_version_fw, the parsers of job documents and is_ipaddr: their results are parameters.
- JobHandler.WatchedId: before the first update sprintf is handed a null pointer; the model takes what newlib prints.
- JobHandler.Publication: of what an update reports only the status; the log text beside it is not modelled.
- JobHandler.Message: a topic with a NUL in it, which MQTT forbids, is compared to its end and not to the NUL.
- That the head of the queue is the job the server started, or that an acknowledgement belongs to this update: the code
  compares no ids and does not clear the flag before publishing.
- The SVF lexer and parser: statements arrive parsed, times in whole microseconds. Of the parse errors only too few
  hexadecimal digits is modelled.
- XsvfRecords.Dumper.ShowOpcode: opcodes the compiler never writes (XRUNTEST, XSETSDRMASKS, XSDRINC, XSDRB and its
  kin, XWAIT) end as unknown, although the dumper decodes them; of the text it prints only the digits are modelled.
- XsvfRecords.Dumper.Dump: stops at such an opcode, for the same reason.
- The MQTT subscription table and connection state: not part of the update or of the queue.
- UrlParser.ParseUrlInfo: what http_get does after a failed parse; it looks at the port only.
- The OpenOCD configuration, linker scripts and build files.
