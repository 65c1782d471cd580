/** APP_COMMON_t as it lies in flash: raw bytes, of which the boot loader and the update job care about the
    DEVICE_OTA_INFO_t inside it. */
module DeviceConfig {
  import opened Wrappers
  import opened NorFlash
  import opened FlashControl
  import opened CrcRegister
  import C = Crc16

  /** sizeof(DEVICE_OTA_INFO_t): status, padding up to 4 bytes, size in 4 bytes, CRC in 2, padding. */
  const OTA_INFO_SIZE: nat := 12

  /** Where the compiler puts things. The width of the status enum and the fields before DEVICE_OTA_INFO_t depend
      on the ABI and on a header outside the repository; what the update relies on is that DEVICE_OTA_INFO_t
      does not straddle two flash pages. */
  datatype Layout = Layout(size: nat, otaInfo: nat, statusWidth: nat) {
    predicate Valid() {
      && otaInfo + OTA_INFO_SIZE <= size <= CONFIG_LIMIT
      && 1 <= statusWidth <= 4
      && otaInfo % 256 + OTA_INFO_SIZE <= 256
    }
  }

  type ValidLayout = l: Layout | l.Valid() witness Layout(940, 920, 1)

  /** The DEVICE_OTA_INFO_t inside a configuration. */
  function OtaInfo(l: ValidLayout, config: Bytes): (info: Bytes)
    requires |config| >= l.size
    ensures |info| == OTA_INFO_SIZE
  {
    config[l.otaInfo..l.otaInfo + OTA_INFO_SIZE]
  }

  /** START_FW_OTA_ENABLE is 1 and START_FW_OTA_DISABLE is 0, little-endian. */
  function StatusBytes(width: nat, enable: bool): (bytes: Bytes)
    ensures |bytes| == width
  {
    seq(width, i => if i == 0 && enable then 1 as bv8 else 0)
  }

  predicate InfoEnabled(l: ValidLayout, info: Bytes)
    requires |info| == OTA_INFO_SIZE
  {
    info[..l.statusWidth] == StatusBytes(l.statusWidth, true)
  }

  /** FIRMWARE_SIZE, a uint32_t; the low byte comes first in memory. */
  function ReadSize(b: Bytes): bv32
    requires |b| == 4
  {
    (b[0] as bv32) | ((b[1] as bv32) << 8) | ((b[2] as bv32) << 16) | ((b[3] as bv32) << 24)
  }

  function InfoSize(info: Bytes): nat
    requires |info| == OTA_INFO_SIZE
  {
    ReadSize(info[4..8]) as nat
  }

  /** FIRMWARE_CRC, as the register it stands for; the low byte comes first in memory. */
  function InfoCrc(info: Bytes): Register
    requires |info| == OTA_INFO_SIZE
  {
    C.BitsOf(info[9]) + C.BitsOf(info[8])
  }

  /** A request has the status 1, low byte first. */
  lemma StatusRead(l: ValidLayout, info: Bytes)
    requires |info| == OTA_INFO_SIZE
    ensures InfoEnabled(l, info) <==> info[0] == 1 && forall j :: 1 <= j < l.statusWidth ==> info[j] == 0
  {
    var status := info[..l.statusWidth];
    assert forall j :: 0 <= j < l.statusWidth ==> status[j] == info[j];
    if info[0] == 1 && forall j :: 1 <= j < l.statusWidth ==> info[j] == 0 {
      assert status == StatusBytes(l.statusWidth, true);
    }
    assert StatusBytes(l.statusWidth, true)[0] == 1;
    assert forall j :: 1 <= j < l.statusWidth ==> StatusBytes(l.statusWidth, true)[j] == 0;
  }

  lemma SizeRead(a: bv8, b: bv8, c: bv8, d: bv8)
    ensures ReadSize([a, b, c, d]) ==
            a as bv32 + 0x100 * (b as bv32) + 0x1_0000 * (c as bv32) + 0x100_0000 * (d as bv32)
  {}

  /** An erased DEVICE_OTA_INFO_t does not ask for an update. */
  lemma BlankNotEnabled(l: ValidLayout)
    ensures !InfoEnabled(l, Erased(OTA_INFO_SIZE))
  {
    assert Erased(OTA_INFO_SIZE)[..l.statusWidth][0] == 0xFF;
    assert StatusBytes(l.statusWidth, true)[0] == 1;
  }

  // ---- Writing the fields --------------------------------------------------------------------------

  function Replace(config: Bytes, at: nat, field: Bytes): (changed: Bytes)
    requires at + |field| <= |config|
    ensures |changed| == |config|
  {
    config[..at] + field + config[at + |field|..]
  }

  function WithStatus(l: ValidLayout, config: Bytes, enable: bool): (changed: Bytes)
    requires |config| == l.size
    ensures |changed| == l.size
  {
    Replace(config, l.otaInfo, StatusBytes(l.statusWidth, enable))
  }

  function SizeBytes(n: bv32): (bytes: Bytes)
    ensures |bytes| == 4
  {
    [(n & 0xFF) as bv8, ((n >> 8) & 0xFF) as bv8, ((n >> 16) & 0xFF) as bv8, ((n >> 24) & 0xFF) as bv8]
  }

  function WithSize(l: ValidLayout, config: Bytes, n: bv32): (changed: Bytes)
    requires |config| == l.size
    ensures |changed| == l.size
  {
    Replace(config, l.otaInfo + 4, SizeBytes(n))
  }

  function WithCrc(l: ValidLayout, config: Bytes, crc: bv16): (changed: Bytes)
    requires |config| == l.size
    ensures |changed| == l.size
  {
    Replace(config, l.otaInfo + 8, [C.LowByte(crc), C.HighByte(crc)])
  }

  lemma SizeRoundTrip(n: bv32)
    ensures ReadSize(SizeBytes(n)) == n
  {}

  lemma ReplacedByte(config: Bytes, at: nat, field: Bytes, i: nat)
    requires at + |field| <= |config| && i < |config|
    ensures Replace(config, at, field)[i] == if at <= i < at + |field| then field[i - at] else config[i]
  {}

  lemma ReplacedSlice(config: Bytes, at: nat, field: Bytes, from: nat, to: nat)
    requires at + |field| <= |config| && from <= to <= |config|
    ensures to <= at || at + |field| <= from ==> Replace(config, at, field)[from..to] == config[from..to]
    ensures from == at && to == at + |field| ==> Replace(config, at, field)[from..to] == field
  {
    hide Replace;
    var changed := Replace(config, at, field);
    forall i | from <= i < to
      ensures changed[i] == if at <= i < at + |field| then field[i - at] else config[i]
    {
      ReplacedByte(config, at, field, i);
    }
    if to <= at || at + |field| <= from {
      SliceIs(changed, from, to, config[from..to]);
    } else if from == at && to == at + |field| {
      SliceIs(changed, from, to, field);
    }
  }

  lemma SliceIs(bytes: Bytes, from: nat, to: nat, part: Bytes)
    requires from <= to <= |bytes| && |part| == to - from
    requires forall i :: from <= i < to ==> bytes[i] == part[i - from]
    ensures bytes[from..to] == part
  {
    var slice := bytes[from..to];
    forall i | 0 <= i < |slice|
      ensures slice[i] == part[i]
    {
      assert slice[i] == bytes[from + i];
    }
  }

  lemma InfoSlice(l: ValidLayout, config: Bytes, from: nat, to: nat)
    requires |config| >= l.size && from <= to <= OTA_INFO_SIZE
    ensures OtaInfo(l, config)[from..to] == config[l.otaInfo + from..l.otaInfo + to]
  {
    var a, b := OtaInfo(l, config)[from..to], config[l.otaInfo + from..l.otaInfo + to];
    assert |a| == |b| && forall i | 0 <= i < |a| :: a[i] == b[i];
  }

  /** Setting the status changes nothing else in the DEVICE_OTA_INFO_t. */
  lemma StatusWritten(l: ValidLayout, config: Bytes, enable: bool)
    requires |config| == l.size
    ensures
      var before, after := OtaInfo(l, config), OtaInfo(l, WithStatus(l, config, enable));
      && InfoEnabled(l, after) == enable
      && InfoSize(after) == InfoSize(before) && InfoCrc(after) == InfoCrc(before)
  {
    var changed, status := WithStatus(l, config, enable), StatusBytes(l.statusWidth, enable);
    InfoSlice(l, changed, 0, l.statusWidth);
    ReplacedSlice(config, l.otaInfo, status, l.otaInfo, l.otaInfo + l.statusWidth);
    if !enable {
      assert status[0] != StatusBytes(l.statusWidth, true)[0];
    }
    InfoSlice(l, config, 4, 12);
    InfoSlice(l, changed, 4, 12);
    ReplacedSlice(config, l.otaInfo, status, l.otaInfo + 4, l.otaInfo + 12);
    SameTail(OtaInfo(l, config), OtaInfo(l, changed));
  }

  lemma SameTail(a: Bytes, b: Bytes)
    requires |a| == |b| == OTA_INFO_SIZE && a[4..12] == b[4..12]
    ensures InfoSize(a) == InfoSize(b) && InfoCrc(a) == InfoCrc(b)
  {
    assert a[4..12][..4] == a[4..8] && b[4..12][..4] == b[4..8];
    assert a[8] == a[4..12][4] == b[8] && a[9] == a[4..12][5] == b[9];
  }

  /** The three assignments of a finished update job. */
  function Requested(l: ValidLayout, config: Bytes, n: bv32, crc: bv16): (changed: Bytes)
    requires |config| == l.size
    ensures |changed| == l.size
  {
    WithCrc(l, WithSize(l, WithStatus(l, config, true), n), crc)
  }

  /** Neither a status nor a request changes anything outside DEVICE_OTA_INFO_t. */
  lemma OnlyInfoChanges(l: ValidLayout, config: Bytes, enable: bool, n: bv32, crc: bv16, i: nat)
    requires |config| == l.size && i < l.size && !(l.otaInfo <= i < l.otaInfo + 12)
    ensures WithStatus(l, config, enable)[i] == config[i] == Requested(l, config, n, crc)[i]
  {
    hide Replace, StatusBytes, SizeBytes, C.LowByte, C.HighByte;
    var s := WithStatus(l, config, true);
    var z := WithSize(l, s, n);
    ReplacedByte(config, l.otaInfo, StatusBytes(l.statusWidth, enable), i);
    ReplacedByte(config, l.otaInfo, StatusBytes(l.statusWidth, true), i);
    ReplacedByte(s, l.otaInfo + 4, SizeBytes(n), i);
    ReplacedByte(z, l.otaInfo + 8, [C.LowByte(crc), C.HighByte(crc)], i);
  }

  lemma RequestWritten(l: ValidLayout, config: Bytes, n: bv32, crc: bv16)
    requires |config| == l.size
    ensures
      var info := OtaInfo(l, Requested(l, config, n, crc));
      InfoEnabled(l, info) && InfoSize(info) == n as nat && InfoCrc(info) == C.Word(crc)
  {
    hide Replace, StatusBytes, SizeBytes, ReadSize, C.LowByte, C.HighByte, C.BitsOf, C.Word;
    var s := WithStatus(l, config, true);
    var z := WithSize(l, s, n);
    var bytes := [C.LowByte(crc), C.HighByte(crc)];
    var r, at, w := Requested(l, config, n, crc), l.otaInfo, l.statusWidth;
    InfoSlice(l, r, 0, w);
    ReplacedSlice(z, at + 8, bytes, at, at + w);
    ReplacedSlice(s, at + 4, SizeBytes(n), at, at + w);
    ReplacedSlice(config, at, StatusBytes(w, true), at, at + w);
    InfoSlice(l, r, 4, 8);
    ReplacedSlice(z, at + 8, bytes, at + 4, at + 8);
    ReplacedSlice(s, at + 4, SizeBytes(n), at + 4, at + 8);
    SizeRoundTrip(n);
    InfoSlice(l, r, 8, 10);
    ReplacedSlice(z, at + 8, bytes, at + 8, at + 10);
    var info := OtaInfo(l, r);
    assert info[8] == info[8..10][0] == C.LowByte(crc) && info[9] == info[8..10][1] == C.HighByte(crc);
    C.WordBytes(crc, info[9], info[8]);
  }
}
