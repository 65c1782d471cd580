/** boot/main.c: the boot loop, and what it does in terms of the state machine. */
module BootLoader {
  import opened Wrappers
  import opened NorFlash
  import opened FlashControl
  import opened DeviceConfig
  import opened OtaSystem

  const JUMP_APP_TIMEOUT_MS := 2000

  /** The configuration the boot loader writes back, and whatever lies behind it in memory. */
  function ClearedBuffer(l: ValidLayout, m: Memory, behind: Bytes): Bytes {
    WithStatus(l, Config(l, m), false) + behind
  }

  lemma BufferFits(l: ValidLayout, m: Memory, behind: Bytes)
    requires |behind| >= PAGE_SIZE
    ensures ConfigBuffer(l, ClearedBuffer(l, m, behind))
  {
    PagesCover(l.size);
  }

  /** The save that clears the request. */
  function SaveOf(l: ValidLayout, m: Memory, behind: Bytes): (ops: seq<FlashOp>)
    requires |behind| >= PAGE_SIZE
    ensures 256 * Pages(l.size) <= l.size + |behind|
    ensures 4096 * (CONFIG_SECTOR + Sectors(l.size)) <= CHIP_SIZE
    ensures ops == SaveOps(CONFIG_SECTOR, ClearedBuffer(l, m, behind), l.size)
  {
    BufferFits(l, m, behind);
    SectorsCover(l.size);
    ConfigOps(l, ClearedBuffer(l, m, behind))
  }

  /** Everything the boot loader does to the flash for the request in m. */
  function BootOps(l: ValidLayout, m: Memory, behind: Bytes): seq<FlashOp>
    requires InfoSize(Info(l, m)) <= APPLICATION_SIZE && |behind| >= PAGE_SIZE
  {
    InstallOps(l, m) + SaveOf(l, m, behind)
  }

  /** One pass of the loop that finds a request. */
  method Install(flash: FlashDevice, l: ValidLayout, appCommon: Bytes, behind: Bytes) returns (cleared: Bytes)
    requires flash.Valid() && |behind| >= PAGE_SIZE
    requires appCommon == Config(l, flash.Contents()) && InfoSize(OtaInfo(l, appCommon)) <= APPLICATION_SIZE
    modifies flash, flash.cells
    ensures flash.Valid() && flash.log == old(flash.log) + BootOps(l, old(flash.Contents()), behind)
    ensures cleared == WithStatus(l, appCommon, false)
  {
    hide ApplyAll, CopyRangeOps, RewriteOps, WithStatus;
    ghost var m := flash.Contents();
    ghost var copy, save := InstallOps(l, m), SaveOf(l, m, behind);
    flash.CopyOtaToApp(InfoSize(OtaInfo(l, appCommon)));
    assert flash.log == old(flash.log) + copy;
    cleared := WithStatus(l, appCommon, false);
    flash.SaveCommonConfig(cleared + behind, l.size);
    assert flash.log == (old(flash.log) + copy) + save;
  }

  /** main of the boot loader, up to the jump. readings[0] is the time taken before the loop and the others the
      one taken in each pass; behind is the memory after appCommon. A request is carried out, once, if and only
      if the first pass is not already past the timeout. */
  method Boot(flash: FlashDevice, l: ValidLayout, readings: seq<nat>, behind: Bytes) returns (jumped: bool)
    requires flash.Valid() && readings != [] && |behind| >= PAGE_SIZE
    requires Enabled(l, flash.Contents()) ==> InfoSize(Info(l, flash.Contents())) <= APPLICATION_SIZE
    modifies flash, flash.cells
    ensures flash.Valid()
    ensures
      var m := old(flash.Contents());
      var inTime := |readings| > 1 && Elapsed(readings[1], readings[0]) <= 2000;
      flash.log == old(flash.log) + if Enabled(l, m) && inTime then BootOps(l, m, behind) else []
    ensures jumped <==>
            exists i :: 1 <= i < |readings| && Elapsed(readings[i], readings[0]) > 2000
  {
    hide Elapsed, WithStatus, BootOps;
    ghost var m := flash.Contents();
    var appCommon := flash.LoadBytes(CONFIG, l.size);
    ghost var done := false;
    var i := 1;
    jumped := false;
    while i < |readings| && !jumped
      invariant 1 <= i <= |readings| && |appCommon| == l.size
      invariant jumped ==> i < |readings| && Elapsed(readings[i], readings[0]) > JUMP_APP_TIMEOUT_MS
      invariant forall j :: 1 <= j < i ==> Elapsed(readings[j], readings[0]) <= JUMP_APP_TIMEOUT_MS
      invariant done <==> Enabled(l, m) && i > 1
      invariant appCommon == if done then WithStatus(l, Config(l, m), false) else Config(l, m)
      invariant flash.Valid() && flash.log == old(flash.log) + if done then BootOps(l, m, behind) else []
      decreases |readings| - i, !jumped
    {
      if Elapsed(readings[i], readings[0]) > JUMP_APP_TIMEOUT_MS {
        jumped := true;
      } else {
        StatusWritten(l, Config(l, m), false);
        if InfoEnabled(l, OtaInfo(l, appCommon)) {
          appCommon := Install(flash, l, appCommon, behind);
          done := true;
        }
        i := i + 1;
      }
    }
  }

  /** What the boot loader leaves when it has carried out a request, in addresses: the image of the download area at
      0x4_0000, no request, the size and the CRC of the request as they were, and no change outside the application and
      the configuration. */
  lemma BootLeaves(l: ValidLayout, m: Memory, behind: Bytes)
    requires InfoSize(Info(l, m)) <= APPLICATION_SIZE && |behind| >= PAGE_SIZE
    ensures
      var after, size := ApplyAll(m, BootOps(l, m, behind)), InfoSize(Info(l, m));
      && (forall j: nat :: j < size ==> after[0x4_0000..0xC_0000][j] == m[0x14_0000..0x1C_0000][j])
      && !Enabled(l, after) && InfoSize(Info(l, after)) == size && InfoCrc(Info(l, after)) == InfoCrc(Info(l, m))
      && (forall i: nat :: i < CHIP_SIZE && !(0x4_0000 <= i < 0xC_0000 || 0x1C_0000 <= i < 0x1C_2000) ==>
            after[i] == m[i])
  {
    hide ApplyAll, InstallOps, ConfigOps, Moved, Info, InfoEnabled, WithStatus;
    var copy, save, size := InstallOps(l, m), SaveOf(l, m, behind), InfoSize(Info(l, m));
    var mid, after := ApplyAll(m, copy), ApplyAll(m, copy + save);
    BufferFits(l, m, behind);
    var buffer := ClearedBuffer(l, m, behind);
    ApplyAllAppend(m, copy, save);
    InstallLands(l, m, mid);
    ConfigOpsInside(l, buffer);
    OutsideUnchanged(mid, save, CONFIG, CONFIG + CONFIG_LIMIT);
    ConfigDone(l, mid, buffer);
    ClearedInfo(l, m, behind, after);
    forall j: nat | j < size
      ensures after[0x4_0000..0xC_0000][j] == m[0x14_0000..0x1C_0000][j]
    {
      assert mid[0x4_0000..0xC_0000][j] == mid[0x4_0000 + j] == after[0x4_0000 + j];
    }
  }

  lemma InstallLands(l: ValidLayout, m: Memory, mid: Memory)
    requires InfoSize(Info(l, m)) <= APPLICATION_SIZE && mid == ApplyAll(m, InstallOps(l, m))
    ensures forall j: nat :: j < InfoSize(Info(l, m)) ==>
                               mid[0x4_0000..0xC_0000][j] == m[0x14_0000..0x1C_0000][j]
    ensures forall i: nat :: i < CHIP_SIZE && !(0x4_0000 <= i < 0xC_0000) ==> mid[i] == m[i]
  {
    hide ApplyAll, CopyOps;
    CopyMoves(m, App, Ota, InfoSize(Info(l, m)));
  }

  /** The configuration read back has no request, and the size and the CRC of the old one. */
  lemma ClearedInfo(l: ValidLayout, m: Memory, behind: Bytes, after: Memory)
    requires Config(l, after) == ClearedBuffer(l, m, behind)[..l.size]
    ensures !Enabled(l, after)
    ensures InfoSize(Info(l, after)) == InfoSize(Info(l, m)) && InfoCrc(Info(l, after)) == InfoCrc(Info(l, m))
  {
    hide WithStatus;
    StatusWritten(l, Config(l, m), false);
  }

  // ---- The loop in terms of the state machine ------------------------------------------------------

  /** The device after k operations of the copy for the request in s. */
  function CopyState(l: ValidLayout, s: State, k: nat): State
    requires InfoSize(Info(l, s.flash)) <= APPLICATION_SIZE && k <= |InstallOps(l, s.flash)|
  {
    State(ApplyAll(s.flash, InstallOps(l, s.flash)[..k]), Installing(s.flash, k), s.image)
  }

  /** The device after the copy and k operations of the save that follows it. */
  function SaveState(l: ValidLayout, s: State, buffer: Bytes, k: nat): State
    requires InfoSize(Info(l, s.flash)) <= APPLICATION_SIZE
    requires ConfigBuffer(l, buffer) && k <= |ConfigOps(l, buffer)|
  {
    var info := Info(l, s.flash);
    var mid := ApplyAll(s.flash, InstallOps(l, s.flash));
    State(ApplyAll(mid, ConfigOps(l, buffer)[..k]), Saving(ClearRequest, mid, buffer, k),
          Image(Load(mid, Ota.Start(), InfoSize(info)), Some(InfoCrc(info))))
  }

  /** The states the device goes through while the boot loader carries out the request in s. */
  function BootStates(l: ValidLayout, s: State, buffer: Bytes): (states: seq<State>)
    requires InfoSize(Info(l, s.flash)) <= APPLICATION_SIZE && ConfigBuffer(l, buffer)
    ensures |states| == |InstallOps(l, s.flash)| + |ConfigOps(l, buffer)| + 4
  {
    var n, m := |InstallOps(l, s.flash)|, |ConfigOps(l, buffer)|;
    [s]
    + seq(n + 1, k requires 0 <= k <= n => CopyState(l, s, k))
    + seq(m + 1, k requires 0 <= k <= m => SaveState(l, s, buffer, k))
    + [SaveState(l, s, buffer, m).(phase := Running)]
  }

  lemma CopyStatesStep(l: ValidLayout, s: State, k: nat)
    requires InfoSize(Info(l, s.flash)) <= APPLICATION_SIZE && k < |InstallOps(l, s.flash)|
    ensures QuietNext(l, CopyState(l, s, k), CopyState(l, s, k + 1))
  {
    ApplyNext(s.flash, InstallOps(l, s.flash), k);
  }

  lemma CopyStatesEnd(l: ValidLayout, s: State, buffer: Bytes)
    requires InfoSize(Info(l, s.flash)) <= APPLICATION_SIZE && ConfigBuffer(l, buffer)
    requires buffer[..l.size] == WithStatus(l, Config(l, s.flash), false)
    ensures QuietNext(l, CopyState(l, s, |InstallOps(l, s.flash)|), SaveState(l, s, buffer, 0))
  {
    assert InstallOps(l, s.flash)[..|InstallOps(l, s.flash)|] == InstallOps(l, s.flash);
    assert ConfigOps(l, buffer)[..0] == [];
  }

  lemma SaveStatesStep(l: ValidLayout, s: State, buffer: Bytes, k: nat)
    requires InfoSize(Info(l, s.flash)) <= APPLICATION_SIZE
    requires ConfigBuffer(l, buffer) && k < |ConfigOps(l, buffer)|
    ensures QuietNext(l, SaveState(l, s, buffer, k), SaveState(l, s, buffer, k + 1))
  {
    ApplyNext(ApplyAll(s.flash, InstallOps(l, s.flash)), ConfigOps(l, buffer), k);
  }

  ghost predicate Visits(states: seq<State>, flash: Memory) {
    exists i :: 0 <= i < |states| && states[i].flash == flash
  }

  /** The boot loader's work is a run of the state machine from the state it finds to the jump, which passes
      through the flash of every prefix of its operations: every power cut inside it is one of that run. */
  lemma BootIsRun(l: ValidLayout, s: State, behind: Bytes, k: nat)
    requires s.phase.Off? && Enabled(l, s.flash) && InfoSize(Info(l, s.flash)) <= APPLICATION_SIZE
    requires |behind| >= PAGE_SIZE && k <= |BootOps(l, s.flash, behind)|
    ensures
      var buffer := ClearedBuffer(l, s.flash, behind);
      && ConfigBuffer(l, buffer)
      && var states, ops := BootStates(l, s, buffer), BootOps(l, s.flash, behind);
         && QuietRun(l, states) && states[0] == s && states[|states| - 1].phase.Running?
         && Visits(states, ApplyAll(s.flash, ops[..k]))
  {
    BufferFits(l, s.flash, behind);
    BootStatesRun(l, s, ClearedBuffer(l, s.flash, behind));
    BootStatesFlash(l, s, behind, k);
  }

  lemma BootStatesRun(l: ValidLayout, s: State, buffer: Bytes)
    requires s.phase.Off? && Enabled(l, s.flash) && InfoSize(Info(l, s.flash)) <= APPLICATION_SIZE
    requires ConfigBuffer(l, buffer) && buffer[..l.size] == WithStatus(l, Config(l, s.flash), false)
    ensures
      var states := BootStates(l, s, buffer);
      QuietRun(l, states) && states[0] == s && states[|states| - 1].phase.Running?
  {
    var states := BootStates(l, s, buffer);
    forall i | 0 <= i < |states| - 1
      ensures QuietNext(l, states[i], states[i + 1])
    {
      BootStatesStep(l, s, buffer, i);
    }
  }

  lemma CopyStateAt(l: ValidLayout, s: State, buffer: Bytes, k: nat)
    requires InfoSize(Info(l, s.flash)) <= APPLICATION_SIZE && ConfigBuffer(l, buffer)
    requires k <= |InstallOps(l, s.flash)|
    ensures BootStates(l, s, buffer)[k + 1] == CopyState(l, s, k)
  {}

  lemma SaveStateAt(l: ValidLayout, s: State, buffer: Bytes, k: nat)
    requires InfoSize(Info(l, s.flash)) <= APPLICATION_SIZE && ConfigBuffer(l, buffer)
    requires k <= |ConfigOps(l, buffer)|
    ensures BootStates(l, s, buffer)[|InstallOps(l, s.flash)| + 2 + k] == SaveState(l, s, buffer, k)
  {}

  lemma BootStarts(l: ValidLayout, s: State, buffer: Bytes)
    requires InfoSize(Info(l, s.flash)) <= APPLICATION_SIZE && ConfigBuffer(l, buffer)
    ensures BootStates(l, s, buffer)[0] == s
  {}

  lemma BootStatesStep(l: ValidLayout, s: State, buffer: Bytes, i: nat)
    requires s.phase.Off? && Enabled(l, s.flash) && InfoSize(Info(l, s.flash)) <= APPLICATION_SIZE
    requires ConfigBuffer(l, buffer) && buffer[..l.size] == WithStatus(l, Config(l, s.flash), false)
    requires i < |BootStates(l, s, buffer)| - 1
    ensures QuietNext(l, BootStates(l, s, buffer)[i], BootStates(l, s, buffer)[i + 1])
  {
    hide QuietNext, CopyState, SaveState, ConfigOps, WithStatus, Enabled;
    var n := |InstallOps(l, s.flash)|;
    if i == 0 {
      BootStarts(l, s, buffer);
      CopyStatesStart(l, s);
      CopyStateAt(l, s, buffer, 0);
    } else if i < n + 1 {
      CopyStatesStep(l, s, i - 1);
      CopyStateAt(l, s, buffer, i - 1);
      CopyStateAt(l, s, buffer, i);
    } else if i == n + 1 {
      CopyStatesEnd(l, s, buffer);
      CopyStateAt(l, s, buffer, n);
      SaveStateAt(l, s, buffer, 0);
    } else {
      SavePartStep(l, s, buffer, i - n - 2);
    }
  }

  lemma SavePartStep(l: ValidLayout, s: State, buffer: Bytes, k: nat)
    requires InfoSize(Info(l, s.flash)) <= APPLICATION_SIZE
    requires ConfigBuffer(l, buffer) && k <= |ConfigOps(l, buffer)|
    ensures
      var i := |InstallOps(l, s.flash)| + 2 + k;
      QuietNext(l, BootStates(l, s, buffer)[i], BootStates(l, s, buffer)[i + 1])
  {
    SaveStateAt(l, s, buffer, k);
    if k < |ConfigOps(l, buffer)| {
      SaveStatesStep(l, s, buffer, k);
      SaveStateAt(l, s, buffer, k + 1);
    } else {
      SaveStatesEnd(l, s, buffer);
    }
  }

  lemma CopyStatesStart(l: ValidLayout, s: State)
    requires s.phase.Off? && Enabled(l, s.flash) && InfoSize(Info(l, s.flash)) <= APPLICATION_SIZE
    ensures QuietNext(l, s, CopyState(l, s, 0))
  {
    assert InstallOps(l, s.flash)[..0] == [];
    assert BootFindsRequest(l, s, CopyState(l, s, 0));
  }

  lemma SaveStatesEnd(l: ValidLayout, s: State, buffer: Bytes)
    requires InfoSize(Info(l, s.flash)) <= APPLICATION_SIZE && ConfigBuffer(l, buffer)
    ensures
      var last := SaveState(l, s, buffer, |ConfigOps(l, buffer)|);
      QuietNext(l, last, last.(phase := Running))
  {
    var last := SaveState(l, s, buffer, |ConfigOps(l, buffer)|);
    assert SaveDone(l, last, last.(phase := Running));
  }

  lemma BootStatesFlash(l: ValidLayout, s: State, behind: Bytes, k: nat)
    requires InfoSize(Info(l, s.flash)) <= APPLICATION_SIZE && |behind| >= PAGE_SIZE
    requires ConfigBuffer(l, ClearedBuffer(l, s.flash, behind)) && k <= |BootOps(l, s.flash, behind)|
    ensures Visits(BootStates(l, s, ClearedBuffer(l, s.flash, behind)),
                   ApplyAll(s.flash, BootOps(l, s.flash, behind)[..k]))
  {
    var buffer := ClearedBuffer(l, s.flash, behind);
    var copy, save := InstallOps(l, s.flash), ConfigOps(l, buffer);
    PrefixFlash(s.flash, copy, save, k);
    if k <= |copy| {
      CopyStateAt(l, s, buffer, k);
    } else {
      SaveStateAt(l, s, buffer, k - |copy|);
    }
  }

  lemma PrefixFlash(m: Memory, a: seq<FlashOp>, b: seq<FlashOp>, k: nat)
    requires k <= |a| + |b|
    ensures ApplyAll(m, (a + b)[..k]) ==
            if k <= |a| then ApplyAll(m, a[..k]) else ApplyAll(ApplyAll(m, a), b[..k - |a|])
  {
    if k <= |a| {
      assert (a + b)[..k] == a[..k];
    } else {
      assert (a + b)[..k] == a + b[..k - |a|];
      ApplyAllAppend(m, a, b[..k - |a|]);
    }
  }
}
