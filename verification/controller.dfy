/**
 * The pre-boot configuration part of `VmmController`: the machine
 * configuration validator, the vsock setter, the post-boot guard, the start
 * flag, and the conversion of the configured memory size to bytes.
 *
 * Only the controller's configuration state is modelled; devices, epoll,
 * the kernel, the logger and guest memory itself are not (guest memory is
 * represented by its size in bytes).
 */
module Controller {
  import opened Common

  /** The CPU templates a machine configuration may name. */
  datatype CpuTemplate = C3 | T2

  /**
   * `VmConfig`: every field is optional, both in a request and in the
   * stored configuration. `vcpu_count` is a `u8`, `mem_size_mib` a `usize`
   * (64 bits wide here).
   */
  datatype VmConfig = VmConfig(
    vcpuCount: Option<byte>,
    memSizeMib: Option<u64>,
    htEnabled: Option<bool>,
    cpuTemplate: Option<CpuTemplate>)

  /** An assumed stored configuration before any request: one vCPU, 128 MiB, no hyperthreading, no template. */
  const DEFAULT_VM_CONFIG: VmConfig := VmConfig(Some(1), Some(128), Some(false), None)

  datatype VsockDeviceConfig = VsockDeviceConfig(vsockId: string, guestCid: nat, udsPath: string)

  /** The controller's configuration state. */
  datatype Controller = Controller(
    vmConfig: VmConfig,
    vsock: Option<VsockDeviceConfig>,
    guestMemoryBytes: Option<u64>,
    instanceInitialized: bool)

  datatype VmConfigError = UpdateNotAllowedPostBoot | InvalidVcpuCount | InvalidMemorySize

  datatype ActionError =
    | MachineConfig(e: VmConfigError)
    | VsockUpdateNotAllowedPostBoot
    | GuestMemoryNotInitialized

  /** A call's effect: the state afterwards, and `Ok(())` (`None`) or the error. */
  datatype Outcome = Outcome(state: Controller, err: Option<ActionError>)

  /**
   * `is_instance_initialized`: a stub that always answers `false`, whatever
   * the `instance_initialized` flag says.
   */
  function IsInstanceInitialized(c: Controller): (r: bool)
    ensures !r
  {
    false
  }

  /** `start_microvm`: sets the flag and nothing else. */
  function StartMicrovm(c: Controller): (r: Controller)
    ensures r.instanceInitialized
    ensures r.vmConfig == c.vmConfig && r.vsock == c.vsock && r.guestMemoryBytes == c.guestMemoryBytes
  {
    c.(instanceInitialized := true)
  }

  /**
   * The values the two `unwrap_or_else(|| ...unwrap())` calls read: they
   * panic when the request omits a field the stored configuration lacks.
   */
  predicate CanUnwrap(c: Controller, mc: VmConfig) {
    (mc.htEnabled.Some? || c.vmConfig.htEnabled.Some?) && (mc.vcpuCount.Some? || c.vmConfig.vcpuCount.Some?)
  }

  /** What the request asks for, filled in from the stored configuration. */
  function EffectiveHt(c: Controller, mc: VmConfig): bool
    requires CanUnwrap(c, mc)
  {
    if mc.htEnabled.Some? then mc.htEnabled.value else c.vmConfig.htEnabled.value
  }

  function EffectiveVcpus(c: Controller, mc: VmConfig): byte
    requires CanUnwrap(c, mc)
  {
    if mc.vcpuCount.Some? then mc.vcpuCount.value else c.vmConfig.vcpuCount.value
  }

  /** With hyperthreading the vCPU count must be 1 or even. */
  predicate HtCompatible(ht: bool, vcpus: nat) {
    !ht || vcpus <= 1 || vcpus % 2 == 0
  }

  /** The request is rejected before any unwrap: a zero vCPU count or a zero memory size. */
  predicate RejectedEarly(mc: VmConfig) {
    mc.vcpuCount == Some(0) || mc.memSizeMib == Some(0)
  }

  /** `set_vm_configuration`. */
  function SetVmConfiguration(c: Controller, mc: VmConfig): (r: Outcome)
    requires RejectedEarly(mc) || CanUnwrap(c, mc)
    ensures r.err != Some(MachineConfig(UpdateNotAllowedPostBoot))
    ensures r.err == Some(MachineConfig(InvalidMemorySize)) <==> mc.vcpuCount != Some(0) && mc.memSizeMib == Some(0)
    ensures r.err == Some(MachineConfig(InvalidVcpuCount)) <==>
      mc.vcpuCount == Some(0) ||
      (!RejectedEarly(mc) && !HtCompatible(EffectiveHt(c, mc), EffectiveVcpus(c, mc)))
    ensures r.err.Some? ==> r.state == c
    ensures r.err.None? ==>
      r.state.vsock == c.vsock && r.state.guestMemoryBytes == c.guestMemoryBytes &&
      r.state.instanceInitialized == c.instanceInitialized
    ensures r.err.None? ==>
      r.state.vmConfig.vcpuCount == Some(EffectiveVcpus(c, mc)) && r.state.vmConfig.htEnabled == Some(EffectiveHt(c, mc))
    ensures r.err.None? ==>
      r.state.vmConfig.memSizeMib == (if mc.memSizeMib.Some? then mc.memSizeMib else c.vmConfig.memSizeMib) &&
      r.state.vmConfig.cpuTemplate == (if mc.cpuTemplate.Some? then mc.cpuTemplate else c.vmConfig.cpuTemplate)
  {
    if IsInstanceInitialized(c) then Outcome(c, Some(MachineConfig(UpdateNotAllowedPostBoot)))
    else if mc.vcpuCount == Some(0) then Outcome(c, Some(MachineConfig(InvalidVcpuCount)))
    else if mc.memSizeMib == Some(0) then Outcome(c, Some(MachineConfig(InvalidMemorySize)))
    else
      var ht := if mc.htEnabled.Some? then mc.htEnabled.value else c.vmConfig.htEnabled.value;
      var vcpus := if mc.vcpuCount.Some? then mc.vcpuCount.value else c.vmConfig.vcpuCount.value;
      if ht && vcpus > 1 && vcpus % 2 == 1 then Outcome(c, Some(MachineConfig(InvalidVcpuCount)))
      else
        var cfg := c.vmConfig.(vcpuCount := Some(vcpus), htEnabled := Some(ht));
        var cfg := if mc.memSizeMib.Some? then cfg.(memSizeMib := mc.memSizeMib) else cfg;
        var cfg := if mc.cpuTemplate.Some? then cfg.(cpuTemplate := mc.cpuTemplate) else cfg;
        Outcome(c.(vmConfig := cfg), None)
  }

  /**
   * A stored configuration the validator would accept as a whole: a
   * nonzero vCPU count compatible with hyperthreading, and a nonzero memory
   * size if any.
   */
  predicate ValidVmConfig(cfg: VmConfig) {
    cfg.vcpuCount.Some? && cfg.vcpuCount.value > 0 && cfg.htEnabled.Some? &&
    HtCompatible(cfg.htEnabled.value, cfg.vcpuCount.value) &&
    (cfg.memSizeMib.Some? ==> cfg.memSizeMib.value > 0)
  }

  lemma DefaultIsValid()
    ensures ValidVmConfig(DEFAULT_VM_CONFIG)
  {
  }

  /** Every request against a valid configuration leaves a valid configuration, accepted or not. */
  lemma SetVmConfigurationPreservesValidity(c: Controller, mc: VmConfig)
    requires ValidVmConfig(c.vmConfig)
    ensures CanUnwrap(c, mc)
    ensures ValidVmConfig(SetVmConfiguration(c, mc).state.vmConfig)
  {
    var r := SetVmConfiguration(c, mc);
    if r.err.None? {
      assert !RejectedEarly(mc);
      assert HtCompatible(EffectiveHt(c, mc), EffectiveVcpus(c, mc));
    }
  }

  /**
   * Submitting a stored valid configuration as a request changes nothing,
   * and so does repeating an accepted request.
   */
  lemma SetVmConfigurationIdempotent(c: Controller, mc: VmConfig)
    requires ValidVmConfig(c.vmConfig)
    ensures SetVmConfiguration(c, c.vmConfig) == Outcome(c, None)
    ensures SetVmConfiguration(c, mc).err.None? ==>
      SetVmConfiguration(SetVmConfiguration(c, mc).state, mc) == SetVmConfiguration(c, mc)
  {
    var r := SetVmConfiguration(c, c.vmConfig);
    assert r.state.vmConfig == c.vmConfig;
    var s := SetVmConfiguration(c, mc);
    if s.err.None? {
      SetVmConfigurationPreservesValidity(c, mc);
      var t := SetVmConfiguration(s.state, mc);
      assert t.state.vmConfig == s.state.vmConfig;
    }
  }

  /** `set_vsock_device`: the configuration replaces any earlier one, and the call never fails. */
  function SetVsockDevice(c: Controller, config: VsockDeviceConfig): (r: Outcome)
    ensures r.err.None? && r.state.vsock == Some(config)
    ensures r.state.vmConfig == c.vmConfig && r.state.guestMemoryBytes == c.guestMemoryBytes
    ensures r.state.instanceInitialized == c.instanceInitialized
  {
    if IsInstanceInitialized(c) then Outcome(c, Some(VsockUpdateNotAllowedPostBoot))
    else Outcome(c.(vsock := Some(config)), None)
  }

  /** The last vsock configuration set wins. */
  lemma LastVsockWins(c: Controller, a: VsockDeviceConfig, b: VsockDeviceConfig)
    ensures SetVsockDevice(SetVsockDevice(c, a).state, b) == SetVsockDevice(c, b)
  {
  }

  /**
   * The post-boot guards never fire: after `start_microvm` a configuration
   * call behaves exactly as before it, apart from the start flag.
   */
  lemma GuardsIgnoreStart(c: Controller, mc: VmConfig, config: VsockDeviceConfig)
    requires RejectedEarly(mc) || CanUnwrap(c, mc)
    ensures StartMicrovm(c).instanceInitialized && !IsInstanceInitialized(StartMicrovm(c))
    ensures SetVmConfiguration(StartMicrovm(c), mc).err == SetVmConfiguration(c, mc).err
    ensures SetVmConfiguration(StartMicrovm(c), mc).state.vmConfig == SetVmConfiguration(c, mc).state.vmConfig
    ensures SetVsockDevice(StartMicrovm(c), config).err.None?
  {
    var s := StartMicrovm(c);
    assert s.vmConfig == c.vmConfig;
  }

  // ---------------------------------------------------------------------
  // Guest memory size.
  // ---------------------------------------------------------------------

  /** The bytes in one MiB: `<< 20`. */
  const MIB: nat := 0x10_0000

  /** The largest MiB count whose byte size fits a `usize`, plus one. */
  const MAX_MIB: nat := 0x1000_0000_0000

  /**
   * `mem_size_mib << 20` on a 64-bit `usize`: the bits shifted out are lost
   * (a shift checks only its shift amount, not the value).
   */
  function MemBytes(mib: u64): (r: u64)
    ensures r % MIB == 0
    ensures r == (mib % MAX_MIB) * MIB
  {
    ShiftWraps(mib);
    (mib * MIB) % TWO_TO_THE_64
  }

  lemma ShiftWraps(mib: u64)
    ensures (mib * MIB) % TWO_TO_THE_64 == (mib % MAX_MIB) * MIB
  {
    var q, m := mib / MAX_MIB, mib % MAX_MIB;
    assert mib == q * MAX_MIB + m;
    assert mib * MIB == q * TWO_TO_THE_64 + m * MIB;
    assert m * MIB < TWO_TO_THE_64;
  }

  /** A size below 2^44 MiB converts exactly, and converts back by `>> 20`. */
  lemma MemBytesExact(mib: u64)
    requires mib < MAX_MIB
    ensures MemBytes(mib) == mib * MIB
    ensures MemBytes(mib) / MIB == mib
  {
  }

  /** 2^44 MiB is 2^64 bytes: the conversion silently gives zero. */
  lemma MemBytesWrapsAtLimit()
    ensures MemBytes(MAX_MIB) == 0
  {
  }

  /**
   * `init_guest_memory`: memory already set up is kept; otherwise the
   * configured size is converted to bytes, and a missing size is an error.
   */
  function InitGuestMemory(c: Controller): (r: Outcome)
    ensures c.guestMemoryBytes.Some? ==> r == Outcome(c, None)
    ensures c.guestMemoryBytes.None? && c.vmConfig.memSizeMib.None? ==> r == Outcome(c, Some(GuestMemoryNotInitialized))
    ensures c.guestMemoryBytes.None? && c.vmConfig.memSizeMib.Some? ==>
      r.err.None? && r.state == c.(guestMemoryBytes := Some(MemBytes(c.vmConfig.memSizeMib.value)))
  {
    if c.guestMemoryBytes.Some? then Outcome(c, None)
    else
      match c.vmConfig.memSizeMib
      case None => Outcome(c, Some(GuestMemoryNotInitialized))
      case Some(mib) => Outcome(c.(guestMemoryBytes := Some(MemBytes(mib))), None)
  }

  /** Initialising guest memory twice is the same as once. */
  lemma InitGuestMemoryIdempotent(c: Controller)
    ensures InitGuestMemory(InitGuestMemory(c).state).state == InitGuestMemory(c).state
  {
  }

  /** After a valid configuration is accepted, guest memory of the configured size can be set up. */
  lemma ConfiguredMemoryInitialises(c: Controller, mib: u64)
    requires ValidVmConfig(c.vmConfig) && c.guestMemoryBytes.None? && 0 < mib < MAX_MIB
    ensures SetVmConfiguration(c, VmConfig(None, Some(mib), None, None)).err.None?
    ensures InitGuestMemory(SetVmConfiguration(c, VmConfig(None, Some(mib), None, None)).state).state.guestMemoryBytes
      == Some(mib * MIB)
  {
    MemBytesExact(mib);
  }
}
