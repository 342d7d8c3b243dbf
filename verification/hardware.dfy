/**
 * Hardware facts (src/hardware.cpp): drive classification, first-CPU
 * selection, architecture, total RAM and the JSON object. The device lists
 * and the platform queries are inputs.
 */
module Hardware {
  import opened Wrappers
  import opened Json

  /** Solid::StorageDrive::DriveType. */
  datatype DriveType = HardDisk | CdromDrive | Floppy | Tape | CompactFlash | MemoryStick | SmartMedia | SdMmc | Xd

  /**
   * One device of the StorageDrive listing: whether it really exposes the
   * StorageDrive interface, its drive type, and its RotationRate property
   * (0 for non-rotational media, -1 for rotational with unknown rate).
   */
  datatype Device = Device(isStorageDrive: bool, driveType: DriveType, rotationRate: int)

  /** One Solid processor: product, vendor and maximum speed in MHz. */
  datatype Cpu = Cpu(product: string, vendor: string, maxSpeed: int)

  datatype DriveFlags = DriveFlags(hasHdd: bool, hasSsd: bool)

  datatype Hardware = Hardware(cpus: seq<Cpu>, drives: DriveFlags)

  /** sysinfo(2) fields used by totalRam: an unsigned long and an unsigned int. */
  datatype SysInfo = SysInfo(totalram: nat, memUnit: nat)

  /** The environment queries hardware.cpp makes besides Solid. */
  datatype Platform = Platform(
    chassis: string,          // hostname1 Chassis property, empty when unavailable
    machine: string,          // uname machine, empty when uname failed
    pointerSize: nat,         // QT_POINTER_SIZE
    onLinux: bool,            // built with Q_OS_LINUX
    sysinfo: Option<SysInfo>, // None when sysinfo(2) failed
    screenDpi: real,
    screenResolution: string, // already formatted "WxH"
    screenSize: string)       // already formatted "WxH", millimetres

  /** The only devices analyzeDrives looks at. */
  predicate IsHardDisk(d: Device) {
    d.isStorageDrive && d.driveType == HardDisk
  }

  predicate IsSsd(d: Device) {
    IsHardDisk(d) && d.rotationRate == 0
  }

  predicate IsHdd(d: Device) {
    IsHardDisk(d) && d.rotationRate != 0
  }

  /**
   * The analyzeDrives loop from the flags `acc` over `devices` in order: a
   * hard disk with rate 0 sets hasSsd, any other rate sets hasHdd, and
   * nothing ever clears a flag.
   */
  function Scan(acc: DriveFlags, devices: seq<Device>): (r: DriveFlags)
    ensures r.hasSsd <==> acc.hasSsd || exists i :: 0 <= i < |devices| && IsSsd(devices[i])
    ensures r.hasHdd <==> acc.hasHdd || exists i :: 0 <= i < |devices| && IsHdd(devices[i])
    decreases |devices|
  {
    if |devices| == 0 then acc
    else
      var d := devices[0];
      var next :=
        if !IsHardDisk(d) then acc
        else if d.rotationRate == 0 then acc.(hasSsd := true)
        else acc.(hasHdd := true);
      assert forall i :: 1 <= i < |devices| ==> devices[i] == devices[1..][i - 1];
      Scan(next, devices[1..])
  }

  /** Hardware::Hardware: both flags start false, then analyzeDrives. */
  function Load(cpus: seq<Cpu>, devices: seq<Device>): (h: Hardware)
    ensures h.cpus == cpus
    ensures h.drives.hasSsd <==> exists i :: 0 <= i < |devices| && IsSsd(devices[i])
    ensures h.drives.hasHdd <==> exists i :: 0 <= i < |devices| && IsHdd(devices[i])
  {
    Hardware(cpus, Scan(DriveFlags(false, false), devices))
  }

  /** Only hard disks matter: removing every other device changes no flag. */
  lemma {:induction false} OnlyHardDisksCount(devices: seq<Device>, d: Device)
    requires !IsHardDisk(d)
    ensures Load([], devices + [d]).drives == Load([], devices).drives
  {
    var longer := devices + [d];
    assert forall i :: 0 <= i < |devices| ==> longer[i] == devices[i];
    assert !IsSsd(longer[|devices|]) && !IsHdd(longer[|devices|]);
  }

  /** The flags do not depend on the order in which Solid lists the drives. */
  lemma OrderIrrelevant(a: seq<Device>, b: seq<Device>)
    requires multiset(a) == multiset(b)
    ensures Load([], a).drives == Load([], b).drives
  {
    forall d | d in a ensures d in b {
      assert d in multiset(a);
    }
    forall d | d in b ensures d in a {
      assert d in multiset(b);
    }
    if Load([], a).drives.hasSsd {
      var i :| 0 <= i < |a| && IsSsd(a[i]);
      assert a[i] in b;
    }
    if Load([], b).drives.hasSsd {
      var i :| 0 <= i < |b| && IsSsd(b[i]);
      assert b[i] in a;
    }
    if Load([], a).drives.hasHdd {
      var i :| 0 <= i < |a| && IsHdd(a[i]);
      assert a[i] in b;
    }
    if Load([], b).drives.hasHdd {
      var i :| 0 <= i < |b| && IsHdd(b[i]);
      assert b[i] in a;
    }
  }

  function NumCpus(h: Hardware): int {
    |h.cpus|
  }

  function CpuModel(h: Hardware): string {
    if |h.cpus| > 0 then h.cpus[0].product else ""
  }

  function CpuVendor(h: Hardware): string {
    if |h.cpus| > 0 then h.cpus[0].vendor else ""
  }

  function CpuSpeed(h: Hardware): int {
    if |h.cpus| > 0 then h.cpus[0].maxSpeed else 0
  }

  /**
   * The CPU accessors read the first processor only, whatever follows it;
   * with no processor they give empty strings and speed 0.
   */
  lemma FirstCpuSelection(c: Cpu, rest: seq<Cpu>, flags: DriveFlags)
    ensures NumCpus(Hardware([c] + rest, flags)) == 1 + |rest|
    ensures CpuModel(Hardware([c] + rest, flags)) == c.product
    ensures CpuVendor(Hardware([c] + rest, flags)) == c.vendor
    ensures CpuSpeed(Hardware([c] + rest, flags)) == c.maxSpeed
    ensures NumCpus(Hardware([], flags)) == 0
    ensures CpuModel(Hardware([], flags)) == "" && CpuVendor(Hardware([], flags)) == ""
    ensures CpuSpeed(Hardware([], flags)) == 0
  {
  }

  /** architecture(): 64 exactly for 8-byte pointers, 32 for every other size. */
  function Architecture(pointerSize: nat): (bits: int)
    ensures bits == 32 || bits == 64
    ensures bits == 64 <==> pointerSize == 8
  {
    if pointerSize == 8 then 64 else 32
  }

  const ULONG_MOD: int := 0x1_0000_0000_0000_0000
  const LLONG_MIN: int := -0x8000_0000_0000_0000
  const LLONG_MAX: int := 0x7FFF_FFFF_FFFF_FFFF

  /**
   * totalRam(): -1 unless built for Linux and sysinfo succeeds; then
   * totalram * mem_unit, computed in 64-bit unsigned arithmetic and stored
   * in a signed 64-bit qlonglong.
   */
  function TotalRam(onLinux: bool, info: Option<SysInfo>): (ram: int)
    ensures LLONG_MIN <= ram <= LLONG_MAX
    ensures !onLinux || info.None? ==> ram == -1
    ensures onLinux && info.Some? && info.value.totalram * info.value.memUnit <= LLONG_MAX
            ==> ram == info.value.totalram * info.value.memUnit
  {
    if onLinux && info.Some? then
      var product := (info.value.totalram * info.value.memUnit) % ULONG_MOD;
      if product <= LLONG_MAX then product else product - ULONG_MOD
    else -1
  }

  const JsonKeys: set<string> := {
    "chassis", "machine", "numCpus", "cpuModel", "cpuVendor", "cpuSpeed", "architecture",
    "totalRam", "hdd", "ssd", "screenDpi", "screenResolution", "screenSize"}

  /** Hardware::toJson: exactly these thirteen keys. */
  function ToJson(h: Hardware, p: Platform): (j: Json)
    ensures j.JObject? && j.Keys() == JsonKeys
    ensures j.fields["hdd"] == JBool(h.drives.hasHdd) && j.fields["ssd"] == JBool(h.drives.hasSsd)
    ensures j.fields["numCpus"] == JInt(|h.cpus|)
  {
    JObject(map[
      "chassis" := JString(p.chassis),
      "machine" := JString(p.machine),
      "numCpus" := JInt(NumCpus(h)),
      "cpuModel" := JString(CpuModel(h)),
      "cpuVendor" := JString(CpuVendor(h)),
      "cpuSpeed" := JInt(CpuSpeed(h)),
      "architecture" := JInt(Architecture(p.pointerSize)),
      "totalRam" := JInt(TotalRam(p.onLinux, p.sysinfo)),
      "hdd" := JBool(h.drives.hasHdd),
      "ssd" := JBool(h.drives.hasSsd),
      "screenDpi" := JReal(p.screenDpi),
      "screenResolution" := JString(p.screenResolution),
      "screenSize" := JString(p.screenSize)])
  }
}
