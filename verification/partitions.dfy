/** The boot/root assignment of `setup_partitions`, read off the block
    device list of `lsblk --json`. Sizes there are human-readable strings
    ("2G", "463.8G") and the source compares them with Python's string `>`,
    so the model does too. The loop looks at every device, not only the
    disk just partitioned, and the last device with children wins. */
module Partitions {
  import opened Results
  import opened Strings

  /** One entry of a device's `children` list. */
  datatype Partition = Partition(name: string, size: string)

  /** One entry of `blockdevices`; `children` is `None` when the key is absent. */
  datatype BlockDevice = BlockDevice(name: string, children: Option<seq<Partition>>)

  /** The two device paths the rest of the installation formats and mounts. */
  datatype Roles = Roles(boot: string, root: string)

  function DevPath(p: Partition): string {
    "/dev/" + p.name
  }

  /** Which of the first two children becomes boot: the first only when its
      size string compares strictly greater, the second otherwise (ties
      included). So the larger child, as strings order, is boot. */
  function BootIndex(ps: seq<Partition>): (b: nat)
    requires |ps| >= 2
    ensures b == 0 || b == 1
    ensures !LexLess(ps[b].size, ps[1 - b].size)
    ensures ps[0].size == ps[1].size ==> b == 1
  {
    LexLessAsymmetric(ps[0].size, ps[1].size);
    LexLessIrreflexive(ps[0].size);
    if LexLess(ps[1].size, ps[0].size) then 0 else 1
  }

  /** The roles one device's children receive: boot is a child whose size
      does not compare smaller than the other's, root is the other one, and
      equal sizes make the second child boot. */
  function RolesFor(ps: seq<Partition>): (r: Roles)
    requires |ps| >= 2
    ensures exists b :: 0 <= b < 2 && r.boot == DevPath(ps[b]) && r.root == DevPath(ps[1 - b])
                        && !LexLess(ps[b].size, ps[1 - b].size)
    ensures ps[0].size == ps[1].size ==> r == Roles(DevPath(ps[1]), DevPath(ps[0]))
  {
    var b := BootIndex(ps);
    Roles(DevPath(ps[b]), DevPath(ps[1 - b]))
  }

  predicate HasChildren(d: BlockDevice) {
    d.children.Some?
  }

  /** A device whose `partitions[1]` lookup raises IndexError. */
  predicate TooFew(d: BlockDevice) {
    d.children.Some? && |d.children.value| < 2
  }

  /** Lines 65-76 of the installer: the boot and root paths, or the error
      that ends `setup_partitions`. */
  method AssignRoles(devices: seq<BlockDevice>) returns (r: Result<Roles>)
    ensures r.Err? && r.error.TooFewPartitions? <==> exists i :: 0 <= i < |devices| && TooFew(devices[i])
    ensures r.Err? && r.error.TooFewPartitions? ==>
              exists i :: 0 <= i < |devices| && TooFew(devices[i]) && devices[i].name == r.error.device
                          && forall j :: 0 <= j < i ==> !TooFew(devices[j])
    ensures r == Err(NoPartitions) <==> forall i :: 0 <= i < |devices| ==> !HasChildren(devices[i])
    ensures r.Err? ==> r.error.TooFewPartitions? || r.error == NoPartitions
    ensures r.Ok? ==> exists i :: 0 <= i < |devices| && HasChildren(devices[i]) && !TooFew(devices[i])
                                  && (forall j :: i < j < |devices| ==> !HasChildren(devices[j]))
                                  && r.value == RolesFor(devices[i].children.value)
  {
    var last: Option<Roles> := None;
    ghost var from: nat := 0;
    var i := 0;
    while i < |devices|
      invariant 0 <= i <= |devices|
      invariant forall j :: 0 <= j < i ==> !TooFew(devices[j])
      invariant last.None? <==> forall j :: 0 <= j < i ==> !HasChildren(devices[j])
      invariant last.Some? ==> from < i && HasChildren(devices[from]) && !TooFew(devices[from])
                               && (forall j :: from < j < i ==> !HasChildren(devices[j]))
                               && last.value == RolesFor(devices[from].children.value)
    {
      if devices[i].children.Some? {
        var ps := devices[i].children.value;
        if |ps| < 2 {
          return Err(TooFewPartitions(devices[i].name));
        }
        last := Some(RolesFor(ps));
        from := i;
      }
      i := i + 1;
    }
    if last.None? {
      r := Err(NoPartitions);
    } else {
      r := Ok(last.value);
    }
  }
}
