/** PCI enumeration (src/core/pci.c): a mutually recursive depth-first scan over a configuration
    space that may contain bridge cycles.  The only thing that stops it is the check whether a
    device is listed already. */
module Pci {
  import opened Wrappers

  const PCI_NUM_FUNCS: nat := 8
  const PCI_NUM_SLOTS: nat := 32
  const PCI_NUM_BUSES: nat := 256
  const PCI_VENDOR: nat := 0x00
  const PCI_SUBCLASS: nat := 0x0A
  const PCI_CLASS: nat := 0x0B
  const PCI_HEADER_TYPE: nat := 0x0E
  const PCI_SECONDARY_BUS: nat := 0x19
  const PCI_INVALID_DEVICE: nat := 0xFFFF_FFFF
  const PCI_CLASS_BRIDGE: nat := 0x06
  const PCI_SUBCLASS_BRIDGE_PCI: nat := 0x04

  datatype Address = Address(bus: nat, slot: nat, func: nat)

  /** A listed device: where it is and the bridge it was found behind. */
  datatype Device = Device(addr: Address, parent: Option<Address>)

  /** The configuration space answers every read; a byte read yields eight bits. */
  datatype Space = Space(long: (Address, nat) -> nat, byte: (Address, nat) -> nat) {
    function ReadByte(a: Address, offset: nat): (v: nat)
      ensures v < 256
    {
      byte(a, offset) % 256
    }

    predicate Absent(a: Address) {
      long(a, PCI_VENDOR) == PCI_INVALID_DEVICE
    }

    predicate Multifunction(a: Address) {
      ReadByte(a, PCI_HEADER_TYPE) / 0x80 == 1
    }

    predicate Bridge(a: Address) {
      ReadByte(a, PCI_CLASS) == PCI_CLASS_BRIDGE && ReadByte(a, PCI_SUBCLASS) == PCI_SUBCLASS_BRIDGE_PCI
    }

    function Secondary(a: Address): nat {
      ReadByte(a, PCI_SECONDARY_BUS)
    }

    /** A scan of its bus finds a: function 0 is there, a is there, and a is function 0 or the
        slot holds a multifunction device. */
    predicate Found(a: Address) {
      var first := Address(a.bus, a.slot, 0);
      && InRange(a) && !Absent(first) && !Absent(a)
      && (a.func == 0 || Multifunction(first))
    }
  }

  predicate InRange(a: Address) {
    a.bus < PCI_NUM_BUSES && a.slot < PCI_NUM_SLOTS && a.func < PCI_NUM_FUNCS
  }

  function Universe(): (s: set<Address>)
    ensures forall a :: a in s <==> InRange(a)
  {
    set bus: nat, slot: nat, func: nat | bus < PCI_NUM_BUSES && slot < PCI_NUM_SLOTS && func < PCI_NUM_FUNCS
      :: Address(bus, slot, func)
  }

  function Listed(devs: seq<Device>): (s: set<Address>)
    ensures forall a :: a in s <==> exists i :: 0 <= i < |devs| && devs[i].addr == a
  {
    set i | 0 <= i < |devs| :: devs[i].addr
  }

  ghost predicate NoDuplicates(devs: seq<Device>) {
    forall i, j :: 0 <= i < j < |devs| ==> devs[i].addr != devs[j].addr
  }

  /** Device i was found on a start bus, or behind a bridge that was listed before it. */
  ghost predicate Grounded(space: Space, starts: set<nat>, devs: seq<Device>, i: nat)
    requires i < |devs|
  {
    && space.Found(devs[i].addr)
    && match devs[i].parent
       case None => devs[i].addr.bus in starts
       case Some(p) =>
         exists j :: i < j < |devs| && devs[j].addr == p && space.Bridge(p) && space.Secondary(p) == devs[i].addr.bus
  }

  ghost predicate AllGrounded(space: Space, starts: set<nat>, devs: seq<Device>) {
    forall i :: 0 <= i < |devs| ==> Grounded(space, starts, devs, i)
  }

  /** Everything a scan of the bus finds is in S. */
  ghost predicate Scanned(space: Space, S: set<Address>, bus: nat) {
    forall a: Address :: a.bus == bus && space.Found(a) ==> a in S
  }

  /** The functions below `func` that a scan of the slot finds are in S. */
  ghost predicate SlotScanned(space: Space, S: set<Address>, bus: nat, slot: nat, func: nat) {
    forall a: Address :: a.bus == bus && a.slot == slot && a.func < func && space.Found(a) ==> a in S
  }

  /** So are the slots below `slot`. */
  ghost predicate SlotsScanned(space: Space, S: set<Address>, bus: nat, slot: nat) {
    forall a: Address :: a.bus == bus && a.slot < slot && space.Found(a) ==> a in S
  }

  ghost predicate BusesScanned(space: Space, S: set<Address>, bus: nat) {
    forall a: Address :: a.bus < bus && space.Found(a) ==> a in S
  }

  lemma NextFunc(space: Space, S: set<Address>, T: set<Address>, bus: nat, slot: nat, func: nat)
    requires SlotScanned(space, S, bus, slot, func) && S <= T
    requires space.Found(Address(bus, slot, func)) ==> Address(bus, slot, func) in T
    ensures SlotScanned(space, T, bus, slot, func + 1)
  {
  }

  lemma NextSlot(space: Space, S: set<Address>, T: set<Address>, bus: nat, slot: nat)
    requires SlotsScanned(space, S, bus, slot) && S <= T && SlotScanned(space, T, bus, slot, PCI_NUM_FUNCS)
    ensures SlotsScanned(space, T, bus, slot + 1)
  {
  }

  function BusesBelow(n: nat): (s: set<nat>)
    ensures forall b: nat :: b in s <==> b < n
  {
    if n == 0 then {} else BusesBelow(n - 1) + {n - 1}
  }

  /** S is closed under scanning the start buses and the bus behind every bridge in S. */
  ghost predicate Closed(space: Space, starts: set<nat>, S: set<Address>) {
    && (forall b :: b in starts ==> Scanned(space, S, b))
    && (forall a :: a in S && space.Bridge(a) ==> Scanned(space, S, space.Secondary(a)))
  }

  /** Grounded devices lie in every closed set. */
  lemma {:induction false} GroundedInClosed(space: Space, starts: set<nat>, devs: seq<Device>, S: set<Address>, i: nat)
    requires AllGrounded(space, starts, devs) && Closed(space, starts, S) && i < |devs|
    ensures devs[i].addr in S
    decreases |devs| - i
  {
    assert Grounded(space, starts, devs, i);
    if devs[i].parent.Some? {
      var j :| i < j < |devs| && devs[j].addr == devs[i].parent.value
        && space.Bridge(devs[i].parent.value) && space.Secondary(devs[i].parent.value) == devs[i].addr.bus;
      GroundedInClosed(space, starts, devs, S, j);
    }
  }

  /** A device that a scan would list is not listed. */
  ghost predicate Missed(space: Space, starts: set<nat>, devs: seq<Device>) {
    exists d: Device :: space.Found(d.addr) && d.addr !in Listed(devs)
      && match d.parent
         case None => d.addr.bus in starts
         case Some(p) => p in Listed(devs) && space.Bridge(p) && space.Secondary(p) == d.addr.bus
  }

  lemma {:induction false} ListedCount(devs: seq<Device>)
    requires NoDuplicates(devs)
    ensures |Listed(devs)| == |devs|
  {
    if devs != [] {
      ListedMore(devs[1..], devs[0]);
      assert devs == [devs[0]] + devs[1..];
      ListedCount(devs[1..]);
      assert forall i :: 0 <= i < |devs[1..]| ==> devs[1..][i] == devs[i + 1];
    }
  }

  /** So every closed set has more addresses than the list. */
  lemma ClosedIsLarger(space: Space, starts: set<nat>, devs: seq<Device>, S: set<Address>)
    requires NoDuplicates(devs) && Missed(space, starts, devs) && Closed(space, starts, S) && Listed(devs) <= S
    ensures |S| > |devs|
  {
    ListedCount(devs);
    var d: Device :| space.Found(d.addr) && d.addr !in Listed(devs)
      && match d.parent
         case None => d.addr.bus in starts
         case Some(p) => p in Listed(devs) && space.Bridge(p) && space.Secondary(p) == d.addr.bus;
    assert d.addr in S;
    var more := Listed(devs) + {d.addr};
    assert |more| == |Listed(devs)| + 1;
    Fewer(more, S);
  }

  lemma Fewer(a: set<Address>, b: set<Address>)
    requires a <= b
    ensures |a| <= |b|
  {
    assert b == a + (b - a);
  }

  /** The devices listed before stay grounded. */
  lemma StillGrounded(space: Space, starts: set<nat>, devs: seq<Device>, d: Device, i: nat)
    requires i < |devs| && Grounded(space, starts, devs, i)
    ensures Grounded(space, starts, [d] + devs, i + 1)
  {
    var more := [d] + devs;
    assert more[i + 1] == devs[i];
    if devs[i].parent.Some? {
      var p := devs[i].parent.value;
      var j :| i < j < |devs| && devs[j].addr == p && space.Bridge(p) && space.Secondary(p) == devs[i].addr.bus;
      assert more[j + 1].addr == p;
    }
  }

  lemma NewGrounded(space: Space, starts: set<nat>, devs: seq<Device>, d: Device)
    requires space.Found(d.addr) && (d.parent == None ==> d.addr.bus in starts)
    requires d.parent.Some? ==> var p := d.parent.value;
      p in Listed(devs) && space.Bridge(p) && space.Secondary(p) == d.addr.bus
    ensures Grounded(space, starts, [d] + devs, 0)
  {
    hide Space.Found, Space.Bridge, Space.Secondary;
    if d.parent.Some? {
      var j :| 0 <= j < |devs| && devs[j].addr == d.parent.value;
      assert ([d] + devs)[j + 1].addr == d.parent.value;
    }
  }

  lemma ListedMore(devs: seq<Device>, d: Device)
    ensures Listed([d] + devs) == Listed(devs) + {d.addr}
  {
    var more := [d] + devs;
    forall a
      ensures a in Listed(more) <==> a in Listed(devs) || a == d.addr
    {
      if a in Listed(devs) {
        var j :| 0 <= j < |devs| && devs[j].addr == a;
        assert more[j + 1].addr == a;
      }
      assert more[0].addr == d.addr;
    }
  }

  /** Listing one more device in front. */
  lemma ListMore(space: Space, starts: set<nat>, devs: seq<Device>, d: Device)
    requires AllGrounded(space, starts, devs) && NoDuplicates(devs) && d.addr !in Listed(devs) && space.Found(d.addr)
    requires d.parent == None ==> d.addr.bus in starts
    requires d.parent.Some? ==> var p := d.parent.value;
      p in Listed(devs) && space.Bridge(p) && space.Secondary(p) == d.addr.bus
    ensures AllGrounded(space, starts, [d] + devs) && NoDuplicates([d] + devs)
    ensures Listed([d] + devs) == Listed(devs) + {d.addr}
  {
    hide Grounded, Space.Found, Space.Bridge, Space.Secondary;
    ListedMore(devs, d);
    NewGrounded(space, starts, devs, d);
    forall i | 0 < i < |[d] + devs|
      ensures Grounded(space, starts, [d] + devs, i)
    {
      StillGrounded(space, starts, devs, d, i - 1);
    }
  }

  class PciAddress {
    var bus: nat
    var slot: nat
    var func: nat

    constructor (bus: nat)
      ensures this.bus == bus && slot == 0 && func == 0
    {
      this.bus := bus;
      slot := 0;
      func := 0;
    }

    function Value(): Address
      reads this
    {
      Address(bus, slot, func)
    }
  }

  /** later is devs with more devices in front. */
  ghost predicate Extends(later: seq<Device>, devs: seq<Device>) {
    |devs| <= |later| && later[|later| - |devs|..] == devs
  }

  /** The buses behind the bridges listed in front of the last n devices have been scanned. */
  ghost predicate BridgesDone(space: Space, devs: seq<Device>, n: nat) {
    forall i :: 0 <= i < |devs| - n && space.Bridge(devs[i].addr) ==>
      Scanned(space, Listed(devs), space.Secondary(devs[i].addr))
  }

  lemma ExtendsListed(later: seq<Device>, devs: seq<Device>)
    requires Extends(later, devs)
    ensures Listed(devs) <= Listed(later)
  {
    forall a | a in Listed(devs) ensures a in Listed(later) {
      var i :| 0 <= i < |devs| && devs[i].addr == a;
      assert later[|later| - |devs|..][i] == later[|later| - |devs| + i];
    }
  }

  lemma ExtendsTwice(a: seq<Device>, b: seq<Device>, c: seq<Device>)
    requires Extends(b, a) && Extends(c, b)
    ensures Extends(c, a)
  {
    assert c[|c| - |a|..] == c[|c| - |b|..][|b| - |a|..];
  }

  lemma DoneTwice(space: Space, devs: seq<Device>, later: seq<Device>, n: nat)
    requires Extends(later, devs) && n <= |devs|
    requires BridgesDone(space, devs, n) && BridgesDone(space, later, |devs|)
    ensures BridgesDone(space, later, n)
  {
    ExtendsListed(later, devs);
    var k := |later| - |devs|;
    forall i | 0 <= i < |later| - n && space.Bridge(later[i].addr)
      ensures Scanned(space, Listed(later), space.Secondary(later[i].addr))
    {
      if i >= k { assert later[i] == later[k..][i - k] == devs[i - k]; }
    }
  }

  class PciScanner {
    const space: Space
    /** The device list, last listed first. */
    var devs: seq<Device>
    /** How many more times `bmalloc` succeeds. */
    var heap: nat
    /** An allocation has failed. */
    ghost var short: bool
    /** The buses the scan was started on. */
    ghost var starts: set<nat>

    constructor (space: Space, heap: nat)
      ensures this.space == space && this.heap == heap && devs == [] && !short && starts == {}
    {
      this.space := space;
      this.heap := heap;
      devs := [];
      short := false;
      starts := {};
    }

    ghost predicate Valid()
      reads this
    {
      NoDuplicates(devs) && AllGrounded(space, starts, devs) && (short ==> heap == 0 && Missed(space, starts, devs))
    }

    /** A bus may be scanned on behalf of `parent`. */
    ghost predicate MayScan(bus: nat, parent: Option<Address>)
      reads this
    {
      match parent
      case None => bus in starts
      case Some(p) => p in Listed(devs) && space.Bridge(p) && space.Secondary(p) == bus
    }

    /** What every probe keeps. */
    twostate predicate Progress()
      reads this
    {
      && Valid() && starts == old(starts) && Extends(devs, old(devs))
      && heap + |devs| == old(heap) + old(|devs|)
      && (old(short) ==> short)
      && (!short ==> BridgesDone(space, devs, |old(devs)|))
    }

    /** `pci_find_device`. */
    method FindDevice(a: Address) returns (found: bool)
      ensures found <==> a in Listed(devs)
    {
      var i := 0;
      while i < |devs|
        invariant 0 <= i <= |devs|
        invariant forall j :: 0 <= j < i ==> devs[j].addr != a
      {
        if devs[i].addr == a { return true; }
        i := i + 1;
      }
      return false;
    }

    method ProbeBridge(addr: PciAddress, parent: Address)
      requires Valid() && addr.Value() == parent && parent in Listed(devs) && InRange(parent)
      modifies this
      ensures Progress()
      ensures !short && space.Bridge(addr.Value()) ==>
        Scanned(space, Listed(devs), space.Secondary(addr.Value()))
      decreases Universe() - Listed(devs), 6
    {
      hide NoDuplicates, AllGrounded, BridgesDone, Extends, Universe, Missed;
      Unchanged(devs);
      if space.Bridge(addr.Value()) {
        var bridge := new PciAddress(space.Secondary(addr.Value()));
        ProbeBus(bridge, Some(parent));
      }
    }

    method AllocDevice(addr: PciAddress, parent: Option<Address>)
      requires Valid() && MayScan(addr.bus, parent)
      requires space.Found(addr.Value()) && addr.Value() !in Listed(devs)
      modifies this
      ensures Progress()
      ensures !short ==> addr.Value() in Listed(devs)
      decreases Universe() - Listed(devs), 1
    {
      if heap == 0 {
        short := true;
        var missed := Device(addr.Value(), parent);
        assert missed.addr == addr.Value() && missed.parent == parent;
        return;
      }
      heap := heap - 1;
      var d := Device(addr.Value(), parent);
      ListMore(space, starts, devs, d);
      ghost var before := devs;
      devs := [d] + devs;
      assert devs[0] == d;
      ghost var listed := devs;
      ProbeBridge(addr, d.addr);
      assert Extends(listed, before) by { assert listed[1..] == before; }
      ExtendsTwice(before, listed, devs);
      ExtendsListed(devs, listed);
      if !short {
        forall i | 0 <= i < |devs| - |before| && space.Bridge(devs[i].addr)
          ensures Scanned(space, Listed(devs), space.Secondary(devs[i].addr))
        {
          if i == |devs| - |listed| { assert devs[i] == devs[|devs| - |listed|..][0] == d; }
        }
      }
    }

    method ProbeFunc(addr: PciAddress, parent: Option<Address>)
      requires Valid() && MayScan(addr.bus, parent)
      requires !space.Absent(addr.Value()) ==> space.Found(addr.Value())
      modifies this
      ensures Progress()
      ensures !short && space.Found(addr.Value()) ==> addr.Value() in Listed(devs)
      decreases Universe() - Listed(devs), 2
    {
      hide NoDuplicates, AllGrounded, BridgesDone, Extends, Universe, Missed;
      Unchanged(devs);
      if space.Absent(addr.Value()) { return; }
      var found := FindDevice(addr.Value());
      if found { return; }
      AllocDevice(addr, parent);
    }

    method ProbeSlot(addr: PciAddress, parent: Option<Address>)
      requires Valid() && MayScan(addr.bus, parent) && addr.bus < PCI_NUM_BUSES && addr.slot < PCI_NUM_SLOTS
      modifies this, addr`func
      ensures Progress()
      ensures !short ==> SlotScanned(space, Listed(devs), addr.bus, addr.slot, PCI_NUM_FUNCS)
      decreases Universe() - Listed(devs), 4
    {
      hide NoDuplicates, AllGrounded, BridgesDone, Extends, Universe, Missed;
      Unchanged(devs);
      addr.func := 0;
      if space.Absent(addr.Value()) { return; }
      ProbeFunc(addr, parent);
      ExtendsListed(devs, old(devs));
      if !space.Multifunction(Address(addr.bus, addr.slot, 0)) { return; }
      addr.func := 1;
      while addr.func < PCI_NUM_FUNCS
        invariant 1 <= addr.func <= PCI_NUM_FUNCS
        invariant Progress() && MayScan(addr.bus, parent)
        invariant !short ==> SlotScanned(space, Listed(devs), addr.bus, addr.slot, addr.func)
      {
        ghost var before := devs;
        Shrinks(devs, old(devs));
        ProbeFunc(addr, parent);
        Compose(before, old(devs));
        if !short { NextFunc(space, Listed(before), Listed(devs), addr.bus, addr.slot, addr.func); }
        addr.func := addr.func + 1;
      }
    }

    method ProbeBus(addr: PciAddress, parent: Option<Address>)
      requires Valid() && MayScan(addr.bus, parent) && addr.bus < PCI_NUM_BUSES
      modifies this, addr`slot, addr`func
      ensures Progress()
      ensures !short ==> Scanned(space, Listed(devs), addr.bus)
      decreases Universe() - Listed(devs), 5
    {
      hide NoDuplicates, AllGrounded, BridgesDone, Extends, Universe, Missed;
      Unchanged(devs);
      addr.slot := 0;
      while addr.slot < PCI_NUM_SLOTS
        invariant addr.slot <= PCI_NUM_SLOTS
        invariant Progress() && MayScan(addr.bus, parent)
        invariant !short ==> SlotsScanned(space, Listed(devs), addr.bus, addr.slot)
      {
        ghost var before := devs;
        Shrinks(devs, old(devs));
        ProbeSlot(addr, parent);
        Compose(before, old(devs));
        if !short { NextSlot(space, Listed(before), Listed(devs), addr.bus, addr.slot); }
        addr.slot := addr.slot + 1;
      }
    }

    /** `pci_init`: on an empty list the scan ends, for every configuration space; no address is
        listed twice; the list is contained in every set that is closed under scanning the start buses
        and the bus behind every PCI-to-PCI bridge in it, and closed itself exactly when there is
        memory for the devices of some closed set.  Each listed device takes one allocation. */
    method Init()
      requires devs == [] && !short
      modifies this
      ensures short ==> heap == 0
      ensures heap + |devs| == old(heap)
      ensures starts == if space.Multifunction(Address(0, 0, 0)) then BusesBelow(PCI_NUM_BUSES) else {0}
      ensures NoDuplicates(devs)
      ensures forall S :: Closed(space, starts, S) ==> Listed(devs) <= S
      ensures !short <==> Closed(space, starts, Listed(devs))
      ensures Closed(space, starts, Listed(devs)) <==> exists S :: Closed(space, starts, S) && |S| <= old(heap)
    {
      hide Missed;
      var addr := new PciAddress(0);
      if !space.Multifunction(addr.Value()) {
        starts := {0};
        ProbeBus(addr, None);
      } else {
        starts := BusesBelow(PCI_NUM_BUSES);
        while addr.bus < PCI_NUM_BUSES
          invariant addr.bus <= PCI_NUM_BUSES && fresh(addr)
          invariant Valid() && starts == BusesBelow(PCI_NUM_BUSES) && heap + |devs| == old(heap)
          invariant !short ==> BridgesDone(space, devs, 0)
          invariant !short ==> BusesScanned(space, Listed(devs), addr.bus)
        {
          ghost var before := devs;
          ProbeBus(addr, None);
          EmptyExtended(before);
          Compose(before, []);
          addr.bus := addr.bus + 1;
        }
      }
      forall S | Closed(space, starts, S)
        ensures Listed(devs) <= S && (short ==> |S| > old(heap))
      {
        forall i | 0 <= i < |devs| ensures devs[i].addr in S {
          GroundedInClosed(space, starts, devs, S, i);
        }
        if short { ClosedIsLarger(space, starts, devs, S); }
      }
      ListedCount(devs);
    }

    lemma Unchanged(l: seq<Device>)
      ensures Extends(l, l) && BridgesDone(space, l, |l|)
    {
    }

    lemma EmptyExtended(later: seq<Device>)
      ensures Extends(later, [])
    {
    }

    lemma Shrinks(later: seq<Device>, earlier: seq<Device>)
      requires Extends(later, earlier)
      ensures Universe() - Listed(later) <= Universe() - Listed(earlier)
    {
      ExtendsListed(later, earlier);
    }

    lemma Compose(between: seq<Device>, earlier: seq<Device>)
      requires Extends(between, earlier) && Extends(devs, between)
      ensures Extends(devs, earlier) && Listed(between) <= Listed(devs)
      ensures BridgesDone(space, between, |earlier|) && BridgesDone(space, devs, |between|) ==>
        BridgesDone(space, devs, |earlier|)
    {
      ExtendsTwice(earlier, between, devs);
      ExtendsListed(devs, between);
      if BridgesDone(space, between, |earlier|) && BridgesDone(space, devs, |between|) {
        DoneTwice(space, between, devs, |earlier|);
      }
    }
  }
}
