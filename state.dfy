/// The builder's DynamicState (include/hw/fdt-mch/fdt-mch.h, and the older
/// copy in hw/core/dtb-machine.c): the node-to-device mapping list, the
/// clock count and clock table, and a log of the calls the builder makes
/// into QEMU's device API.
module Machine {
  import opened Fdt

  /// A device the builder created: the QEMU type name it was created under,
  /// the node it came from, and whether the fixup linked its "downstream"
  /// memory region to system memory.
  datatype Dev = Dev(typeName: string, node: int, downstream: bool)

  /// Input line `line` of a device: qdev_get_gpio_in(owner, line).
  datatype Line = Line(owner: Dev, line: nat)

  /// struct device_fdt_info: the device (None for NULL), its interrupt
  /// input table and the size the interrupt builder gave it. The gpio
  /// fields of the struct are never read or written by the builder.
  datatype Info = Info(dev: Option<Dev>, irqs: seq<Line>, numIrqs: nat)

  /// One element of the mapping list.
  datatype Entry = Entry(offset: int, info: Info)

  /// A call into QEMU's device API, in the order the builder makes it.
  datatype Event =
    | Realize(dev: Dev)                            // sysbus_realize_and_unref
    | MmioMap(dev: Dev, region: nat, addr: u64)    // sysbus_mmio_map
    | I2cAttach(dev: Dev, address: u8, bus: Dev)   // "address" set, then i2c_slave_realize_and_unref
    | ClockIn(dev: Dev, name: string, clock: nat)  // qdev_connect_clock_in(dev, name, clocks[clock])
    | IrqConnect(dev: Dev, out: nat, input: Line)  // sysbus_connect_irq
    | GpioConnect(dev: Dev, out: nat, input: Line) // qdev_connect_gpio_out

  /// The multiplier and divider of a derived clock (ClockParameters).
  datatype Factor = Factor(mult: u32, div: u32)

  /// An element of s->clocks: NULL, or a clock with its name, rate, source
  /// (an index into s->clocks) and, for a derived clock, the parameters
  /// its update callback was registered with.
  datatype Clock = NoClock | Clock(name: string, hz: u64, source: Option<nat>, factor: Option<Factor>)

  /// The part of DynamicState the scan and the wiring passes change.
  datatype State = State(mapping: seq<Entry>, numClocks: nat, log: seq<Event>)

  /// Where the walk from the head of the list first meets `node`.
  function FindIndex(m: seq<Entry>, node: int): (r: Option<nat>)
    ensures r.Some? ==> r.value < |m| && m[r.value].offset == node
    ensures r.Some? ==> forall j | 0 <= j < r.value :: m[j].offset != node
    ensures r.None? <==> forall j | 0 <= j < |m| :: m[j].offset != node
  {
    if m == [] then None
    else if m[0].offset == node then Some(0)
    else match FindIndex(m[1..], node)
      case None => None
      case Some(k) => Some(k + 1)
  }

  /// What mch_fdt_dev_find_mapping reports for `node`: the info of the most
  /// recently added entry for it, or None (-1 / NULL) when there is none.
  function Lookup(m: seq<Entry>, node: int): Option<Info>
  {
    match FindIndex(m, node)
    case None => None
    case Some(k) => Some(m[k].info)
  }

  /// A freshly added entry: the dev given, no interrupt table (g_new0).
  function NewEntry(dev: Option<Dev>, node: int): Entry
  {
    Entry(node, Info(dev, [], 0))
  }

  /// After an add, the node finds the entry just added, whatever it had
  /// before; every other node finds what it found before.
  lemma LookupAfterAdd(m: seq<Entry>, dev: Option<Dev>, node: int, other: int)
    ensures Lookup([NewEntry(dev, node)] + m, node) == Some(Info(dev, [], 0))
    ensures other != node ==> Lookup([NewEntry(dev, node)] + m, other) == Lookup(m, other)
  {
    var m' := [NewEntry(dev, node)] + m;
    assert m'[1..] == m;
  }

  class DynamicState {
    var mapping: seq<Entry>
    var numClocks: nat
    var clocks: array<Clock>
    var log: seq<Event>

    function Value(): State
      reads this
    {
      State(mapping, numClocks, log)
    }

    /// The zero-filled state the init code starts from.
    constructor ()
      ensures mapping == [] && numClocks == 0 && log == [] && clocks.Length == 0
    {
      mapping := [];
      numClocks := 0;
      clocks := new Clock[0];
      log := [];
    }

    /// mch_fdt_dev_add_mapping / add_dev_fdt_mapping: prepends a new entry
    /// without looking for an older one, and returns 0.
    method AddMapping(dev: Option<Dev>, node: int) returns (r: int)
      modifies this
      ensures r == 0
      ensures mapping == [NewEntry(dev, node)] + old(mapping)
      ensures numClocks == old(numClocks) && clocks == old(clocks) && log == old(log)
    {
      mapping := [NewEntry(dev, node)] + mapping;
      r := 0;
    }

    /// A store through the info pointer a find returned: the first entry
    /// for `node` gets `info`; every other entry is kept.
    method SetInfo(node: int, info: Info)
      requires FindIndex(mapping, node).Some?
      modifies this
      ensures mapping == old(mapping)[FindIndex(old(mapping), node).value := Entry(node, info)]
      ensures numClocks == old(numClocks) && clocks == old(clocks) && log == old(log)
    {
      var i := 0;
      while mapping[i].offset != node
        invariant i <= FindIndex(mapping, node).value
        decreases FindIndex(mapping, node).value - i
      {
        i := i + 1;
      }
      mapping := mapping[i := Entry(node, info)];
    }

    /// mch_fdt_dev_find_mapping / find_dev_fdt_mapping: the walk from the
    /// head that stops at the first entry for `node`.
    method FindMapping(node: int) returns (r: Option<Info>)
      ensures r == Lookup(mapping, node)
    {
      var i := 0;
      while i < |mapping|
        invariant 0 <= i <= |mapping|
        invariant forall j | 0 <= j < i :: mapping[j].offset != node
      {
        if mapping[i].offset == node {
          FindFirst(mapping, node, i);
          return Some(mapping[i].info);
        }
        i := i + 1;
      }
      return None;
    }
  }

  lemma FindFirst(m: seq<Entry>, node: int, i: nat)
    requires i < |m| && m[i].offset == node
    requires forall j | 0 <= j < i :: m[j].offset != node
    ensures FindIndex(m, node) == Some(i)
  {
    var r := FindIndex(m, node);
    assert r.Some?;
    if r.value < i {
    } else if r.value > i {
    }
  }
}
