/// Device instantiation and the node scan of the two machine builders:
/// hw/core/fdt-mch.c and its older variant hw/core/dtb-machine.c.
/// qdev_try_new is an oracle: it succeeds exactly for the type names in
/// `known`.
module Devices {
  import opened Fdt
  import opened Codec
  import opened Compat
  import opened Machine

  /// Which builder: hw/core/fdt-mch.c or hw/core/dtb-machine.c.
  datatype Variant = FdtMch | DtbMachine

  /// One compatible entry in try_create_fdt_device: the vendor prefix is
  /// stripped, a blocklisted name is skipped, then the name is tried as is
  /// and (fdt-mch.c only) with '-' rewritten to '_'. The fixup sees the
  /// stripped name, never the rewritten one.
  function TryCompat(v: Variant, known: set<string>, compat: string, n: int): (r: Option<Dev>)
  {
    var id := StripCompat(compat);
    if Blocklist(id) != 0 then None
    else if id in known then Some(Dev(id, n, NeedsDownstream(id)))
    else if v == FdtMch && SubstChars(id, '-', '_') in known then
      Some(Dev(SubstChars(id, '-', '_'), n, NeedsDownstream(id)))
    else None
  }

  /// What one entry yields: a device whose type is the stripped name or
  /// (fdt-mch.c only) its underscore form, never for a blocklisted name.
  lemma TryCompatCreates(v: Variant, known: set<string>, compat: string, n: int)
    ensures var id, r := StripCompat(compat), TryCompat(v, known, compat, n);
      && (HasPrefix(id, "pl050") ==> r.None?)
      && (!HasPrefix(id, "pl050") && id in known ==> r == Some(Dev(id, n, NeedsDownstream(id))))
      && (r.Some? ==> r.value.typeName in known && r.value.node == n
                      && r.value.downstream == NeedsDownstream(id)
                      && (r.value.typeName == id || (v == FdtMch && r.value.typeName == SubstChars(id, '-', '_'))))
      && (v == DtbMachine && r.Some? ==> r.value.typeName == id)
      && (!HasPrefix(id, "pl050") && id !in known && SubstChars(id, '-', '_') in known ==>
            r == (if v == FdtMch then Some(Dev(SubstChars(id, '-', '_'), n, NeedsDownstream(id))) else None))
  {
  }

  /// What each compatible entry yields, in order.
  function Candidates(v: Variant, known: set<string>, compats: seq<string>, n: int): (r: seq<Option<Dev>>)
    ensures |r| == |compats|
    ensures forall j | 0 <= j < |compats| :: r[j] == TryCompat(v, known, compats[j], n)
  {
    if compats == [] then []
    else [TryCompat(v, known, compats[0], n)] + Candidates(v, known, compats[1..], n)
  }

  /// The candidate loop from entry i on: the first device found wins.
  function FirstSome(cands: seq<Option<Dev>>, i: nat): Option<Dev>
    requires i <= |cands|
    decreases |cands| - i
  {
    if i == |cands| then None
    else if cands[i].Some? then cands[i] else FirstSome(cands, i + 1)
  }

  /// The loop yields nothing exactly when no entry from i on yields a
  /// device, and otherwise the device of the first entry that does.
  lemma {:induction false} FirstSomeFirst(cands: seq<Option<Dev>>, i: nat)
    requires i <= |cands|
    ensures FirstSome(cands, i).None? <==> forall j | i <= j < |cands| :: cands[j].None?
    ensures FirstSome(cands, i).Some? ==> exists j | i <= j < |cands| ::
      cands[j] == FirstSome(cands, i) && forall k | i <= k < j :: cands[k].None?
    decreases |cands| - i
  {
    if i < |cands| {
      FirstSomeFirst(cands, i + 1);
      if cands[i].None? && FirstSome(cands, i).Some? {
        var j :| i + 1 <= j < |cands| && cands[j] == FirstSome(cands, i + 1) && forall k | i + 1 <= k < j :: cands[k].None?;
        assert forall k | i <= k < j :: cands[k].None?;
      }
    }
  }

  /// try_create_fdt_device as it is evidently meant to behave: a node
  /// without a `compatible` property has no candidates and yields no device.
  function TryCreateSpec(v: Variant, known: set<string>, t: Tree, n: int): Option<Dev>
    requires IsNode(t, n)
  {
    FirstSome(Candidates(v, known, Strings(t, n, "compatible"), n), 0)
  }

  /// try_create_fdt_device as written: `compat_num` is unsigned, so with no
  /// `compatible` property fdt_stringlist_count's -FDT_ERR_NOTFOUND becomes
  /// a huge count, and the first entry read is NULL, handed to strchr.
  function TryCreateAsWritten(v: Variant, known: set<string>, t: Tree, n: int): (r: Result<Option<Dev>>)
    requires IsNode(t, n)
  {
    if "compatible" !in t.nodes[n].strings then Fault("strchr(NULL): node has no compatible property")
    else Ok(TryCreateSpec(v, known, t, n))
  }

  /// The two agree on every node that has a `compatible` property; on one
  /// without it (an i2c slave with `reg` but no `compatible`, say, which
  /// the i2c bus builder hands over unguarded) the code as written faults
  /// where the intended version creates nothing.
  lemma MissingCompatible(v: Variant, known: set<string>, t: Tree, n: int)
    requires IsNode(t, n)
    ensures "compatible" in t.nodes[n].strings ==> TryCreateAsWritten(v, known, t, n) == Ok(TryCreateSpec(v, known, t, n))
    ensures "compatible" !in t.nodes[n].strings ==>
      TryCreateAsWritten(v, known, t, n).Fault? && TryCreateSpec(v, known, t, n).None?
  {
  }

  /// try_create_fdt_device (hw/core/fdt-mch.c, hw/core/dtb-machine.c)
  method TryCreate(v: Variant, known: set<string>, t: Tree, n: int) returns (r: Option<Dev>)
    requires IsNode(t, n)
    ensures r == TryCreateSpec(v, known, t, n)
  {
    var compats := Strings(t, n, "compatible");
    ghost var cands := Candidates(v, known, compats, n);
    var i := 0;
    while i < |compats|
      invariant 0 <= i <= |compats|
      invariant FirstSome(cands, i) == FirstSome(cands, 0)
    {
      var d := TryEntry(v, known, compats[i], n);
      if d.Some? {
        return d;
      }
      i := i + 1;
    }
    return None;
  }

  /// One pass of the candidate loop, with the copy subst_compat_string
  /// makes for the underscore form.
  method TryEntry(v: Variant, known: set<string>, compat: string, n: int) returns (d: Option<Dev>)
    requires '\0' !in compat
    ensures d == TryCompat(v, known, compat, n)
  {
    var id := StripCompat(compat);
    if Blocklist(id) != 0 {
      return None;
    }
    if id in known {
      return Some(Dev(id, n, NeedsDownstream(id)));
    }
    if v == FdtMch {
      StripCompatSuffix(compat);
      var alt := SubstCompat(id, '-', '_');
      var altName := alt[..|id|];
      if altName in known {
        return Some(Dev(altName, n, NeedsDownstream(id)));
      }
    }
    return None;
  }

  /// The branch mch_fdt_add_device_node / machine_dtb_add_device_node
  /// takes for a node, in the order the tests are made.
  datatype Rule =
    | Mapped(dev: Option<Dev>)   // already in the mapping list
    | ClockSource                // has #clock-cells
    | PciBus                     // device_type begins with "pci"
    | SocBus                     // device_type begins with "soc"
    | RangesBus                  // has subnodes and `ranges`
    | I2cBus                     // a compatible entry and the node name both contain "i2c"
    | SpiBus                     // ... both contain "spi"
    | GpioController             // has gpio-controller
    | IntController              // has interrupt-controller
    | SimpleDevice               // none of the above

  /// The i2c/spi test over the compatible entries from i on: per entry,
  /// i2c before spi; the first entry that passes either decides.
  function BusByName(compats: seq<string>, name: string, i: nat): (r: Option<Rule>)
    requires i <= |compats|
    ensures r.Some? ==> r.value in {I2cBus, SpiBus}
    decreases |compats| - i
  {
    if i == |compats| then None
    else if Contains(compats[i], "i2c") && Contains(name, "i2c") then Some(I2cBus)
    else if Contains(compats[i], "spi") && Contains(name, "spi") then Some(SpiBus)
    else BusByName(compats, name, i + 1)
  }

  /// The text of device_type as strncmp sees it (an empty list reads as "").
  function DeviceType(t: Tree, n: int): Option<string>
    requires IsNode(t, n)
  {
    if "device_type" !in t.nodes[n].strings then None
    else if t.nodes[n].strings["device_type"] == [] then Some("")
    else Some(t.nodes[n].strings["device_type"][0])
  }

  /// The classifier of both builders. fdt-mch.c tests #clock-cells right
  /// after the mapping; dtb-machine.c tests it after the two controller
  /// properties. A node with subnodes, no `ranges` and no compatible
  /// property reaches strstr(NULL, ...).
  function Classify(v: Variant, m: seq<Entry>, t: Tree, n: int): (r: Result<Rule>)
    requires Valid(t) && IsNode(t, n)
    ensures !r.Err?
  {
    var info := Lookup(m, n);
    if info.Some? then Ok(Mapped(info.value.dev))
    else if v == FdtMch && HasProp(t, n, "#clock-cells") then Ok(ClockSource)
    else if DeviceType(t, n).Some? && HasPrefix(DeviceType(t, n).value, "pci") then Ok(PciBus)
    else if DeviceType(t, n).Some? && HasPrefix(DeviceType(t, n).value, "soc") then Ok(SocBus)
    else
      var bus :=
        if Children(t, n) == [] then Ok(None)
        else if HasProp(t, n, "ranges") then Ok(Some(RangesBus))
        else if "compatible" !in t.nodes[n].strings then Fault("strstr(NULL): node has no compatible property")
        else Ok(BusByName(t.nodes[n].strings["compatible"], NodeName(t, n), 0));
      if bus.Fault? then Fault(bus.reason)
      else if bus.value.Some? then Ok(bus.value.value)
      else if HasProp(t, n, "gpio-controller") then Ok(GpioController)
      else if HasProp(t, n, "interrupt-controller") then Ok(IntController)
      else if v == DtbMachine && HasProp(t, n, "#clock-cells") then Ok(ClockSource)
      else Ok(SimpleDevice)
  }

  /// A node that is unmapped, has no device_type, no subnodes and both
  /// controller properties is a gpio controller: gpio is tested first.
  lemma GpioBeforeIntc(v: Variant, m: seq<Entry>, t: Tree, n: int)
    requires Valid(t) && IsNode(t, n) && Lookup(m, n).None?
    requires DeviceType(t, n).None? && Children(t, n) == []
    requires HasProp(t, n, "gpio-controller") && HasProp(t, n, "interrupt-controller")
    requires v == DtbMachine || !HasProp(t, n, "#clock-cells")
    ensures Classify(v, m, t, n) == Ok(GpioController)
  {
  }

  /// In fdt-mch.c an unmapped node with #clock-cells is a clock source
  /// whatever else it has; in dtb-machine.c the bus and controller tests
  /// come first.
  lemma ClockPrecedence(m: seq<Entry>, t: Tree, n: int)
    requires Valid(t) && IsNode(t, n) && Lookup(m, n).None? && HasProp(t, n, "#clock-cells")
    ensures Classify(FdtMch, m, t, n) == Ok(ClockSource)
    ensures HasProp(t, n, "gpio-controller") && DeviceType(t, n).None? && Children(t, n) == []
      ==> Classify(DtbMachine, m, t, n) == Ok(GpioController)
    ensures !HasProp(t, n, "gpio-controller") && !HasProp(t, n, "interrupt-controller")
      && DeviceType(t, n).None? && Children(t, n) == []
      ==> Classify(DtbMachine, m, t, n) == Ok(ClockSource)
  {
  }

  /// The bus tests of the classifier pass: a device_type beginning with
  /// "pci" or "soc", or subnodes with `ranges`, or subnodes and a
  /// compatible entry that passes the i2c/spi name test.
  predicate BusNode(t: Tree, n: int)
    requires Valid(t) && IsNode(t, n)
  {
    || (DeviceType(t, n).Some? && (HasPrefix(DeviceType(t, n).value, "pci") || HasPrefix(DeviceType(t, n).value, "soc")))
    || (Children(t, n) != [] && HasProp(t, n, "ranges"))
    || (Children(t, n) != [] && BusByName(Strings(t, n, "compatible"), NodeName(t, n), 0).Some?)
  }

  /// The bus tests come before the controller and simple-device tests: an
  /// unmapped node (not a clock node in fdt-mch.c) is classified as a bus
  /// exactly when a bus test passes, whatever controller properties it
  /// has; pci wins over `ranges`, and `ranges` over the name test; a node
  /// with subnodes that fails the first three tests and has no compatible
  /// property faults in strstr before any controller test.
  lemma BusesBeforeControllers(v: Variant, m: seq<Entry>, t: Tree, n: int)
    requires Valid(t) && IsNode(t, n) && Lookup(m, n).None?
    requires v == DtbMachine || !HasProp(t, n, "#clock-cells")
    ensures BusNode(t, n) <==> Classify(v, m, t, n).Ok? && Classify(v, m, t, n).value in {PciBus, SocBus, RangesBus, I2cBus, SpiBus}
    ensures DeviceType(t, n).Some? && HasPrefix(DeviceType(t, n).value, "pci") ==> Classify(v, m, t, n) == Ok(PciBus)
    ensures DeviceType(t, n).Some? && HasPrefix(DeviceType(t, n).value, "soc") ==> Classify(v, m, t, n) == Ok(SocBus)
    ensures var typed := DeviceType(t, n).Some? && (HasPrefix(DeviceType(t, n).value, "pci") || HasPrefix(DeviceType(t, n).value, "soc"));
      !typed && Children(t, n) != [] && HasProp(t, n, "ranges") ==> Classify(v, m, t, n) == Ok(RangesBus)
    ensures var typed := DeviceType(t, n).Some? && (HasPrefix(DeviceType(t, n).value, "pci") || HasPrefix(DeviceType(t, n).value, "soc"));
      !typed && Children(t, n) != [] && !HasProp(t, n, "ranges") && "compatible" !in t.nodes[n].strings ==> Classify(v, m, t, n).Fault?
  {
  }

  /// Without #clock-cells the two classifiers agree.
  lemma VariantsAgree(m: seq<Entry>, t: Tree, n: int)
    requires Valid(t) && IsNode(t, n) && !HasProp(t, n, "#clock-cells")
    ensures Classify(FdtMch, m, t, n) == Classify(DtbMachine, m, t, n)
  {
  }

  /// The state after a prepend to the mapping list.
  function Mapped1(st: State, dev: Option<Dev>, node: int): State
  {
    st.(mapping := [NewEntry(dev, node)] + st.mapping)
  }

  /// One child of an i2c bus: with no bus device it is mapped to NULL;
  /// otherwise a child without a readable first `reg` address is mapped to
  /// NULL, and the rest are created, given the address truncated to
  /// uint8_t, attached to the bus and mapped (NULL when creation failed).
  function I2cChild(v: Variant, known: set<string>, st: State, t: Tree, bus: Option<Dev>, c: int): (r: Result<State>)
    requires Valid(t) && IsNode(t, c)
    ensures !r.Err?
  {
    if bus.None? then Ok(Mapped1(st, None, c))
    else
      var reg := SimpleAddrSize(t, c, 0, true, false);
      if reg.Fault? then Fault(reg.reason)
      else if !reg.Ok? then Ok(Mapped1(st, None, c))
      else
        var child := TryCreateSpec(v, known, t, c);
        if child.None? then Ok(Mapped1(st, None, c))
        else
          var addr: u8 := reg.value.addr.value % 0x100;
          Ok(Mapped1(st.(log := st.log + [I2cAttach(child.value, addr, bus.value)]), child, c))
  }

  /// The subnode loop of the i2c bus from the i-th child on.
  function I2cChildren(v: Variant, known: set<string>, st: State, t: Tree, bus: Option<Dev>, kids: seq<int>, i: nat): (r: Result<State>)
    requires Valid(t) && i <= |kids| && forall k | 0 <= k < |kids| :: IsNode(t, kids[k])
    decreases |kids| - i
    ensures !r.Err?
  {
    if i == |kids| then Ok(st)
    else
      var r := I2cChild(v, known, st, t, bus, kids[i]);
      if r.Fault? then r else I2cChildren(v, known, r.value, t, bus, kids, i + 1)
  }

  /// mch_fdt_add_i2c_bus / machine_dtb_add_i2c_bus: the bus device (if
  /// created, realized), the bus node mapped, then every child.
  function AddI2cBusSpec(v: Variant, known: set<string>, st: State, t: Tree, n: int): (r: Result<(State, Option<Dev>)>)
    requires Valid(t) && IsNode(t, n)
    ensures !r.Err?
  {
    var bus := TryCreateSpec(v, known, t, n);
    var st1 := Mapped1(st.(log := st.log + (if bus.Some? then [Realize(bus.value)] else [])), bus, n);
    var r := I2cChildren(v, known, st1, t, bus, Children(t, n), 0);
    if r.Fault? then Fault(r.reason) else Ok((r.value, bus))
  }

  /// One sysbus_mmio_map per `reg` entry from the i-th on: region k is
  /// mapped at the address of entry k.
  function MmioEvents(d: Dev, regs: seq<(u64, u64)>, i: nat): (r: seq<Event>)
    requires i <= |regs|
    ensures |r| == |regs| - i
    ensures forall k | 0 <= k < |r| :: r[k] == MmioMap(d, i + k, regs[i + k].0)
    decreases |regs| - i
  {
    if i == |regs| then [] else [MmioMap(d, i, regs[i].0)] + MmioEvents(d, regs, i + 1)
  }

  /// mch_fdt_add_simple_device / machine_dtb_add_simple_device: create,
  /// realize, then map every `reg` region at its address.
  function AddSimpleDeviceSpec(v: Variant, known: set<string>, st: State, t: Tree, n: int): (r: Result<(State, Option<Dev>)>)
    requires Valid(t) && IsNode(t, n)
    ensures !r.Err?
  {
    var dev := TryCreateSpec(v, known, t, n);
    if dev.None? then Ok((st, None))
    else
      var regs := RegVisits(t, n);
      if regs.Fault? then Fault(regs.reason)
      else Ok((st.(log := st.log + [Realize(dev.value)] + MmioEvents(dev.value, regs.value, 0)), dev))
  }

  /// mch_fdt_add_device_node / machine_dtb_add_device_node. The pci, spi,
  /// generic-bus, controller, clocksource and dummy builders create
  /// nothing; only fdt-mch.c counts clock nodes.
  function AddDeviceNodeSpec(v: Variant, known: set<string>, st: State, t: Tree, n: int): (r: Result<(State, Option<Dev>)>)
    requires Valid(t) && IsNode(t, n)
    ensures !r.Err?
  {
    var rule := Classify(v, st.mapping, t, n);
    if rule.Fault? then Fault(rule.reason) else Dispatch(v, known, st, t, n, rule.value)
  }

  /// What the builder chosen by a rule does.
  function Dispatch(v: Variant, known: set<string>, st: State, t: Tree, n: int, rule: Rule): (r: Result<(State, Option<Dev>)>)
    requires Valid(t) && IsNode(t, n)
    ensures !r.Err?
  {
    match rule
    case Mapped(d) => Ok((st, d))
    case ClockSource => if v == FdtMch then Ok((st.(numClocks := st.numClocks + 1), None)) else Ok((st, None))
    case I2cBus => AddI2cBusSpec(v, known, st, t, n)
    case SimpleDevice => AddSimpleDeviceSpec(v, known, st, t, n)
    case _ => Ok((st, None))
  }

  /// A node already in the mapping list gives back its recorded device
  /// and changes nothing.
  lemma AlreadyMapped(v: Variant, known: set<string>, st: State, t: Tree, n: int)
    requires Valid(t) && IsNode(t, n) && Lookup(st.mapping, n).Some?
    ensures AddDeviceNodeSpec(v, known, st, t, n) == Ok((st, Lookup(st.mapping, n).value.dev))
  {
  }

  /// An unmapped node with #clock-cells adds exactly one to num_clocks in
  /// fdt-mch.c and yields NULL; nothing else changes.
  lemma ClockNodeCounted(known: set<string>, st: State, t: Tree, n: int)
    requires Valid(t) && IsNode(t, n) && Lookup(st.mapping, n).None? && HasProp(t, n, "#clock-cells")
    ensures AddDeviceNodeSpec(FdtMch, known, st, t, n)
      == Ok((State(st.mapping, st.numClocks + 1, st.log), None))
  {
  }

  /// A simple device that cannot be created yields NULL and leaves the
  /// state alone (dtb-machine.c's dummy fallback creates nothing either).
  lemma SimpleDeviceNotCreated(v: Variant, known: set<string>, st: State, t: Tree, n: int)
    requires Valid(t) && IsNode(t, n) && Classify(v, st.mapping, t, n) == Ok(SimpleDevice)
    requires TryCreateSpec(v, known, t, n) == None
    ensures AddDeviceNodeSpec(v, known, st, t, n) == Ok((st, None))
  {
  }

  /// A subnode of n: the scan recurses into it.
  predicate KidsOf(t: Tree, n: int, kids: seq<int>)
  {
    forall k | 0 <= k < |kids| :: n < kids[k] < |t.nodes|
  }

  /// mch_fdt_scan_node / machine_dtb_scan_node: the classifier runs only
  /// for a node with at least one compatible string; then every subnode is
  /// scanned, in order.
  function ScanNodeSpec(v: Variant, known: set<string>, st: State, t: Tree, n: int): (r: Result<State>)
    requires Valid(t) && IsNode(t, n)
    decreases |t.nodes| - n, 1
    ensures !r.Err?
  {
    var added :=
      if |Strings(t, n, "compatible")| > 0 then AddDeviceNodeSpec(v, known, st, t, n) else Ok((st, None));
    if added.Fault? then Fault(added.reason)
    else ScanChildrenSpec(v, known, added.value.0, t, n, Children(t, n), 0)
  }

  function ScanChildrenSpec(v: Variant, known: set<string>, st: State, t: Tree, n: int, kids: seq<int>, i: nat): (r: Result<State>)
    requires Valid(t) && IsNode(t, n) && i <= |kids| && KidsOf(t, n, kids)
    decreases |t.nodes| - n, 0, |kids| - i
    ensures !r.Err?
  {
    if i == |kids| then Ok(st)
    else
      var r := ScanNodeSpec(v, known, st, t, kids[i]);
      if r.Fault? then r else ScanChildrenSpec(v, known, r.value, t, n, kids, i + 1)
  }

  /// A node without compatible strings (no property, or an empty list,
  /// whose fdt_stringlist_count is 0) is not classified: the scan goes
  /// straight to its subnodes.
  lemma ScanSkipsWithoutCompatible(v: Variant, known: set<string>, st: State, t: Tree, n: int)
    requires Valid(t) && IsNode(t, n) && |Strings(t, n, "compatible")| == 0
    ensures ScanNodeSpec(v, known, st, t, n) == ScanChildrenSpec(v, known, st, t, n, Children(t, n), 0)
  {
  }

  /// What the scan and its builders can do to the state: put entries in
  /// front of the mapping list, append to the log, count clocks up.
  predicate Grows(st: State, st': State)
  {
    && |st.mapping| <= |st'.mapping| && st'.mapping[|st'.mapping| - |st.mapping|..] == st.mapping
    && st.log <= st'.log
    && st.numClocks <= st'.numClocks
  }

  lemma GrowsTrans(a: State, b: State, c: State)
    requires Grows(a, b) && Grows(b, c)
    ensures Grows(a, c)
  {
    var mb, mc := b.mapping, c.mapping;
    assert mc[|mc| - |a.mapping|..] == mc[|mc| - |mb|..][|mb| - |a.mapping|..];
  }

  lemma GrowsMapped1(st: State, dev: Option<Dev>, node: int)
    ensures Grows(st, Mapped1(st, dev, node))
  {
    assert ([NewEntry(dev, node)] + st.mapping)[1..] == st.mapping;
  }

  lemma {:induction false} I2cChildrenGrow(v: Variant, known: set<string>, st: State, t: Tree, bus: Option<Dev>, kids: seq<int>, i: nat)
    requires Valid(t) && i <= |kids| && forall k | 0 <= k < |kids| :: IsNode(t, kids[k])
    requires I2cChildren(v, known, st, t, bus, kids, i).Ok?
    ensures Grows(st, I2cChildren(v, known, st, t, bus, kids, i).value)
    decreases |kids| - i
  {
    if i < |kids| {
      var c := kids[i];
      var r := I2cChild(v, known, st, t, bus, c);
      I2cChildGrows(v, known, st, t, bus, c);
      I2cChildrenGrow(v, known, r.value, t, bus, kids, i + 1);
      GrowsTrans(st, r.value, I2cChildren(v, known, st, t, bus, kids, i).value);
    }
  }

  lemma I2cChildGrows(v: Variant, known: set<string>, st: State, t: Tree, bus: Option<Dev>, c: int)
    requires Valid(t) && IsNode(t, c) && I2cChild(v, known, st, t, bus, c).Ok?
    ensures Grows(st, I2cChild(v, known, st, t, bus, c).value)
  {
    if bus.Some? && SimpleAddrSize(t, c, 0, true, false).Ok? && TryCreateSpec(v, known, t, c).Some? {
      var st0 := st.(log := st.log + [I2cAttach(TryCreateSpec(v, known, t, c).value,
                                                SimpleAddrSize(t, c, 0, true, false).value.addr.value % 0x100, bus.value)]);
      GrowsMapped1(st0, TryCreateSpec(v, known, t, c), c);
    } else {
      GrowsMapped1(st, None, c);
    }
  }

  lemma AddDeviceNodeGrows(v: Variant, known: set<string>, st: State, t: Tree, n: int)
    requires Valid(t) && IsNode(t, n) && AddDeviceNodeSpec(v, known, st, t, n).Ok?
    ensures Grows(st, AddDeviceNodeSpec(v, known, st, t, n).value.0)
  {
    DispatchGrows(v, known, st, t, n, Classify(v, st.mapping, t, n).value);
  }

  lemma DispatchGrows(v: Variant, known: set<string>, st: State, t: Tree, n: int, rule: Rule)
    requires Valid(t) && IsNode(t, n) && Dispatch(v, known, st, t, n, rule).Ok?
    ensures Grows(st, Dispatch(v, known, st, t, n, rule).value.0)
  {
    match rule
    case I2cBus =>
      assert Dispatch(v, known, st, t, n, rule) == AddI2cBusSpec(v, known, st, t, n);
      I2cBusGrows(v, known, st, t, n);
    case SimpleDevice =>
      assert Dispatch(v, known, st, t, n, rule) == AddSimpleDeviceSpec(v, known, st, t, n);
      SimpleDeviceGrows(v, known, st, t, n);
    case _ =>
  }

  lemma I2cBusGrows(v: Variant, known: set<string>, st: State, t: Tree, n: int)
    requires Valid(t) && IsNode(t, n) && AddI2cBusSpec(v, known, st, t, n).Ok?
    ensures Grows(st, AddI2cBusSpec(v, known, st, t, n).value.0)
  {
    var bus := TryCreateSpec(v, known, t, n);
    var st0 := st.(log := st.log + (if bus.Some? then [Realize(bus.value)] else []));
    GrowsMapped1(st0, bus, n);
    I2cChildrenGrow(v, known, Mapped1(st0, bus, n), t, bus, Children(t, n), 0);
    GrowsTrans(st, Mapped1(st0, bus, n), AddI2cBusSpec(v, known, st, t, n).value.0);
  }

  /// The device an i2c child is mapped to: NULL without a bus device or a
  /// readable first `reg` address, otherwise whatever its compatible list
  /// creates.
  function I2cChildDev(v: Variant, known: set<string>, t: Tree, bus: Option<Dev>, c: int): Option<Dev>
    requires Valid(t) && IsNode(t, c)
  {
    if bus.None? || !SimpleAddrSize(t, c, 0, true, false).Ok? then None
    else TryCreateSpec(v, known, t, c)
  }

  /// The "address" property an i2c child is given: its first `reg`
  /// address cut to uint8_t.
  function I2cAddress(t: Tree, c: int): u8
    requires Valid(t) && IsNode(t, c) && SimpleAddrSize(t, c, 0, true, false).Ok?
  {
    SimpleAddrSize(t, c, 0, true, false).value.addr.value % 0x100
  }

  /// What the subnode loop of the i2c bus maps: each child from the i-th
  /// on finds its own entry, holding I2cChildDev; every other node finds
  /// what it found before.
  lemma {:induction false} I2cChildrenMap(v: Variant, known: set<string>, st: State, t: Tree, bus: Option<Dev>, kids: seq<int>, i: nat)
    requires Valid(t) && i <= |kids| && forall k | 0 <= k < |kids| :: IsNode(t, kids[k])
    requires forall k, l | 0 <= k < l < |kids| :: kids[k] < kids[l]
    requires I2cChildren(v, known, st, t, bus, kids, i).Ok?
    ensures var st' := I2cChildren(v, known, st, t, bus, kids, i).value;
      && (forall k | i <= k < |kids| ::
            Lookup(st'.mapping, kids[k]) == Some(Info(I2cChildDev(v, known, t, bus, kids[k]), [], 0)))
      && (forall x | x !in kids[i..] :: Lookup(st'.mapping, x) == Lookup(st.mapping, x))
    decreases |kids| - i
  {
    if i < |kids| {
      var c := kids[i];
      var st1 := I2cChild(v, known, st, t, bus, c).value;
      var st' := I2cChildren(v, known, st1, t, bus, kids, i + 1).value;
      assert I2cChildren(v, known, st, t, bus, kids, i).value == st';
      I2cChildMaps(v, known, st, t, bus, c);
      I2cChildrenMap(v, known, st1, t, bus, kids, i + 1);
      assert c !in kids[i + 1..];
      assert kids[i..] == [c] + kids[i + 1..];
    }
  }

  /// Every child from the i-th on that the subnode loop creates is
  /// attached to the bus at I2cAddress.
  lemma {:induction false} I2cChildrenAttach(v: Variant, known: set<string>, st: State, t: Tree, bus: Option<Dev>, kids: seq<int>, i: nat)
    requires Valid(t) && i <= |kids| && forall k | 0 <= k < |kids| :: IsNode(t, kids[k])
    requires I2cChildren(v, known, st, t, bus, kids, i).Ok?
    ensures forall k | i <= k < |kids| && I2cChildDev(v, known, t, bus, kids[k]).Some? ::
      I2cAttach(I2cChildDev(v, known, t, bus, kids[k]).value, I2cAddress(t, kids[k]), bus.value)
        in I2cChildren(v, known, st, t, bus, kids, i).value.log
    decreases |kids| - i
  {
    if i < |kids| {
      var c := kids[i];
      var st1 := I2cChild(v, known, st, t, bus, c).value;
      var log' := I2cChildren(v, known, st1, t, bus, kids, i + 1).value.log;
      assert I2cChildren(v, known, st, t, bus, kids, i).value.log == log';
      I2cChildrenAttach(v, known, st1, t, bus, kids, i + 1);
      forall k | i <= k < |kids| && I2cChildDev(v, known, t, bus, kids[k]).Some?
        ensures I2cAttach(I2cChildDev(v, known, t, bus, kids[k]).value, I2cAddress(t, kids[k]), bus.value) in log'
      {
        if k == i {
          I2cChildAttached(v, known, st, t, bus, c);
          I2cChildrenGrow(v, known, st1, t, bus, kids, i + 1);
          InPrefix(I2cAttach(I2cChildDev(v, known, t, bus, c).value, I2cAddress(t, c), bus.value), st1.log, log');
        }
      }
    }
  }

  lemma InPrefix<T>(e: T, a: seq<T>, b: seq<T>)
    requires e in a && a <= b
    ensures e in b
  {
    var j :| 0 <= j < |a| && a[j] == e;
    assert b[j] == e;
  }

  /// One child: when it is created, its attach event is in the log.
  lemma I2cChildAttached(v: Variant, known: set<string>, st: State, t: Tree, bus: Option<Dev>, c: int)
    requires Valid(t) && IsNode(t, c) && I2cChild(v, known, st, t, bus, c).Ok?
    requires I2cChildDev(v, known, t, bus, c).Some?
    ensures I2cAttach(I2cChildDev(v, known, t, bus, c).value, I2cAddress(t, c), bus.value)
      in I2cChild(v, known, st, t, bus, c).value.log
  {
    var e := I2cAttach(I2cChildDev(v, known, t, bus, c).value, I2cAddress(t, c), bus.value);
    assert I2cChild(v, known, st, t, bus, c).value.log == st.log + [e];
    assert e in st.log + [e];
  }

  /// One child: it finds its own entry, holding I2cChildDev; every other
  /// node finds what it found before.
  lemma I2cChildMaps(v: Variant, known: set<string>, st: State, t: Tree, bus: Option<Dev>, c: int)
    requires Valid(t) && IsNode(t, c) && I2cChild(v, known, st, t, bus, c).Ok?
    ensures forall x :: (Lookup(I2cChild(v, known, st, t, bus, c).value.mapping, x)
                         == if x == c then Some(Info(I2cChildDev(v, known, t, bus, c), [], 0)) else Lookup(st.mapping, x))
  {
    var d := I2cChildDev(v, known, t, bus, c);
    assert I2cChild(v, known, st, t, bus, c).value.mapping == [NewEntry(d, c)] + st.mapping;
    forall x
      ensures Lookup([NewEntry(d, c)] + st.mapping, x) == if x == c then Some(Info(d, [], 0)) else Lookup(st.mapping, x)
    {
      LookupAfterAdd(st.mapping, d, c, x);
    }
  }

  /// What the i2c bus builder maps and attaches: the bus node finds the
  /// bus device (NULL when it could not be created), realized when it
  /// exists; each subnode finds I2cChildDev and, when created, is attached
  /// to the bus at I2cAddress; no other node's lookup changes.
  lemma I2cBusMaps(v: Variant, known: set<string>, st: State, t: Tree, n: int)
    requires Valid(t) && IsNode(t, n) && AddI2cBusSpec(v, known, st, t, n).Ok?
    ensures var (st', bus) := AddI2cBusSpec(v, known, st, t, n).value;
      && bus == TryCreateSpec(v, known, t, n)
      && st.log + (if bus.Some? then [Realize(bus.value)] else []) <= st'.log
      && Lookup(st'.mapping, n) == Some(Info(bus, [], 0))
      && (forall c | c in Children(t, n) ::
            Lookup(st'.mapping, c) == Some(Info(I2cChildDev(v, known, t, bus, c), [], 0)))
      && (forall c | c in Children(t, n) && I2cChildDev(v, known, t, bus, c).Some? ::
            I2cAttach(I2cChildDev(v, known, t, bus, c).value, I2cAddress(t, c), bus.value) in st'.log)
      && (forall x | x != n && x !in Children(t, n) :: Lookup(st'.mapping, x) == Lookup(st.mapping, x))
  {
    var bus := TryCreateSpec(v, known, t, n);
    var st0 := st.(log := st.log + (if bus.Some? then [Realize(bus.value)] else []));
    var st1 := Mapped1(st0, bus, n);
    var kids := Children(t, n);
    assert kids == ChildrenFrom(t, n, n + 1);
    var st' := I2cChildren(v, known, st1, t, bus, kids, 0).value;
    I2cChildrenMap(v, known, st1, t, bus, kids, 0);
    I2cChildrenAttach(v, known, st1, t, bus, kids, 0);
    I2cChildrenGrow(v, known, st1, t, bus, kids, 0);
    assert kids[0..] == kids;
    assert n !in kids;
    forall x
      ensures Lookup(st1.mapping, x) == if x == n then Some(Info(bus, [], 0)) else Lookup(st.mapping, x)
    {
      LookupAfterAdd(st0.mapping, bus, n, x);
    }
    forall c | c in kids
      ensures Lookup(st'.mapping, c) == Some(Info(I2cChildDev(v, known, t, bus, c), [], 0))
      ensures I2cChildDev(v, known, t, bus, c).Some? ==>
        I2cAttach(I2cChildDev(v, known, t, bus, c).value, I2cAddress(t, c), bus.value) in st'.log
    {
      var k :| 0 <= k < |kids| && kids[k] == c;
    }
  }

  lemma SimpleDeviceGrows(v: Variant, known: set<string>, st: State, t: Tree, n: int)
    requires Valid(t) && IsNode(t, n) && AddSimpleDeviceSpec(v, known, st, t, n).Ok?
    ensures Grows(st, AddSimpleDeviceSpec(v, known, st, t, n).value.0)
  {
  }

  lemma {:induction false} ScanNodeGrows(v: Variant, known: set<string>, st: State, t: Tree, n: int)
    requires Valid(t) && IsNode(t, n) && ScanNodeSpec(v, known, st, t, n).Ok?
    ensures Grows(st, ScanNodeSpec(v, known, st, t, n).value)
    decreases |t.nodes| - n, 1
  {
    var st1 := st;
    if |Strings(t, n, "compatible")| > 0 {
      AddDeviceNodeGrows(v, known, st, t, n);
      st1 := AddDeviceNodeSpec(v, known, st, t, n).value.0;
    }
    ScanChildrenGrows(v, known, st1, t, n, Children(t, n), 0);
    GrowsTrans(st, st1, ScanNodeSpec(v, known, st, t, n).value);
  }

  lemma {:induction false} ScanChildrenGrows(v: Variant, known: set<string>, st: State, t: Tree, n: int, kids: seq<int>, i: nat)
    requires Valid(t) && IsNode(t, n) && i <= |kids| && KidsOf(t, n, kids)
    requires ScanChildrenSpec(v, known, st, t, n, kids, i).Ok?
    ensures Grows(st, ScanChildrenSpec(v, known, st, t, n, kids, i).value)
    decreases |t.nodes| - n, 0, |kids| - i
  {
    if i < |kids| {
      var r := ScanNodeSpec(v, known, st, t, kids[i]);
      ScanNodeGrows(v, known, st, t, kids[i]);
      ScanChildrenGrows(v, known, r.value, t, n, kids, i + 1);
      GrowsTrans(st, r.value, ScanChildrenSpec(v, known, st, t, n, kids, i).value);
    }
  }

  /// A method's outcome matches a builder's value: a fault where the value
  /// faults, otherwise the device returned and the state left behind.
  predicate Agrees(r: Result<Option<Dev>>, st: State, spec: Result<(State, Option<Dev>)>)
  {
    && (r.Fault? <==> spec.Fault?)
    && (r.Ok? <==> spec.Ok?)
    && (r.Ok? ==> spec.value == (st, r.value))
  }

  /// The same for a step that returns nothing but the state.
  predicate Follows(r: Result<()>, st: State, spec: Result<State>)
  {
    && (r.Fault? <==> spec.Fault?)
    && (r.Ok? <==> spec.Ok?)
    && (r.Ok? ==> spec.value == st)
  }

  /// One pass of the subnode loop of mch_fdt_add_i2c_bus /
  /// machine_dtb_add_i2c_bus.
  method AddI2cChild(s: DynamicState, v: Variant, known: set<string>, t: Tree, bus: Option<Dev>, c: int) returns (r: Result<()>)
    requires Valid(t) && IsNode(t, c)
    modifies s
    ensures Follows(r, s.Value(), I2cChild(v, known, old(s.Value()), t, bus, c))
  {
    if bus.None? {
      var _ := s.AddMapping(None, c);
      return Ok(());
    }
    var reg := SimpleAddrSize(t, c, 0, true, false);
    if reg.Fault? {
      return Fault(reg.reason);
    }
    if !reg.Ok? {
      var _ := s.AddMapping(None, c);
      return Ok(());
    }
    var child := TryCreate(v, known, t, c);
    if child.Some? {
      var addr: u8 := reg.value.addr.value % 0x100;
      s.log := s.log + [I2cAttach(child.value, addr, bus.value)];
    }
    var _ := s.AddMapping(child, c);
    return Ok(());
  }

  /// mch_fdt_add_i2c_bus / machine_dtb_add_i2c_bus
  method AddI2cBus(s: DynamicState, v: Variant, known: set<string>, t: Tree, n: int) returns (r: Result<Option<Dev>>)
    requires Valid(t) && IsNode(t, n)
    modifies s
    ensures Agrees(r, s.Value(), AddI2cBusSpec(v, known, old(s.Value()), t, n))
  {
    var dev := TryCreate(v, known, t, n);
    if dev.Some? {
      s.log := s.log + [Realize(dev.value)];
    }
    var _ := s.AddMapping(dev, n);
    ghost var st1 := s.Value();
    assert st1 == Mapped1(old(s.Value()).(log := old(s.log) + (if dev.Some? then [Realize(dev.value)] else [])), dev, n);
    var step := AddI2cChildren(s, v, known, t, dev, Children(t, n));
    ghost var rest := I2cChildren(v, known, st1, t, dev, Children(t, n), 0);
    assert AddI2cBusSpec(v, known, old(s.Value()), t, n) ==
      if rest.Fault? then Fault(rest.reason) else Ok((rest.value, dev));
    if step.Fault? {
      return Fault(step.reason);
    }
    return Ok(dev);
  }

  /// The subnode loop of the i2c bus builder.
  method AddI2cChildren(s: DynamicState, v: Variant, known: set<string>, t: Tree, bus: Option<Dev>, kids: seq<int>) returns (r: Result<()>)
    requires Valid(t) && forall k | 0 <= k < |kids| :: IsNode(t, kids[k])
    modifies s
    ensures Follows(r, s.Value(), I2cChildren(v, known, old(s.Value()), t, bus, kids, 0))
  {
    var i := 0;
    while i < |kids|
      invariant 0 <= i <= |kids|
      invariant I2cChildren(v, known, s.Value(), t, bus, kids, i) == I2cChildren(v, known, old(s.Value()), t, bus, kids, 0)
    {
      var step := AddI2cChild(s, v, known, t, bus, kids[i]);
      if step.Fault? {
        return Fault(step.reason);
      }
      i := i + 1;
    }
    return Ok(());
  }

  /// The sysbus_mmio_map loop of the simple-device builder.
  method MapRegions(s: DynamicState, d: Dev, regs: seq<(u64, u64)>)
    modifies s
    ensures s.Value() == old(s.Value()).(log := old(s.log) + MmioEvents(d, regs, 0))
  {
    var i := 0;
    while i < |regs|
      invariant 0 <= i <= |regs|
      invariant s.log + MmioEvents(d, regs, i) == old(s.log) + MmioEvents(d, regs, 0)
      invariant s.mapping == old(s.mapping) && s.numClocks == old(s.numClocks)
    {
      assert MmioEvents(d, regs, i) == [MmioMap(d, i, regs[i].0)] + MmioEvents(d, regs, i + 1);
      s.log := s.log + [MmioMap(d, i, regs[i].0)];
      i := i + 1;
    }
  }

  /// mch_fdt_add_simple_device / machine_dtb_add_simple_device
  method AddSimpleDevice(s: DynamicState, v: Variant, known: set<string>, t: Tree, n: int) returns (r: Result<Option<Dev>>)
    requires Valid(t) && IsNode(t, n)
    modifies s
    ensures Agrees(r, s.Value(), AddSimpleDeviceSpec(v, known, old(s.Value()), t, n))
  {
    var dev := TryCreate(v, known, t, n);
    if dev.None? {
      return Ok(None);
    }
    var regs := ForEachRegProp(t, n);
    if regs.Fault? {
      return Fault(regs.reason);
    }
    s.log := s.log + [Realize(dev.value)];
    MapRegions(s, dev.value, regs.value);
    return Ok(dev);
  }

  /// mch_fdt_add_device_node / machine_dtb_add_device_node
  method AddDeviceNode(s: DynamicState, v: Variant, known: set<string>, t: Tree, n: int) returns (r: Result<Option<Dev>>)
    requires Valid(t) && IsNode(t, n)
    modifies s
    ensures Agrees(r, s.Value(), AddDeviceNodeSpec(v, known, old(s.Value()), t, n))
  {
    var info := s.FindMapping(n);
    if info.Some? {
      return Ok(info.value.dev);
    }
    var rule := Classify(v, s.mapping, t, n);
    if rule.Fault? {
      return Fault(rule.reason);
    }
    r := DispatchRule(s, v, known, t, n, rule.value);
  }

  /// The builder calls of mch_fdt_add_device_node for a classified node.
  method DispatchRule(s: DynamicState, v: Variant, known: set<string>, t: Tree, n: int, rule: Rule) returns (r: Result<Option<Dev>>)
    requires Valid(t) && IsNode(t, n)
    modifies s
    ensures Agrees(r, s.Value(), Dispatch(v, known, old(s.Value()), t, n, rule))
  {
    ghost var st := s.Value();
    match rule {
      case Mapped(d) =>
        return Ok(d);
      case ClockSource =>
        if v == FdtMch {
          s.numClocks := s.numClocks + 1;
        }
        return Ok(None);
      case I2cBus =>
        assert Dispatch(v, known, st, t, n, rule) == AddI2cBusSpec(v, known, st, t, n);
        r := AddI2cBus(s, v, known, t, n);
      case SimpleDevice =>
        assert Dispatch(v, known, st, t, n, rule) == AddSimpleDeviceSpec(v, known, st, t, n);
        r := AddSimpleDevice(s, v, known, t, n);
      case _ =>
        return Ok(None);
    }
  }

  /// mch_fdt_scan_node / machine_dtb_scan_node
  method ScanNode(s: DynamicState, v: Variant, known: set<string>, t: Tree, n: int) returns (r: Result<()>)
    requires Valid(t) && IsNode(t, n)
    modifies s
    ensures Follows(r, s.Value(), ScanNodeSpec(v, known, old(s.Value()), t, n))
    decreases |t.nodes| - n, 1
  {
    if |Strings(t, n, "compatible")| > 0 {
      var dev := AddDeviceNode(s, v, known, t, n);
      if dev.Fault? {
        return Fault(dev.reason);
      }
    }
    r := ScanChildren(s, v, known, t, n, Children(t, n));
  }

  /// The fdt_for_each_subnode loop of the scan.
  method ScanChildren(s: DynamicState, v: Variant, known: set<string>, t: Tree, n: int, kids: seq<int>) returns (r: Result<()>)
    requires Valid(t) && IsNode(t, n) && KidsOf(t, n, kids)
    modifies s
    ensures Follows(r, s.Value(), ScanChildrenSpec(v, known, old(s.Value()), t, n, kids, 0))
    decreases |t.nodes| - n, 0
  {
    var i := 0;
    while i < |kids|
      invariant 0 <= i <= |kids|
      invariant ScanChildrenSpec(v, known, s.Value(), t, n, kids, i) == ScanChildrenSpec(v, known, old(s.Value()), t, n, kids, 0)
    {
      var sub := ScanNode(s, v, known, t, kids[i]);
      if sub.Fault? {
        return Fault(sub.reason);
      }
      i := i + 1;
    }
    return Ok(());
  }

  /// machine_dtb_parse_init's CPU rate: `timebase-frequency` when it is one
  /// cell, 200000000 Hz otherwise.
  function DtbCpuFrequency(t: Tree, n: int): (hz: u32)
    requires IsNode(t, n)
    ensures GetPropCell(t, n, "timebase-frequency").None? ==> hz == 200000000
    ensures GetPropCell(t, n, "timebase-frequency").Some? ==> hz == t.nodes[n].cells["timebase-frequency"][0]
  {
    match GetPropCell(t, n, "timebase-frequency")
    case Some(f) => f
    case None => 200000000
  }
}
