# Device-tree machine builder: a Dafny model

This project models the logic at the core of QEMU's device-tree-driven machine
(`fdt-mch`, and the older `dtb-machine` it grew from). The builder reads a
flattened device tree and turns it into a machine. The initialisation runs
these stages:

- **Scan.** It walks the nodes that have `compatible` strings and classifies
  each. Only the simple-device and i2c paths create anything: a simple device
  whose `compatible` names a known type, and an i2c bus with its subnodes.
  Bus, controller and clock nodes yield NULL; a clock node is only counted.
  Only an i2c bus node and its subnodes are recorded in the node-to-device
  mapping list. So after a scan, phase 2 of the clock tree
  (`Clocks.SkippedConsumer`), the interrupt builder and the GPIO builder
  find only i2c-mapped devices.
- **Clock tree.** It gives every `#clock-cells` node a clock, links derived
  clocks to their source, and connects device clock inputs.

Two further stages are written but not yet run: nothing calls them. The
initialisation in `fdt-mch.c` calls only the clock builder after the scan
(`hw/core/fdt-mch.c:521`) and then exits. `dtb-machine.c` runs only the scan.

- **Interrupt tree.** It sizes and allocates every interrupt controller's input
  table, then connects each consumer to the controller it inherits through
  `interrupt-parent`.
- **GPIO.** It wires GPIO outputs to consumer inputs, row by row of each
  consumer's `gpios`.

Underneath the stages sit the cell codec and the `reg` reader. This reader
implements sections 2.3.5 and 2.3.6 of the Devicetree Specification v0.3. Next
to it are the compatible-string helpers.

The parsed tree is the datatype `Fdt.Tree`:

- Nodes sit in document order; a node's offset is its index.
- Each node has a parent offset and a name.
- Each node has cell properties and string-list properties.
- A phandle table maps phandles to nodes.

The libfdt primitives the source calls are stated over this tree, not
implemented over the blob. These are `fdt_getprop`, `fdt_parent_offset`,
`fdt_next_node`, `fdt_node_offset_by_phandle`, the `#address-cells` and
`#size-cells` readers, and the string-list readers.

The builder's `DynamicState` is the class `Machine.DynamicState`. It holds:

- the mapping list, as a `seq` that `AddMapping` prepends to;
- the clock count;
- the clock table, as an `array`;
- a log of the calls made into QEMU's device API.

The calls logged are realize, MMIO map, i2c attach, clock input, irq connect
and gpio connect.

QEMU's device creation (`qdev_try_new`) is an oracle: it succeeds exactly for
the type names in a set `known`. Every C call ends in one of three outcomes:

- `Ok`: a value;
- `Err`: an early error code;
- `Fault`: a failed `g_assert` or undefined behaviour. Examples are a read past
  an array, a division by zero, an uninitialised variable and a loop that never
  ends.

Each imperative stage is written twice:

- as a `method` over the class and its arrays, with loops and invariants;
- as a specification function, which the method is proved equal to. The
  properties of the source are lemmas about these functions.

Where the source misbehaves, the function beside the method is the corrected
behaviour. The behaviour as written is a second function, with a lemma that
exhibits the difference (see "## Findings").

Modules and files:

- `fdt.dfy`, module `Fdt`: the tree and the libfdt primitives.
- `codec.dfy`, module `Codec`: the cell codec, the `reg` reader and the node and
  `reg` iteration macros.
- `compat.dfy`, module `Compat`: the compatible-string helpers, the blocklist and
  the fixup name test.
- `state.dfy`, module `Machine`: the `DynamicState` class and the mapping list.
- `devices.dfy`, module `Devices`: device creation, the node classifier of both
  builders, the i2c bus and simple-device builders, and the scan.
- `clock.dfy`, module `Clocks`: the clock tree builder and the derived-clock
  callback.
- `intc.dfy`, module `Interrupts`: interrupt-parent lookup and the interrupt tree
  builder.
- `gpio.dfy`, module `Gpio`: GPIO wiring.

## Model

| member | source | states |
|---|---|---|
| Fdt.NodesWithProp | include/hw/fdt-mch/fdt-mch.h:84-87 | the nodes `fdt_for_each_node_with_prop` visits are nodes of the tree |
| Fdt.NodesWithPropExact | include/hw/fdt-mch/fdt-mch.h:84-87 | the walk from offset i visits exactly the nodes at or after i that carry the property, each one, in strictly increasing document order |
| Codec.BigEndianSmall | hw/core/fdt-mch-util.c:30-46 | zero, one or two cells read big-endian are 0, c0, or c0·2^32+c1, and always fit in 64 bits |
| Codec.DecodeCells | hw/core/fdt-mch-util.c:30-46 | `_fdt_read_cells` fails with BADNCELLS exactly when n > 2; otherwise it gives 0, c0 or c0·2^32+c1 for n = 0, 1, 2 |
| Codec.ReadCells | hw/core/dtb-machine.c:70-86 | the accumulating loop of `_fdt_read_cells` (both copies) computes DecodeCells |
| Codec.ReadLong | include/hw/fdt-mch/fdt-mch.h:112-119 | the shift-and-or loop of `fdt_read_long` yields the big-endian value of the first `size` cells, mod 2^64 |
| Codec.TruncatedBigEndian | include/hw/fdt-mch/fdt-mch.h:112-119 | that value is 0 for no cells, c0 for one, and the last two cells as c·2^32+c' for two or more |
| Codec.ReadArrayU32 | include/hw/fdt-mch/fdt-mch.h:90-109 | the read succeeds exactly when the cell property exists and idx < its cell count, giving cell idx; otherwise -1 |
| Codec.ReadEntry | hw/core/fdt-mch-util.c:128-141 | an entry read fails with BADNCELLS exactly when a requested field is wider than two cells; otherwise each requested field is the big-endian value of its cells (address at [base, base+ac), size at [base+ac, base+ac+sc)) |
| Codec.SimpleAddrSize | hw/core/fdt-mch-util.c:78-142 | `fdt_simple_addr_size` fails only with NOTFOUND, BADNCELLS or BADVALUE; success needs `reg` and fills exactly the requested outputs |
| Codec.RegErrorOrder | hw/core/fdt-mch-util.c:86-111 | in order: a missing `reg` is NOTFOUND, the root (no parent) is BADNCELLS, and a failing `#address-cells` or `#size-cells` lookup passes its BADNCELLS on |
| Codec.NotFoundBeforeBadValue | hw/core/fdt-mch-util.c:113-126 | an index at or past len/stride is NOTFOUND, even when the length is not a multiple of the stride; an in-range index on such a length is BADVALUE |
| Codec.RegSuccess | hw/core/fdt-mch-util.c:128-139 | on a well-formed `reg`, entry idx lies inside the property and reads as ReadEntry at cell stride·idx |
| Codec.RegIndexBound | hw/core/fdt-mch-util.c:113-118 | an index that reads successfully names cells inside `reg` |
| Codec.FaultIffZeroStride | hw/core/fdt-mch-util.c:113-116 | the reader faults (division by zero) exactly when a non-root node has `reg` and its parent has `#address-cells` = `#size-cells` = 0 |
| Codec.EncodeCellsDecodes | hw/core/fdt-mch-util.c:30-46 | a value that fits in one or two cells, written big-endian, reads back as itself |
| Codec.RegRoundTrip | hw/core/fdt-mch-util.c:113-139 | a `reg` written from (address, size) pairs with 1- or 2-cell fields reads back the idx-th pair |
| Codec.EntryRoundTrip | hw/core/fdt-mch-util.c:128-139 | the entry at cell stride·idx of an encoded `reg` decodes to the pair written there |
| Codec.RegPastEnd | hw/core/fdt-mch-util.c:116-118 | the index one past the last encoded entry is NOTFOUND, so iteration stops there |
| Codec.NodeOffsetByProp | hw/core/fdt-mch-util.c:144-160 | the result is the first node strictly after the start that has the property, or NOTFOUND when none does |
| Codec.ForEachNodeWithProp | include/hw/fdt-mch/fdt-mch.h:84-87 | the macro's loop visits exactly NodesWithPropFrom(start+1) |
| Codec.RegVisitsFrom | include/hw/fdt-mch/fdt-mch.h:78-81 | the `reg` iteration never ends in an error code: it stops at the first failing index or faults |
| Codec.RegVisitsFromExact | include/hw/fdt-mch/fdt-mch.h:78-81 | the pairs visited are, in order, the pairs at idx 0, 1, … for which `fdt_simple_addr_size` succeeds, and the next index fails |
| Codec.RegVisitsExact | include/hw/dtb-parse/dtb-parse.h:60-63 | `fdt_for_each_reg_prop` faults exactly on a zero stride; otherwise it visits the pairs at idx 0, 1, … up to the first failure |
| Codec.ForEachRegProp | include/hw/fdt-mch/fdt-mch.h:78-81 | the loop computes RegVisits |
| Compat.IndexOf | hw/core/fdt-mch-clock.c:127-131 | the position of the first occurrence, with no occurrence before it; the length when there is none (`strchr` for the vendor prefix, and the node_map searches, which report num_clocks when the node is absent) |
| Compat.StripCompatSuffix | include/hw/dtb-parse/dtb-parse.h:66-74 | `str_fdt_compat_strip` / `strip_compat_string`: the result is a suffix of the input; it is strictly shorter exactly when the input has a ','; the character before it is then the first ','; with no ',' the input is returned unchanged |
| Compat.SubstChars | include/hw/fdt-mch/fdt-mch.h:133-147 | same length; every src becomes dst and every other character is kept |
| Compat.SubstCompat | include/hw/fdt-mch/fdt-mch.h:133-147 | the copying loop fills a fresh NUL-terminated buffer with SubstChars of the input |
| Compat.CutAt | include/hw/fdt-mch/fdt-mch.h:133-147 | rewriting src to NUL cuts the C string at the first src |
| Compat.Blocklist | hw/core/fdt-mch.c:48-61 | -1 exactly when the name begins with "pl050", 0 otherwise |
| Compat.DtbBlocklistAsWritten | hw/core/dtb-machine.c:188-200 | the older blocklist returns a value (-1) only for names beginning with "pl050" |
| Compat.DtbBlocklistMissingReturn | hw/core/dtb-machine.c:188-200 | for "pl011" the older blocklist returns nothing, where the intended answer is 0 |
| Compat.FixupPrefix | hw/core/fdt-mch.c:70-82 | for every name, the downstream link is set exactly when its first four characters are "pl08" (`strncmp(dev_id, "pl08x", 4)`); Devices.TryCompatCreates states that the fixup sees the stripped name |
| Compat.FixupExamples | hw/core/fdt-mch.c:70-82 | the downstream link is set for names whose first four characters are "pl08", and not for "pl050" or a name shorter than four |
| Machine.FindIndex | hw/core/fdt-mch-util.c:175-189 | the walk from the head stops at the first entry for the node, and finds none exactly when no entry is for it |
| Machine.LookupAfterAdd | hw/core/fdt-mch-util.c:162-189 | after an add the node finds the entry just added (its dev, possibly NULL); every other node finds what it found before |
| Machine.DynamicState.constructor | hw/core/fdt-mch.c:393-420 | the state the init code starts the scan from: an empty mapping list, no clocks counted, no clock table, an empty log |
| Machine.DynamicState.AddMapping | hw/core/fdt-mch-util.c:162-173 | always returns 0; the new entry is prepended without a duplicate check and the old list is kept behind it |
| Machine.DynamicState.SetInfo | hw/core/fdt-mch-intc.c:94-111 | a store through the info a find returned replaces just that first entry for the node |
| Machine.DynamicState.FindMapping | hw/core/dtb-machine.c:168-182 | returns the info of the most recently added entry for the node, or None (-1) |
| Machine.FindFirst | hw/core/fdt-mch-util.c:175-189 | the first entry for the node is the one the walk stops at |
| Devices.TryCompatCreates | hw/core/fdt-mch.c:92-118 | one compatible entry yields nothing if blocklisted; otherwise the stripped name if known, else (fdt-mch.c only) its '-'→'_' variant; the fixup sees the stripped name; dtb-machine.c never uses the variant |
| Devices.Candidates | hw/core/fdt-mch.c:92-119 | one try per compatible entry, in order |
| Devices.FirstSomeFirst | hw/core/fdt-mch.c:92-120 | the candidate loop yields nothing exactly when no entry yields a device, otherwise the device of the first entry that does |
| Devices.MissingCompatible | hw/core/fdt-mch.c:88-92 | with a `compatible` property the code as written and the corrected version agree; without one the code as written faults and the corrected one creates nothing |
| Devices.TryCreate | hw/core/dtb-machine.c:223-250 | the loop returns the first device the entries yield (TryCreateSpec), for either builder |
| Devices.TryEntry | hw/core/fdt-mch.c:96-118 | one pass of the loop body computes TryCompat |
| Devices.BusByName | hw/core/fdt-mch.c:300-319 | the name test yields only an i2c or spi bus |
| Devices.Classify | hw/core/fdt-mch.c:250-344 | the classifier never returns an error code (only a rule, or a fault on strstr(NULL)) |
| Devices.GpioBeforeIntc | hw/core/fdt-mch.c:322-330 | a plain node with both controller properties is a gpio controller, in both builders |
| Devices.BusesBeforeControllers | hw/core/fdt-mch.c:273-319 | an unmapped node (not a clock node in fdt-mch.c) is a bus exactly when a bus test passes (pci/soc device_type, subnodes with `ranges`, or the i2c/spi name test), whatever controller properties it has; pci wins, then soc, then `ranges`; subnodes without `ranges` or `compatible` fault in strstr before any controller test |
| Devices.ClockPrecedence | hw/core/dtb-machine.c:396-492 | in fdt-mch.c an unmapped `#clock-cells` node is a clock source whatever else it has; in dtb-machine.c a gpio controller wins over it, and it is a clock source only after the controller tests fail |
| Devices.VariantsAgree | hw/core/dtb-machine.c:396-492 | without `#clock-cells` the two classifiers give the same rule |
| Devices.AlreadyMapped | hw/core/fdt-mch.c:261-265 | a node already mapped gives back its recorded dev and changes nothing |
| Devices.ClockNodeCounted | hw/core/fdt-mch.c:267-271 | an unmapped `#clock-cells` node adds exactly 1 to num_clocks, yields NULL and changes nothing else |
| Devices.SimpleDeviceNotCreated | hw/core/dtb-machine.c:388-394 | a simple device that cannot be created yields NULL and leaves the state alone |
| Devices.MmioEvents | hw/core/fdt-mch.c:242-245 | one MMIO mapping per `reg` entry: region k at the address of entry k |
| Devices.ScanSkipsWithoutCompatible | hw/core/fdt-mch.c:346-365 | a node without compatible strings (no `compatible` property, or an empty list whose count is 0) is not classified; the scan goes straight to its subnodes |
| Devices.I2cChildGrows | hw/core/fdt-mch.c:157-183 | one i2c child only prepends to the mapping list and appends to the log |
| Devices.I2cChildrenGrow | hw/core/fdt-mch.c:154-183 | the i2c bus's subnode loop only prepends mapping entries and appends events |
| Devices.I2cBusGrows | hw/core/fdt-mch.c:132-186 | the i2c bus builder keeps every earlier mapping entry and event |
| Devices.I2cChildrenMap | hw/core/fdt-mch.c:156-182 | after the subnode loop each child finds its own entry: NULL without a bus device or a readable first `reg` address, else what its compatible list creates; no other node's lookup changes |
| Devices.I2cChildrenAttach | hw/core/fdt-mch.c:163-179 | every child the subnode loop creates is attached to the bus with its first `reg` address cut to uint8_t |
| Devices.I2cBusMaps | hw/core/fdt-mch.c:132-186 | the bus node finds the bus device (NULL when creation failed), realized when it exists; every subnode finds its child device as in I2cChildrenMap, and a created one is attached at its truncated address as in I2cChildrenAttach; every other node's lookup is unchanged |
| Devices.SimpleDeviceGrows | hw/core/fdt-mch.c:225-248 | the simple-device builder only appends to the log |
| Devices.DispatchGrows | hw/core/fdt-mch.c:273-340 | every builder a rule selects keeps the old mapping list as a suffix, the old log as a prefix, and never lowers num_clocks |
| Devices.AddDeviceNodeGrows | hw/core/fdt-mch.c:250-344 | the same for the classifier and its builder together |
| Devices.ScanNodeGrows | hw/core/fdt-mch.c:346-365 | the whole recursive scan only adds mapping entries at the front, events at the end and clocks to the count |
| Devices.ScanChildrenGrows | hw/core/dtb-machine.c:494-513 | the same for the subnode loop |
| Devices.AddI2cChild | hw/core/fdt-mch.c:157-183 | one pass of the subnode loop: with no bus the child is mapped to NULL; a child with no `reg` address is mapped to NULL; otherwise it is created, given the address cut to uint8_t, attached, and mapped |
| Devices.AddI2cBus | hw/core/dtb-machine.c:270-324 | the bus is created and realized if possible, mapped, then every child follows I2cChild in order |
| Devices.AddI2cChildren | hw/core/fdt-mch.c:157-183 | the subnode loop computes I2cChildren over the children in document order |
| Devices.MapRegions | hw/core/dtb-machine.c:380-383 | the `reg` loop appends exactly MmioEvents and changes nothing else |
| Devices.AddSimpleDevice | hw/core/dtb-machine.c:363-386 | create; if created, realize and map every `reg` region; NULL and no change otherwise |
| Devices.AddDeviceNode | hw/core/fdt-mch.c:250-344 | the method returns the dev and leaves the state AddDeviceNodeSpec gives: classify, then run the chosen builder |
| Devices.DispatchRule | hw/core/fdt-mch.c:273-340 | each rule runs its builder: clock nodes counted (fdt-mch.c only), i2c bus and simple device built, every stub yields NULL |
| Devices.ScanNode | hw/core/fdt-mch.c:346-365 | the recursive scan leaves the state ScanNodeSpec gives: classify nodes with compatible strings, then scan every subnode in order |
| Devices.ScanChildren | hw/core/dtb-machine.c:494-513 | the subnode loop of the scan computes ScanChildrenSpec |
| Devices.DtbCpuFrequency | hw/core/dtb-machine.c:599-609 | a CPU without a one-cell `timebase-frequency` runs at 200000000 Hz, otherwise at the cell's value |
| Clocks.DerivedRate | hw/core/fdt-mch-clock.c:55-65 | the intended rate faults exactly when div is 0 |
| Clocks.OverflowTest | hw/core/fdt-mch-clock.c:58 | f > UINT64_MAX / mult (mult ≠ 0) holds exactly when f·mult does not fit in 64 bits |
| Clocks.ClockCallback | hw/core/fdt-mch-clock.c:49-66 | the step-by-step update of new_freq computes DerivedRate |
| Clocks.ExactRate | hw/core/fdt-mch-clock.c:61-64 | without overflow the rate is floor(f·mult/div): r·div ≤ f·mult < (r+1)·div |
| Clocks.QuarterRate | hw/core/fdt-mch-clock.c:55-65 | 100 MHz with mult 1 and div 4 gives 25 MHz |
| Clocks.UnitFactor | hw/core/fdt-mch-clock.c:171-172 | the default factor mult = div = 1 passes the source rate through |
| Clocks.AsWrittenAgreesUnlessMissed | hw/core/fdt-mch-clock.c:58-64 | the wrap test as written has no false alarms; the written and intended arithmetic agree except on an overflow it misses |
| Clocks.MissedOverflow | hw/core/fdt-mch-clock.c:58-64 | f = 2^63+1, mult 3, div 2 wraps undetected; as written the rate is 2^62+1, intended 3·2^62 |
| Clocks.CallbackAlwaysAborts | hw/core/fdt-mch-clock.c:54 | the written callback aborts on every call; the intended one sets a rate whenever div ≠ 0 |
| Clocks.NewClocks | hw/core/fdt-mch-clock.c:86-107 | one new clock per clock node, in order |
| Clocks.Phase1 | hw/core/fdt-mch-clock.c:82-107 | phase 1 never returns an error code; its tables hold exactly num_clocks slots |
| Clocks.Phase1At | hw/core/fdt-mch-clock.c:86-107 | slot k holds the k-th `#clock-cells` node in document order and its clock (rate from `clock-frequency` read over len/4 cells, else 0); the slots after the last clock node stay NULL and 0 |
| Clocks.Phase1Fails | hw/core/fdt-mch-clock.c:91 | phase 1 faults exactly when the tree has more clock nodes than were counted (the assertion lets idx reach num_clocks, a write one past the end) |
| Clocks.ClockNodeFound | hw/core/fdt-mch-clock.c:125-133 | after phase 1 every clock node finds its own slot, which holds the clock made for it |
| Clocks.RootFindsEmptySlot | hw/core/fdt-mch-clock.c:155-161 | with fewer clock nodes than counted, a phandle resolving to the root (not a clock) finds the first unused slot, whose clock is NULL; one scan never counts more clock nodes than the tree has, so this describes a count handed in from elsewhere |
| Clocks.FillClockTable | hw/core/fdt-mch-clock.c:86-107 | the phase-1 loop over the arrays faults exactly when Phase1 does, and otherwise leaves the tables Phase1 gives |
| Clocks.ReadRate | hw/core/fdt-mch-clock.c:95-103 | the `clock-frequency` read gives SourceRate: the property over len/4 cells, or 0 when absent |
| Clocks.SearchNodeMap | hw/core/fdt-mch-clock.c:155-159 | the search loop with break computes IndexOf |
| Clocks.OneCellFactor | hw/core/fdt-mch-clock.c:179-182 | `clock-mult = <4>` is read past its end as written; read over its one cell it gives 4 |
| Clocks.FactorAgreement | hw/core/fdt-mch-clock.c:179-186 | the factor reader as written agrees with the corrected one exactly when the property is absent or empty |
| Clocks.InputNameFallback | hw/core/fdt-mch-clock.c:196-203 | without a k-th clock name the input is the node name up to its first '@' (the whole name when it has none) |
| Clocks.LinkOne | hw/core/fdt-mch-clock.c:163-208 | linking one cell never returns an error code and keeps the size of the clock table |
| Clocks.LinkCellsFrom | hw/core/fdt-mch-clock.c:147-209 | the cell loop never returns an error code and keeps the size of the clock table |
| Clocks.LinkNode | hw/core/fdt-mch-clock.c:118-209 | the body of phase 2 for one node never returns an error code and keeps the size of the clock table |
| Clocks.Phase2 | hw/core/fdt-mch-clock.c:118-210 | phase 2 never returns an error code and keeps the size of the clock table |
| Clocks.BuildClockTreeSpec | hw/core/fdt-mch-clock.c:68-213 | the build never returns an error code; on success the clock table has num_clocks slots |
| Clocks.DeviceLinks | hw/core/fdt-mch-clock.c:191-207 | a device consumer changes no clock and appends one clock-input connection per `clocks` cell, in cell order: the slot the cell's phandle resolves to, under InputName |
| Clocks.DerivedLinks | hw/core/fdt-mch-clock.c:163-190 | a derived clock logs nothing and changes only its own slot; that slot keeps its name and rate and gets the last cell's slot as source and the node's factor |
| Clocks.UnresolvedPhandle | hw/core/fdt-mch-clock.c:152-160 | a `clocks` phandle that resolves to no clock node stops the build at the assertion |
| Clocks.SkippedConsumer | hw/core/fdt-mch-clock.c:134-145 | a non-clock consumer that is unmapped or mapped to NULL changes nothing |
| Clocks.Phase2KeepsLog | hw/core/fdt-mch-clock.c:118-210 | phase 2 keeps every earlier event at the front of the log |
| Clocks.NodeKeepsLog | hw/core/fdt-mch-clock.c:118-209 | one node of phase 2 keeps every earlier event at the front of the log |
| Clocks.Link | hw/core/fdt-mch-clock.c:163-208 | linking to the parent in slot ni computes LinkOne over the clock table and the log, changing nothing else |
| Clocks.LinkCell | hw/core/fdt-mch-clock.c:150-208 | one pass of the cell loop (parent search, then link) is one step of LinkCellsFrom |
| Clocks.ReadFactorCells | hw/core/fdt-mch-clock.c:179-186 | the corrected factor read: 1 when the property is absent, otherwise its value over len/4 cells, cut to uint32_t |
| Clocks.LinkCells | hw/core/fdt-mch-clock.c:147-209 | the cell loop computes LinkCellsFrom over the clock table and the log |
| Clocks.LinkConsumer | hw/core/fdt-mch-clock.c:119-209 | one node of phase 2 computes LinkNode |
| Clocks.LinkClocks | hw/core/fdt-mch-clock.c:118-210 | the phase-2 loop computes Phase2 |
| Clocks.BuildClockTree | hw/core/fdt-mch-clock.c:68-213 | with no clock counted, nothing changes; otherwise fresh zero-filled tables, phase 1 and phase 2, as BuildClockTreeSpec; the mapping list and the count are untouched |
| Interrupts.IntcParent | hw/core/fdt-mch-intc.c:39-56 | a nonnegative answer is a node of the tree |
| Interrupts.IntcParentAgrees | hw/core/fdt-mch-intc.c:43-55 | the loop as written either hangs or returns IntcParent; it hangs only where IntcParent refers to no node (interrupt-parent 0) |
| Interrupts.ZeroParentHangs | hw/core/fdt-mch-intc.c:43-53 | `interrupt-parent = <0>` on the node makes the loop as written spin for ever |
| Interrupts.PathToRoot | hw/core/fdt-mch-intc.c:47 | the path starts at the node, ends at the root, and each step goes to the parent |
| Interrupts.NearestInterruptParent | hw/core/fdt-mch-intc.c:43-55 | inheritance: while no node on the way up carries `interrupt-parent` the answer is that of the ancestor; the first node carrying it decides, through its phandle |
| Interrupts.NoInterruptParent | hw/core/fdt-mch-intc.c:47-51 | with no `interrupt-parent` up to the root the answer is NOTFOUND |
| Interrupts.GetIntcParentNode | hw/core/fdt-mch-intc.c:39-56 | the walk up the tree computes IntcParent |
| Interrupts.SizeFrom | hw/core/fdt-mch-intc.c:85-96 | the sizing loop never returns an error code |
| Interrupts.ConnectFrom | hw/core/fdt-mch-intc.c:114-134 | the connection loop never returns an error code |
| Interrupts.ControllerStep | hw/core/fdt-mch-intc.c:64-134 | the body for one controller never returns an error code |
| Interrupts.InterruptTree | hw/core/fdt-mch-intc.c:58-137 | the build never returns an error code |
| Interrupts.SizeCovers | hw/core/fdt-mch-intc.c:85-96 | the size only grows and ends above every irq of every consumer whose interrupt parent is the controller |
| Interrupts.SizeStable | hw/core/fdt-mch-intc.c:85-96 | from a size that already covers every irq, sizing keeps it; the count does not depend on the starting size |
| Interrupts.SizeIdempotent | hw/core/fdt-mch-intc.c:85-96 | sizing again from the size it produced gives the same size and count |
| Interrupts.ConnectSound | hw/core/fdt-mch-intc.c:114-134 | the earlier log is kept; every connection comes from a mapped consumer whose interrupt parent is the controller: its output 0 goes to input irq of the controller, with irq inside the table |
| Interrupts.ConnectComplete | hw/core/fdt-mch-intc.c:114-134 | every consumer whose interrupt parent is the controller, that is mapped to a device and whose irq is readable, gets its output 0 connected to input irq of the controller |
| Interrupts.ConnectInBounds | hw/core/fdt-mch-intc.c:132-133 | when the size covers every consumer's irq the loop never reads past the end of the table |
| Interrupts.ControllerTable | hw/core/fdt-mch-intc.c:103-111 | a connected controller's entry holds exactly num inputs, input k of its device at k, with num covering every irq; its device and every other entry are kept |
| Interrupts.SkippedController | hw/core/fdt-mch-intc.c:70-77 | a controller that is unmapped or mapped to NULL changes nothing |
| Interrupts.ControllersKeep | hw/core/fdt-mch-intc.c:64-135 | the controller loop keeps the clock count, the earlier log and the length of the mapping list |
| Interrupts.ControllerCellUnread | hw/core/fdt-mch-intc.c:92-93 | as written, a controller with no `interrupts` cell of its own and a consumer reads the uninitialised irq |
| Interrupts.SizeIsMax | hw/core/fdt-mch-intc.c:94 | as written, the size ends at the max irq v (not v+1) once a consumer is seen |
| Interrupts.SizeStaysAt | hw/core/fdt-mch-intc.c:85-96 | as written, a size already at v stays at v |
| Interrupts.ConnectPastEnd | hw/core/fdt-mch-intc.c:132-133 | as written, with size v the first consumer reads irqs[v], one past the end |
| Interrupts.SizeIrqs | hw/core/fdt-mch-intc.c:85-96 | the sizing loop computes SizeFrom |
| Interrupts.AllocateInputs | hw/core/fdt-mch-intc.c:108-111 | a fresh table of exactly num entries, entry k = input k of the device |
| Interrupts.ConnectOne | hw/core/fdt-mch-intc.c:115-133 | one pass of the connection loop is one step of ConnectFrom |
| Interrupts.ConnectIrqs | hw/core/fdt-mch-intc.c:114-134 | the connection loop computes ConnectFrom and changes only the log |
| Interrupts.BuildController | hw/core/fdt-mch-intc.c:65-134 | the body for one controller computes ControllerStep |
| Interrupts.BuildInterruptTree | hw/core/fdt-mch-intc.c:58-137 | the build computes InterruptTree |
| Gpio.ReadArrayCell | hw/core/fdt-mch-gpio.c:82-91 | the cell read succeeds exactly when the column is inside the row and the cell inside the property, giving cell row·width+col; -1 otherwise |
| Gpio.RowHasPhandle | hw/core/fdt-mch-gpio.c:77-83 | every row the iteration visits has its phandle cell |
| Gpio.RowsFrom | hw/core/fdt-mch-gpio.c:77-96 | the row loop never returns an error code |
| Gpio.ConsumersFrom | hw/core/fdt-mch-gpio.c:65-97 | the consumer loop never returns an error code |
| Gpio.ControllerStep | hw/core/fdt-mch-gpio.c:45-97 | the body for one controller never returns an error code |
| Gpio.ControllersFrom | hw/core/fdt-mch-gpio.c:44-98 | the controller loop never returns an error code |
| Gpio.ConnectGpio | hw/core/fdt-mch-gpio.c:38-100 | GPIO wiring never changes the mapping list or the clock count |
| Gpio.RowsSound | hw/core/fdt-mch-gpio.c:77-96 | the earlier log is kept; every connection goes from the controller's output g to the consumer's input `row`, for a row whose phandle names the controller and whose gpio cell is g |
| Gpio.RowsComplete | hw/core/fdt-mch-gpio.c:77-96 | every matching row is connected: the controller's output g to the consumer's input `row` |
| Gpio.ForeignRowSkipped | hw/core/fdt-mch-gpio.c:85-87 | a row whose phandle does not name the controller makes no connection |
| Gpio.NoGpioCells | hw/core/fdt-mch-gpio.c:47-62 | a controller without `#gpio-cells` has rows of width 0 and connects nothing |
| Gpio.UnmappedConsumerSkipped | hw/core/fdt-mch-gpio.c:70-74 | a consumer with no mapping entry is skipped |
| Gpio.SkippedController | hw/core/fdt-mch-gpio.c:52-59 | a controller that is unmapped or mapped to NULL connects nothing |
| Gpio.ConsumersAsWritten | hw/core/fdt-mch-gpio.c:65-97 | the consumer loop as written never returns an error code |
| Gpio.RowsAsWritten | hw/core/fdt-mch-gpio.c:77-96 | the row loop as written never returns an error code |
| Gpio.AsWrittenSelfLoop | hw/core/fdt-mch-gpio.c:71-95 | as written, every connection a controller makes goes from its own output to its own input |
| Gpio.RowsSelfLoop | hw/core/fdt-mch-gpio.c:82-95 | as written, the row loop for the controller's own device connects only the controller to itself |
| Gpio.ControllerGpiosUnread | hw/core/fdt-mch-gpio.c:82-83 | as written, a mapped controller without `gpios` of its own reads an uninitialised phandle for the first consumer row |
| Gpio.ConnectRows | hw/core/fdt-mch-gpio.c:77-96 | the row loop computes RowsFrom and changes only the log |
| Gpio.ConnectConsumer | hw/core/fdt-mch-gpio.c:66-96 | one pass of the consumer loop is one step of ConsumersFrom |
| Gpio.ConnectConsumers | hw/core/fdt-mch-gpio.c:65-97 | the consumer loop computes ConsumersFrom |
| Gpio.ConnectController | hw/core/fdt-mch-gpio.c:45-97 | the body for one controller computes ControllerStep |
| Gpio.ConnectAll | hw/core/fdt-mch-gpio.c:38-100 | `mch_fdt_connect_gpio` computes ConnectGpio |

## Left out

- The flattened-tree blob format and libfdt itself are not modelled. `fdt_getprop`, the parent, next-node, phandle and cell-count readers, and the string-list readers are stated over `Fdt.Tree`. A property is either cells or strings: cell readers see only cell properties, string readers only string lists.
- `fdt_getprop_cell`, `qemu_fdt_getprop_cell`, `fdt_for_each_cell_array`, `fdt_getprop_array_cell` and `fdt_getprop_array_u32` are called but not defined in the repository. The model gives them these meanings:
  - `fdt_getprop_cell` (`Fdt.GetPropCell`) succeeds exactly when the property holds one cell, and stores that cell. Otherwise it returns a negative code and leaves the out-parameter as it was. `Interrupts.IntcParent`, `Interrupts.ZeroParentHangs`, `Interrupts.IrqCell` and the gpio row width rest on this meaning.
  - `qemu_fdt_getprop_cell` is read the same way: it yields the cell when the property holds exactly one, and otherwise sets `len` negative. This is what gives `Devices.DtbCpuFrequency` its 200000000 default for a `timebase-frequency` that is absent or not one cell long.
  - A row width of 0 visits no rows.
  - A column outside the row fails.
  - `fdt_getprop_array_u32` behaves as `fdt_read_array_u32`.
- QEMU's object and device API is not modelled: device creation and realize, MMIO mapping, the i2c attach, the clock API and the GPIO and IRQ connections. Device creation is an oracle (the set `known`), and the rest are events appended to a log.
- QEMU's own checks (`error_abort`, type casts) are left out. Among them is `clock_set_source`'s refusal to re-parent a clock: for a derived clock with two or more `clocks` cells, Clocks.DerivedLinks lets the last cell's slot become the source, which is what the loop asks for, not what QEMU would accept. So are the propagation of a derived clock's rate to its consumers and clock periods. `clock_get` in the callback is taken as the source rate.
- The stub builders (pci, spi, generic bus, interrupt controller, gpio controller, clocksource and dummy) create nothing and yield NULL. The model gives exactly that.
- The interrupt tree builder (`mch_fdt_build_interrupt_tree`, `hw/core/fdt-mch-intc.c:58`) and the GPIO wiring (`mch_fdt_connect_gpio`, `hw/core/fdt-mch-gpio.c:38`) have no caller, and `include/hw/fdt-mch/fdt-mch.h:64` declares only the clock builder. They are modelled as written, as stages that would run after the clock tree. Both files also use names the header does not declare. `hw/core/fdt-mch-intc.c:94`, `:104`, `:108` and `:109` use `info->num_irqs`, but `struct device_fdt_info` calls the field `num_intr` (`include/hw/fdt-mch/fdt-mch.h:54`). `hw/core/fdt-mch-gpio.c:46` and `:67` use `FDTDevInfo`, which is defined nowhere. The model reads `num_irqs` as `num_intr` (`Machine.Info.numIrqs`) and `FDTDevInfo` as `struct device_fdt_info` (`Machine.Info`).
- Machine bootstrap is left out: `mch_fdt_parse_init` and `machine_dtb_parse_init` load files, call `exit(1)`, register RAM and machine properties, and create CPUs. Only the CPU timebase default is kept (`Devices.DtbCpuFrequency`).
- The architecture hooks (`hw/mips`, `hw/arm`, `hw/microblaze`, `hw/ppc`) and `fdt-mch-internal.h` are left out: they are thin wrappers and a declaration.
- `pr_debug` logging and `g_free` are left out; neither has observable effect.
- The parent device argument of the scan and of the i2c builder is unused by the code, so it is not modelled.
- `num_clocks` is a `nat`. An `unsigned` count could wrap only after 2^32 clock nodes.
- `include/hw/fdt-mch/fdt-mch.h:68` declares `mch_fdt_dev_find_mapping` as returning the entry. `hw/core/fdt-mch-util.c:175` defines it with an `int` result and an out-parameter. The classifier (`hw/core/fdt-mch.c:261`), the interrupt builder (`hw/core/fdt-mch-intc.c:66` and `:123`) and the GPIO builder (`hw/core/fdt-mch-gpio.c:46` and `:71`) use the header's form. The clock builder (`hw/core/fdt-mch-clock.c:136`) uses the util form and skips the node on a non-zero result. The model's `Machine.DynamicState.FindMapping` returns the entry's info or None, which serves both: None stands for the NULL entry and for the non-zero result.
- A `reg_stride` of 0 divides by zero at `hw/core/fdt-mch-util.c:116`. The model keeps this as a `Fault` (`Codec.FaultIffZeroStride`), and the iteration over `reg` faults with it.
- Phase 1 of the clock builder writes one slot past the end of both tables when the tree holds more clock nodes than the scan counted. The assertion at `hw/core/fdt-mch-clock.c:91` allows this. The model makes it a `Fault` (`Clocks.Phase1Fails`).
- Devices.Classify: the `ensures` only rules out an error code. The precedence is stated by the lemmas AlreadyMapped, ClockNodeCounted, ClockPrecedence, BusesBeforeControllers, GpioBeforeIntc and VariantsAgree.
- Interrupts.SizeFrom, Interrupts.ConnectFrom, Interrupts.ControllerStep, Interrupts.InterruptTree, Gpio.RowsFrom, Gpio.ConsumersFrom, Gpio.ControllerStep and Gpio.ControllersFrom: each `ensures` only rules out an error code. What they compute is stated by the lemmas beside them, and the methods are proved equal to them.
- Clocks.LinkOne, Clocks.LinkCellsFrom, Clocks.LinkNode, Clocks.Phase2 and Clocks.BuildClockTreeSpec: each `ensures` states only that no error code is returned and the table size is kept. What they compute is stated by DeviceLinks, DerivedLinks, UnresolvedPhandle, SkippedConsumer and the log lemmas.

## Findings

| source | as written | input that shows it | evidently intended | confidence | as-written member | corrected member |
|---|---|---|---|---|---|---|
| hw/core/fdt-mch-clock.c:54 | `g_assert(!param)` aborts whenever the callback gets its (always non-NULL) parameters | any derived clock whose source rate changes | `g_assert(param)` | not executed | Clocks.CallbackAlwaysAborts | Clocks.ClockCallback |
| hw/core/fdt-mch-clock.c:181,185 | `fdt_read_long(val, len)` passes the byte length as the cell count | `clock-mult = <4>`: 4 cells are read from a 1-cell property | `fdt_read_long(val, len / 4)`, as at line 97 | not executed | Clocks.OneCellFactor | Clocks.ReadFactorCells |
| hw/core/fdt-mch-clock.c:58 | the wrap test `new_freq * mult < new_freq` misses overflows | f = 2^63+1, mult = 3, div = 2 sets 2^62+1 | detect f·mult ≥ 2^64 (f > UINT64_MAX / mult) | not executed | Clocks.MissedOverflow | Clocks.ExactRate |
| hw/core/fdt-mch-intc.c:92-93,123,128-129 | the irq is read from the controller `node`, not the consumer `offset`; the consumer's mapping is looked up with `node` | a controller without `interrupts` of its own and one consumer: the irq is read uninitialised | read `interrupts` from and look up the mapping of `offset` | not executed | Interrupts.ControllerCellUnread | Interrupts.ConnectSound |
| hw/core/fdt-mch-intc.c:94,133 | `num_irqs = MAX(num_irqs, irq)` sizes the table to the max irq | one consumer with irq v: the table has v entries and `irqs[v]` is read | `MAX(num_irqs, irq + 1)` | not executed | Interrupts.ConnectPastEnd | Interrupts.ConnectInBounds |
| hw/core/fdt-mch-intc.c:43-53 | the do-while loop repeats while `parent_intc == 0`, without moving up | `interrupt-parent = <0>` on a consumer: the loop never ends | stop at the first node carrying the property | not executed | Interrupts.ZeroParentHangs | Interrupts.GetIntcParentNode |
| hw/core/fdt-mch-gpio.c:71,82,90 | the consumer's mapping and its `gpios` cells are taken from the controller `node`, not from `offset` | any mapped controller: it is wired to itself, or reads an uninitialised phandle when it has no `gpios` | use `offset` in all three calls | not executed | Gpio.AsWrittenSelfLoop | Gpio.RowsSound |
| hw/core/dtb-machine.c:188-200 | the blocklist falls off the end without `return 0` | `"pl011"`: the value returned is undefined | `return 0` after the loop, as in hw/core/fdt-mch.c:60 | not executed | Compat.DtbBlocklistMissingReturn | Compat.Blocklist |
| hw/core/fdt-mch.c:88-92 | `compat_num` is unsigned, so `fdt_stringlist_count`'s negative error becomes a huge count | an i2c child with `reg` but no `compatible`: `strchr(NULL, ',')` | treat a negative count as no candidates | not executed | Devices.MissingCompatible | Devices.TryCreate |
