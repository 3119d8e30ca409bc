/// The clock tree builder of hw/core/fdt-mch-clock.c: phase 1 gives every
/// `#clock-cells` node a slot in s->clocks, phase 2 links derived clocks to
/// their source and devices to their input clocks, and the update callback
/// recomputes a derived clock's rate from its source.
module Clocks {
  import opened Fdt
  import opened Codec
  import opened Compat
  import opened Machine

  // ---------------------------------------------------------------------
  // The rate update callback (mch_fdt_clock_cb)
  // ---------------------------------------------------------------------

  /// f·mult does not fit in a uint64_t.
  predicate Overflows(f: u64, mult: u32)
  {
    f * mult >= U64_MOD
  }

  /// The wrap test of the callback as written: the 64-bit product is below f.
  predicate WrapTestAsWritten(f: u64, mult: u32)
  {
    (f * mult) % U64_MOD < f
  }

  /// mch_fdt_clock_cb as written: g_assert(!param) aborts whenever param is
  /// non-NULL, and the builder always registers a g_malloc0'd param.
  function ClockCallbackAsWritten(f: u64, fa: Factor): (r: Result<u64>)
  {
    Fault("g_assert(!param) fails for the parameters the builder registered")
  }

  /// The arithmetic that follows the assertion, as written: the wrap test
  /// decides between divide-first and multiply-first, both on uint64_t.
  function DerivedRateAsWritten(f: u64, fa: Factor): (r: Result<u64>)
  {
    if fa.div == 0 then Fault("division by zero")
    else if WrapTestAsWritten(f, fa.mult) then Ok(((f / fa.div) * fa.mult) % U64_MOD)
    else Ok(((f * fa.mult) % U64_MOD) / fa.div)
  }

  /// The rate the callback is meant to set: floor(f·mult/div) when the
  /// product fits, otherwise the divide-first fallback, wrapping mod 2^64.
  function DerivedRate(f: u64, fa: Factor): (r: Result<u64>)
    ensures r.Fault? <==> fa.div == 0
    ensures !r.Err?
  {
    if fa.div == 0 then Fault("division by zero")
    else if Overflows(f, fa.mult) then Ok(((f / fa.div) * fa.mult) % U64_MOD)
    else
      QuotientFits(f * fa.mult, fa.div);
      Ok((f * fa.mult) / fa.div)
  }

  lemma QuotientFits(x: nat, d: nat)
    requires d >= 1
    ensures x / d <= x
  {
    var q := x / d;
    assert q * d + x % d == x;
    MulMonotone(1, d, q);
  }

  /// The overflow test a uint64_t program can make without overflowing:
  /// f > UINT64_MAX / mult, which holds exactly when f·mult >= 2^64.
  lemma {:induction false} OverflowTest(f: u64, mult: u32)
    ensures (mult != 0 && f > (U64_MOD - 1) / mult) <==> Overflows(f, mult)
  {
    if mult != 0 {
      var q := (U64_MOD - 1) / mult;
      assert q * mult + (U64_MOD - 1) % mult == U64_MOD - 1;
      if f > q {
        MulMonotone(q + 1, f, mult);
        assert (q + 1) * mult == q * mult + mult;
      } else {
        MulMonotone(f, q, mult);
      }
    }
  }

  /// The callback with the corrected overflow test, updating new_freq step
  /// by step as the source does.
  method ClockCallback(f: u64, fa: Factor) returns (r: Result<u64>)
    ensures r == DerivedRate(f, fa)
  {
    if fa.div == 0 {
      return Fault("division by zero");
    }
    var newFreq: u64 := f;
    OverflowTest(f, fa.mult);
    if fa.mult != 0 && newFreq > (U64_MOD - 1) / fa.mult {
      newFreq := newFreq / fa.div;
      newFreq := (newFreq * fa.mult) % U64_MOD;
    } else {
      newFreq := newFreq * fa.mult;
      QuotientFits(newFreq, fa.div);
      newFreq := newFreq / fa.div;
    }
    return Ok(newFreq);
  }

  /// Without overflow the rate is the exact floor of f·mult/div: r·div is
  /// at most f·mult, and the next multiple of div is above it.
  lemma ExactRate(f: u64, fa: Factor)
    requires fa.div != 0 && !Overflows(f, fa.mult)
    ensures DerivedRate(f, fa).Ok?
    ensures DerivedRate(f, fa).value * fa.div <= f * fa.mult < (DerivedRate(f, fa).value + 1) * fa.div
  {
    var x, d := f * fa.mult, fa.div as nat;
    var q := x / d;
    assert DerivedRate(f, fa).value == q;
    assert q * d + x % d == x;
    assert (q + 1) * d == q * d + d;
  }

  /// A 100 MHz source divided by 4 gives 25 MHz.
  lemma QuarterRate()
    ensures DerivedRate(100_000_000, Factor(1, 4)) == Ok(25_000_000)
  {
    assert !Overflows(100_000_000, 1);
  }

  /// The default parameters (mult = div = 1) leave the source rate as is.
  lemma UnitFactor(f: u64)
    ensures DerivedRate(f, Factor(1, 1)) == Ok(f)
  {
  }

  /// The wrap test as written has no false alarms: when it fires the
  /// product did overflow. So the written arithmetic and the intended one
  /// differ only on an overflow the test misses.
  lemma {:induction false} AsWrittenAgreesUnlessMissed(f: u64, fa: Factor)
    requires !(Overflows(f, fa.mult) && !WrapTestAsWritten(f, fa.mult))
    ensures DerivedRateAsWritten(f, fa) == DerivedRate(f, fa)
  {
    if fa.mult != 0 {
      MulMonotone(1, fa.mult, f);
    }
  }

  /// An overflow the test misses: f = 2^63 + 1, mult = 3 wraps to
  /// 2^63 + 3, which is not below f. With div = 2 the written callback
  /// sets 2^62 + 1 where floor(f·3/2) = 3·2^62 + 1; the corrected one sets
  /// 3·2^62.
  lemma MissedOverflow()
    ensures Overflows(0x8000_0000_0000_0001, 3) && !WrapTestAsWritten(0x8000_0000_0000_0001, 3)
    ensures DerivedRateAsWritten(0x8000_0000_0000_0001, Factor(3, 2)) == Ok(0x4000_0000_0000_0001)
    ensures DerivedRate(0x8000_0000_0000_0001, Factor(3, 2)) == Ok(0xC000_0000_0000_0000)
  {
  }

  /// The written callback aborts on every call, where the corrected one
  /// sets a rate whenever div is nonzero.
  lemma CallbackAlwaysAborts(f: u64, fa: Factor)
    ensures ClockCallbackAsWritten(f, fa).Fault?
    ensures fa.div != 0 ==> DerivedRate(f, fa).Ok?
  {
  }

  // ---------------------------------------------------------------------
  // Phase 1: one slot per `#clock-cells` node
  // ---------------------------------------------------------------------

  /// The rate a clock node starts with: clock-frequency read over
  /// len / 4 cells (so mod 2^64), or 0 Hz when the property is absent.
  function SourceRate(t: Tree, n: int): (hz: u64)
    requires IsNode(t, n)
  {
    if HasProp(t, n, "clock-frequency") then BigEndian(Cells(t, n, "clock-frequency")) % U64_MOD else 0
  }

  /// The clock phase 1 creates for a clock node.
  function NewClock(t: Tree, n: int): Clock
    requires IsNode(t, n)
  {
    Clock(NodeName(t, n), SourceRate(t, n), None, None)
  }

  /// The zero-filled tables (g_new0) with the first |nodes| slots filled.
  function Padded<T>(filled: seq<T>, size: nat, zero: T): seq<T>
    requires |filled| <= size
  {
    filled + seq(size - |filled|, _ => zero)
  }

  function NewClocks(t: Tree, nodes: seq<int>): (r: seq<Clock>)
    requires forall k | 0 <= k < |nodes| :: IsNode(t, nodes[k])
    ensures |r| == |nodes|
    ensures forall k | 0 <= k < |nodes| :: r[k] == NewClock(t, nodes[k])
  {
    if nodes == [] then [] else NewClocks(t, nodes[..|nodes| - 1]) + [NewClock(t, nodes[|nodes| - 1])]
  }

  /// Phase 1: the k-th clock node in document order gets s->clocks[k] and
  /// node_map[k]; the other slots stay NULL and 0. The assertion tests
  /// idx <= num_clocks, so a clock node beyond the count is written one
  /// past the end of both tables before anything stops the loop.
  function Phase1(t: Tree, numClocks: nat): (r: Result<(seq<Clock>, seq<int>)>)
    requires Valid(t)
    ensures !r.Err?
    ensures r.Ok? ==> |r.value.0| == numClocks && |r.value.1| == numClocks
  {
    var nodes := NodesWithProp(t, "#clock-cells");
    if |nodes| > numClocks then Fault("s->clocks[num_clocks] written past the end")
    else Ok((Padded(NewClocks(t, nodes), numClocks, NoClock), Padded(nodes, numClocks, 0)))
  }

  /// Slot k of the phase-1 tables.
  lemma Phase1At(t: Tree, numClocks: nat)
    requires Valid(t) && Phase1(t, numClocks).Ok?
    ensures forall k | 0 <= k < numClocks ::
      && Phase1(t, numClocks).value.0[k] == (if k < |NodesWithProp(t, "#clock-cells")| then NewClock(t, NodesWithProp(t, "#clock-cells")[k]) else NoClock)
      && Phase1(t, numClocks).value.1[k] == (if k < |NodesWithProp(t, "#clock-cells")| then NodesWithProp(t, "#clock-cells")[k] else 0)
  {
  }

  /// Tables holding the clock nodes in document order, then empty slots,
  /// are what phase 1 produces.
  lemma Phase1Is(t: Tree, cs: seq<Clock>, nm: seq<int>)
    requires Valid(t) && |cs| == |nm| && |NodesWithProp(t, "#clock-cells")| <= |cs|
    requires forall k | 0 <= k < |NodesWithProp(t, "#clock-cells")| ::
      cs[k] == NewClock(t, NodesWithProp(t, "#clock-cells")[k]) && nm[k] == NodesWithProp(t, "#clock-cells")[k]
    requires forall k | |NodesWithProp(t, "#clock-cells")| <= k < |cs| :: cs[k] == NoClock && nm[k] == 0
    ensures Phase1(t, |cs|) == Ok((cs, nm))
  {
    Phase1At(t, |cs|);
    var want := Phase1(t, |cs|).value;
    assert cs == want.0;
    assert nm == want.1;
  }

  /// Phase 1 fails exactly when the tree holds more clock nodes than the
  /// classifier counted (it counts only nodes the scan reached).
  lemma Phase1Fails(t: Tree, numClocks: nat)
    requires Valid(t)
    ensures Phase1(t, numClocks).Fault? <==> |NodesWithProp(t, "#clock-cells")| > numClocks
  {
  }

  /// The linear searches over node_map (lines 127-131 and 155-159) stop at
  /// IndexOf: the first slot holding the node, or num_clocks when none
  /// does. The three facts of its contract determine it.
  lemma IndexOfUnique(m: seq<int>, x: int, k: nat)
    requires k <= |m| && (k < |m| ==> m[k] == x)
    requires forall j | 0 <= j < k :: m[j] != x
    ensures IndexOf(m, x) == k
  {
  }

  /// Every clock node finds its own slot, holding the clock phase 1 made
  /// for it: the search of line 127 never fails for a derived clock once
  /// phase 1 succeeded.
  lemma {:induction false} ClockNodeFound(t: Tree, numClocks: nat, n: int)
    requires Valid(t) && Phase1(t, numClocks).Ok?
    requires IsNode(t, n) && HasProp(t, n, "#clock-cells")
    ensures IndexOf(Phase1(t, numClocks).value.1, n) < numClocks
    ensures Phase1(t, numClocks).value.0[IndexOf(Phase1(t, numClocks).value.1, n)] == NewClock(t, n)
  {
    var nodes := NodesWithProp(t, "#clock-cells");
    NodesWithPropExact(t, "#clock-cells", 0);
    var (clocks, nodeMap) := Phase1(t, numClocks).value;
    assert n in nodes;
    var k :| 0 <= k < |nodes| && nodes[k] == n;
    assert nodeMap[k] == n;
    forall j | 0 <= j < k
      ensures nodeMap[j] != n
    {
      assert nodeMap[j] == nodes[j] < nodes[k];
    }
    IndexOfUnique(nodeMap, n, k);
  }

  /// An unused slot holds node 0, so when the table is not full and the
  /// root is no clock, a phandle that resolves to the root finds the first
  /// unused slot, whose clock is NULL. A table that is not full does not
  /// arise after one scan: num_clocks goes up once per unmapped
  /// #clock-cells node the scan visits, and it visits each node once, so
  /// it never exceeds the number of such nodes. The lemma describes the
  /// table for a count handed in from elsewhere.
  lemma {:induction false} RootFindsEmptySlot(t: Tree, numClocks: nat)
    requires Valid(t) && Phase1(t, numClocks).Ok?
    requires |NodesWithProp(t, "#clock-cells")| < numClocks && !HasProp(t, 0, "#clock-cells")
    ensures IndexOf(Phase1(t, numClocks).value.1, 0) == |NodesWithProp(t, "#clock-cells")|
    ensures Phase1(t, numClocks).value.0[|NodesWithProp(t, "#clock-cells")|] == NoClock
  {
    var nodes := NodesWithProp(t, "#clock-cells");
    NodesWithPropExact(t, "#clock-cells", 0);
    var (clocks, nodeMap) := Phase1(t, numClocks).value;
    forall j | 0 <= j < |nodes|
      ensures nodeMap[j] != 0
    {
      assert nodeMap[j] == nodes[j] && HasProp(t, nodes[j], "#clock-cells");
    }
    assert nodeMap[|nodes|] == 0;
    IndexOfUnique(nodeMap, 0, |nodes|);
  }

  /// Phase 1 over the arrays: fills slot idx for the idx-th clock node, in
  /// the order fdt_for_each_node_with_prop visits them.
  method FillClockTable(t: Tree, clocks: array<Clock>, nodeMap: array<int>) returns (r: Result<()>)
    requires Valid(t) && clocks.Length == nodeMap.Length
    requires forall k | 0 <= k < clocks.Length :: clocks[k] == NoClock && nodeMap[k] == 0
    modifies clocks, nodeMap
    ensures r.Fault? <==> Phase1(t, clocks.Length).Fault?
    ensures !r.Err?
    ensures r.Ok? ==> clocks[..] == Phase1(t, clocks.Length).value.0 && nodeMap[..] == Phase1(t, clocks.Length).value.1
  {
    var nodes := ForEachNodeWithProp(t, -1, "#clock-cells");
    assert nodes == NodesWithProp(t, "#clock-cells");
    var idx := 0;
    while idx < |nodes|
      invariant idx <= |nodes| && idx <= clocks.Length
      invariant forall k | 0 <= k < idx :: clocks[k] == NewClock(t, nodes[k]) && nodeMap[k] == nodes[k]
      invariant forall k | idx <= k < clocks.Length :: clocks[k] == NoClock && nodeMap[k] == 0
    {
      if idx == clocks.Length {
        // g_assert(idx <= s->num_clocks) lets this index through
        return Fault("s->clocks[num_clocks] written past the end");
      }
      var n := nodes[idx];
      var hz := ReadRate(t, n);
      clocks[idx] := Clock(NodeName(t, n), hz, None, None);
      nodeMap[idx] := n;
      idx := idx + 1;
    }
    Phase1Is(t, clocks[..], nodeMap[..]);
    return Ok(());
  }

  /// Lines 95-103: the clock-frequency read, over len / 4 cells.
  method ReadRate(t: Tree, n: int) returns (hz: u64)
    requires IsNode(t, n)
    ensures hz == SourceRate(t, n)
  {
    hz := 0;
    if HasProp(t, n, "clock-frequency") {
      var freq := Cells(t, n, "clock-frequency");
      hz := ReadLong(freq, |freq|);
      assert freq[..|freq|] == freq;
    }
  }

  /// The node_map search as a loop that breaks at the first match.
  method SearchNodeMap(nodeMap: array<int>, x: int) returns (k: nat)
    ensures k == IndexOf(nodeMap[..], x)
  {
    k := 0;
    while k < nodeMap.Length
      invariant k <= nodeMap.Length
      invariant forall j | 0 <= j < k :: nodeMap[j] != x
    {
      if nodeMap[k] == x {
        break;
      }
      k := k + 1;
    }
    IndexOfUnique(nodeMap[..], x, k);
  }

  // ---------------------------------------------------------------------
  // Phase 2: links
  // ---------------------------------------------------------------------

  /// What phase 2 changes: the clock table and the log of device API calls.
  datatype Links = Links(clocks: seq<Clock>, log: seq<Event>)

  /// A node with `clocks`: a derived clock (it also has `#clock-cells`),
  /// with the index of its own slot, or a device the scan created.
  datatype Consumer = DerivedClock(target: nat) | Device(dev: Dev)

  /// A fixed-factor parameter: 1 when the property is absent, otherwise the
  /// property read over len / 4 cells and cut to uint32_t.
  function ReadFactor(t: Tree, n: int, prop: string): (v: u32)
    requires IsNode(t, n)
  {
    if HasProp(t, n, prop) then BigEndian(Cells(t, n, prop)) % U64_MOD % CELL_BASE else 1
  }

  /// The factor reader as written: fdt_read_long is passed the byte length
  /// as a cell count, so it reads four times as many cells as the property
  /// holds; only an empty property is read within bounds (giving 0).
  function ReadFactorAsWritten(t: Tree, n: int, prop: string): (r: Result<u32>)
    requires IsNode(t, n)
  {
    if !HasProp(t, n, prop) then Ok(1)
    else if 4 * |Cells(t, n, prop)| <= |Cells(t, n, prop)| then Ok(0)
    else Fault("fdt_read_long reads past the end of the property")
  }

  /// clock-mult = <4> is read past its end as written; read over its one
  /// cell it gives 4.
  lemma OneCellFactor(t: Tree, n: int)
    requires IsNode(t, n) && "clock-mult" in t.nodes[n].cells && t.nodes[n].cells["clock-mult"] == [4]
    ensures ReadFactorAsWritten(t, n, "clock-mult").Fault?
    ensures ReadFactor(t, n, "clock-mult") == 4
  {
    BigEndianSmall([4]);
  }

  /// The factor reader agrees with the written one exactly when the
  /// property is absent or empty.
  lemma FactorAgreement(t: Tree, n: int, prop: string)
    requires IsNode(t, n)
    ensures ReadFactorAsWritten(t, n, prop) == Ok(ReadFactor(t, n, prop))
      <==> (Cells(t, n, prop) == [] || !HasProp(t, n, prop))
  {
  }

  /// The factor a derived clock is registered with.
  function FactorOf(t: Tree, n: int): Factor
    requires IsNode(t, n)
  {
    Factor(ReadFactor(t, n, "clock-mult"), ReadFactor(t, n, "clock-div"))
  }

  /// The input name a device's k-th clock is connected under:
  /// clock-names[k], or the node name cut at its first '@'.
  function InputName(t: Tree, n: int, k: nat): (name: string)
    requires IsNode(t, n)
  {
    var names := Strings(t, n, "clock-names");
    if k < |names| then names[k] else CString(SubstChars(NodeName(t, n), '@', '\0'))
  }

  /// Without a k-th clock name the input is the node name up to (not
  /// including) its first '@', the whole name when it has none.
  lemma InputNameFallback(t: Tree, n: int, k: nat)
    requires IsNode(t, n) && k >= |Strings(t, n, "clock-names")|
    ensures InputName(t, n, k) <= NodeName(t, n) && '@' !in InputName(t, n, k)
    ensures |InputName(t, n, k)| < |NodeName(t, n)| ==> NodeName(t, n)[|InputName(t, n, k)|] == '@'
  {
    var name := NodeName(t, n);
    CutAt(name, '@');
    IndexOfSpec(name, '@');
  }

  lemma IndexOfSpec(s: string, c: char)
    ensures IndexOf(s, c) <= |s| && c !in s[..IndexOf(s, c)]
    ensures IndexOf(s, c) < |s| ==> s[IndexOf(s, c)] == c
  {
  }

  /// One `clocks` cell whose phandle resolved to slot ni: a derived clock
  /// gets ni as its source and the node's factor; a device gets parent ni
  /// connected to its input. A NULL clock handed to the clock API faults.
  function LinkOne(t: Tree, n: int, c: Consumer, ni: nat, k: nat, acc: Links): (r: Result<Links>)
    requires IsNode(t, n) && ni < |acc.clocks|
    requires c.DerivedClock? ==> c.target < |acc.clocks|
    ensures !r.Err?
    ensures r.Ok? ==> |r.value.clocks| == |acc.clocks|
  {
    if acc.clocks[ni].NoClock? then Fault("NULL parent clock")
    else match c
      case DerivedClock(target) =>
        var old_ := acc.clocks[target];
        if old_.NoClock? then Fault("NULL target clock")
        else Ok(acc.(clocks := acc.clocks[target := old_.(source := Some(ni), factor := Some(FactorOf(t, n)))]))
      case Device(dev) =>
        Ok(acc.(log := acc.log + [ClockIn(dev, InputName(t, n, k), ni)]))
  }

  /// The loop over the `clocks` cells from cell k on: each phandle must
  /// resolve to a node in node_map (asserted), and links in cell order.
  function LinkCellsFrom(t: Tree, n: int, c: Consumer, nodeMap: seq<int>, k: nat, acc: Links): (r: Result<Links>)
    requires Valid(t) && IsNode(t, n) && |acc.clocks| == |nodeMap|
    requires c.DerivedClock? ==> c.target < |nodeMap|
    requires k <= |Cells(t, n, "clocks")|
    ensures !r.Err?
    ensures r.Ok? ==> |r.value.clocks| == |nodeMap|
    decreases |Cells(t, n, "clocks")| - k
  {
    var cells := Cells(t, n, "clocks");
    if k == |cells| then Ok(acc)
    else
      var ni := IndexOf(nodeMap, PhandleOffset(t, cells[k]));
      if ni == |nodeMap| then Fault("g_assert(node_idx < s->num_clocks) fails")
      else
        var step := LinkOne(t, n, c, ni, k, acc);
        if step.Fault? then step else LinkCellsFrom(t, n, c, nodeMap, k + 1, step.value)
  }

  /// The body of the phase-2 loop for one node with `clocks`: a derived
  /// clock finds its own slot (asserted); a device consumer is skipped when
  /// it is unmapped or mapped to NULL.
  function LinkNode(t: Tree, mapping: seq<Entry>, nodeMap: seq<int>, n: int, acc: Links): (r: Result<Links>)
    requires Valid(t) && IsNode(t, n) && |acc.clocks| == |nodeMap|
    ensures !r.Err?
    ensures r.Ok? ==> |r.value.clocks| == |nodeMap|
  {
    if HasProp(t, n, "#clock-cells") then
      var target := IndexOf(nodeMap, n);
      if target == |nodeMap| then Fault("g_assert(idx < s->num_clocks) fails")
      else LinkCellsFrom(t, n, DerivedClock(target), nodeMap, 0, acc)
    else match Lookup(mapping, n)
      case None => Ok(acc)
      case Some(info) =>
        if info.dev.None? then Ok(acc)
        else LinkCellsFrom(t, n, Device(info.dev.value), nodeMap, 0, acc)
  }

  /// Phase 2 from the i-th node with `clocks` on.
  function Phase2From(t: Tree, mapping: seq<Entry>, nodeMap: seq<int>, nodes: seq<int>, i: nat, acc: Links): (r: Result<Links>)
    requires Valid(t) && |acc.clocks| == |nodeMap| && i <= |nodes|
    requires forall j | 0 <= j < |nodes| :: IsNode(t, nodes[j])
    ensures !r.Err?
    ensures r.Ok? ==> |r.value.clocks| == |nodeMap|
    decreases |nodes| - i
  {
    if i == |nodes| then Ok(acc)
    else
      var step := LinkNode(t, mapping, nodeMap, nodes[i], acc);
      if step.Fault? then step else Phase2From(t, mapping, nodeMap, nodes, i + 1, step.value)
  }

  /// Phase 2: every node with `clocks`, in document order.
  function Phase2(t: Tree, mapping: seq<Entry>, nodeMap: seq<int>, acc: Links): (r: Result<Links>)
    requires Valid(t) && |acc.clocks| == |nodeMap|
    ensures !r.Err?
    ensures r.Ok? ==> |r.value.clocks| == |nodeMap|
  {
    Phase2From(t, mapping, nodeMap, NodesWithProp(t, "clocks"), 0, acc)
  }

  /// mch_fdt_build_clocktree for a nonzero clock count: phase 1, then
  /// phase 2 over every node with `clocks` in document order.
  function BuildClockTreeSpec(t: Tree, mapping: seq<Entry>, numClocks: nat, log: seq<Event>): (r: Result<Links>)
    requires Valid(t)
    ensures !r.Err?
    ensures r.Ok? ==> |r.value.clocks| == numClocks
  {
    match Phase1(t, numClocks)
    case Fault(reason) => Fault(reason)
    case Ok((clocks, nodeMap)) => Phase2(t, mapping, nodeMap, Links(clocks, log))
  }

  // ---------------------------------------------------------------------
  // What phase 2 does to each kind of consumer
  // ---------------------------------------------------------------------

  /// The slot the k-th `clocks` cell of n resolves to.
  function SlotOf(t: Tree, n: int, nodeMap: seq<int>, k: nat): nat
    requires Valid(t) && IsNode(t, n) && k < |Cells(t, n, "clocks")|
  {
    IndexOf(nodeMap, PhandleOffset(t, Cells(t, n, "clocks")[k]))
  }

  /// The connections a device gets from its `clocks` cells k and after:
  /// one per cell, in cell order, each under InputName and to the slot of
  /// the node the cell's phandle resolves to.
  function DeviceEvents(t: Tree, n: int, dev: Dev, nodeMap: seq<int>, k: nat): (r: seq<Event>)
    requires Valid(t) && IsNode(t, n) && k <= |Cells(t, n, "clocks")|
  {
    seq(|Cells(t, n, "clocks")| - k, i requires 0 <= i < |Cells(t, n, "clocks")| - k =>
      ClockIn(dev, InputName(t, n, k + i), SlotOf(t, n, nodeMap, k + i)))
  }

  /// A device consumer changes no clock and appends exactly DeviceEvents
  /// to the log.
  lemma {:induction false} DeviceLinks(t: Tree, n: int, dev: Dev, nodeMap: seq<int>, k: nat, acc: Links)
    requires Valid(t) && IsNode(t, n) && |acc.clocks| == |nodeMap|
    requires k <= |Cells(t, n, "clocks")|
    requires LinkCellsFrom(t, n, Device(dev), nodeMap, k, acc).Ok?
    ensures LinkCellsFrom(t, n, Device(dev), nodeMap, k, acc).value
      == acc.(log := acc.log + DeviceEvents(t, n, dev, nodeMap, k))
    decreases |Cells(t, n, "clocks")| - k
  {
    var cells := Cells(t, n, "clocks");
    if k < |cells| {
      var ni := SlotOf(t, n, nodeMap, k);
      var e := ClockIn(dev, InputName(t, n, k), ni);
      var next := acc.(log := acc.log + [e]);
      assert LinkOne(t, n, Device(dev), ni, k, acc) == Ok(next);
      assert LinkCellsFrom(t, n, Device(dev), nodeMap, k, acc) == LinkCellsFrom(t, n, Device(dev), nodeMap, k + 1, next);
      DeviceLinks(t, n, dev, nodeMap, k + 1, next);
      DeviceEventsStep(t, n, dev, nodeMap, k);
      assert acc.log + [e] + DeviceEvents(t, n, dev, nodeMap, k + 1) == acc.log + ([e] + DeviceEvents(t, n, dev, nodeMap, k + 1));
    }
  }

  lemma DeviceEventsStep(t: Tree, n: int, dev: Dev, nodeMap: seq<int>, k: nat)
    requires Valid(t) && IsNode(t, n) && k < |Cells(t, n, "clocks")|
    ensures DeviceEvents(t, n, dev, nodeMap, k)
      == [ClockIn(dev, InputName(t, n, k), SlotOf(t, n, nodeMap, k))] + DeviceEvents(t, n, dev, nodeMap, k + 1)
  {
  }

  /// A derived clock logs nothing and changes only its own slot; after a
  /// nonempty `clocks` list that slot keeps its name and rate and has the
  /// slot of the last cell's phandle as source, with the node's factor.
  lemma {:induction false} DerivedLinks(t: Tree, n: int, target: nat, nodeMap: seq<int>, k: nat, acc: Links)
    requires Valid(t) && IsNode(t, n) && |acc.clocks| == |nodeMap| && target < |nodeMap|
    requires k <= |Cells(t, n, "clocks")|
    requires LinkCellsFrom(t, n, DerivedClock(target), nodeMap, k, acc).Ok?
    ensures LinkCellsFrom(t, n, DerivedClock(target), nodeMap, k, acc).value.log == acc.log
    ensures forall j | 0 <= j < |nodeMap| && j != target ::
      LinkCellsFrom(t, n, DerivedClock(target), nodeMap, k, acc).value.clocks[j] == acc.clocks[j]
    ensures k < |Cells(t, n, "clocks")| ==>
      var c := LinkCellsFrom(t, n, DerivedClock(target), nodeMap, k, acc).value.clocks[target];
      && acc.clocks[target].Clock? && c.Clock?
      && c.name == acc.clocks[target].name && c.hz == acc.clocks[target].hz
      && c.source == Some(SlotOf(t, n, nodeMap, |Cells(t, n, "clocks")| - 1))
      && c.factor == Some(FactorOf(t, n))
    decreases |Cells(t, n, "clocks")| - k
  {
    var cells := Cells(t, n, "clocks");
    if k < |cells| {
      var ni := SlotOf(t, n, nodeMap, k);
      var step := LinkOne(t, n, DerivedClock(target), ni, k, acc);
      assert step.Ok?;
      DerivedLinks(t, n, target, nodeMap, k + 1, step.value);
    }
  }

  /// A `clocks` phandle that resolves to no node (or to a node outside
  /// node_map) stops the build at the assertion of line 160.
  lemma UnresolvedPhandle(t: Tree, n: int, c: Consumer, nodeMap: seq<int>, k: nat, acc: Links)
    requires Valid(t) && IsNode(t, n) && |acc.clocks| == |nodeMap|
    requires c.DerivedClock? ==> c.target < |nodeMap|
    requires k < |Cells(t, n, "clocks")|
    requires PhandleOffset(t, Cells(t, n, "clocks")[k]) !in nodeMap
    ensures LinkCellsFrom(t, n, c, nodeMap, k, acc).Fault?
  {
  }

  /// A consumer that is not a clock and has no device leaves everything
  /// as it was.
  lemma SkippedConsumer(t: Tree, mapping: seq<Entry>, nodeMap: seq<int>, n: int, acc: Links)
    requires Valid(t) && IsNode(t, n) && |acc.clocks| == |nodeMap|
    requires !HasProp(t, n, "#clock-cells")
    requires Lookup(mapping, n).None? || Lookup(mapping, n).value.dev.None?
    ensures LinkNode(t, mapping, nodeMap, n, acc) == Ok(acc)
  {
  }

  /// Phase 2 keeps the log's old events at its front.
  lemma {:induction false} Phase2KeepsLog(t: Tree, mapping: seq<Entry>, nodeMap: seq<int>, nodes: seq<int>, i: nat, acc: Links)
    requires Valid(t) && |acc.clocks| == |nodeMap| && i <= |nodes|
    requires forall j | 0 <= j < |nodes| :: IsNode(t, nodes[j])
    requires Phase2From(t, mapping, nodeMap, nodes, i, acc).Ok?
    ensures acc.log <= Phase2From(t, mapping, nodeMap, nodes, i, acc).value.log
    decreases |nodes| - i
  {
    if i < |nodes| {
      var n := nodes[i];
      var step := LinkNode(t, mapping, nodeMap, n, acc);
      NodeKeepsLog(t, mapping, nodeMap, n, acc);
      Phase2KeepsLog(t, mapping, nodeMap, nodes, i + 1, step.value);
    }
  }

  lemma NodeKeepsLog(t: Tree, mapping: seq<Entry>, nodeMap: seq<int>, n: int, acc: Links)
    requires Valid(t) && IsNode(t, n) && |acc.clocks| == |nodeMap|
    requires LinkNode(t, mapping, nodeMap, n, acc).Ok?
    ensures acc.log <= LinkNode(t, mapping, nodeMap, n, acc).value.log
  {
    if HasProp(t, n, "#clock-cells") {
      DerivedLinks(t, n, IndexOf(nodeMap, n), nodeMap, 0, acc);
    } else if Lookup(mapping, n).Some? && Lookup(mapping, n).value.dev.Some? {
      DeviceLinks(t, n, Lookup(mapping, n).value.dev.value, nodeMap, 0, acc);
    }
  }

  // ---------------------------------------------------------------------
  // The builder over DynamicState
  // ---------------------------------------------------------------------

  /// The link of lines 163-208 for a parent in slot ni.
  method Link(s: DynamicState, t: Tree, n: int, c: Consumer, ni: nat, k: nat) returns (r: Result<()>)
    requires IsNode(t, n) && ni < s.clocks.Length
    requires c.DerivedClock? ==> c.target < s.clocks.Length
    modifies s, s.clocks
    ensures s.clocks == old(s.clocks) && s.mapping == old(s.mapping) && s.numClocks == old(s.numClocks)
    ensures !r.Err?
    ensures var want := LinkOne(t, n, c, ni, k, Links(old(s.clocks[..]), old(s.log)));
      (r.Fault? <==> want.Fault?) && (r.Ok? ==> want.value == Links(s.clocks[..], s.log))
  {
    var parent := s.clocks[ni];
    if parent.NoClock? {
      return Fault("NULL parent clock");
    }
    match c {
      case DerivedClock(target) =>
        var mult := ReadFactorCells(t, n, "clock-mult");
        var div := ReadFactorCells(t, n, "clock-div");
        var clk := s.clocks[target];
        if clk.NoClock? {
          return Fault("NULL target clock");
        }
        s.clocks[target] := clk.(source := Some(ni), factor := Some(Factor(mult, div)));
      case Device(dev) =>
        var names := Strings(t, n, "clock-names");
        var name;
        if k < |names| {
          name := names[k];
        } else {
          var buf := SubstCompat(NodeName(t, n), '@', '\0');
          name := CString(buf[..]);
          assert buf[..] == SubstChars(NodeName(t, n), '@', '\0') + ['\0'];
          CStringStops(SubstChars(NodeName(t, n), '@', '\0'));
        }
        s.log := s.log + [ClockIn(dev, name, ni)];
    }
    return Ok(());
  }

  /// The body of the cell loop for one phandle: the parent search, then
  /// the link.
  method LinkCell(s: DynamicState, t: Tree, nodeMap: array<int>, n: int, c: Consumer, k: nat, ph: u32)
    returns (r: Result<()>)
    requires Valid(t) && IsNode(t, n) && s.clocks.Length == nodeMap.Length
    requires c.DerivedClock? ==> c.target < nodeMap.Length
    requires k < |Cells(t, n, "clocks")| && ph == Cells(t, n, "clocks")[k]
    modifies s, s.clocks
    ensures s.clocks == old(s.clocks) && s.mapping == old(s.mapping) && s.numClocks == old(s.numClocks)
    ensures !r.Err?
    ensures r.Fault? ==> LinkCellsFrom(t, n, c, nodeMap[..], k, Links(old(s.clocks[..]), old(s.log))).Fault?
    ensures r.Ok? ==> (LinkCellsFrom(t, n, c, nodeMap[..], k, Links(old(s.clocks[..]), old(s.log)))
      == LinkCellsFrom(t, n, c, nodeMap[..], k + 1, Links(s.clocks[..], s.log)))
  {
    ghost var acc := Links(s.clocks[..], s.log);
    var ref := PhandleOffset(t, ph);
    var ni := SearchNodeMap(nodeMap, ref);
    if ni == nodeMap.Length {
      return Fault("g_assert(node_idx < s->num_clocks) fails");
    }
    ghost var step := LinkOne(t, n, c, ni, k, acc);
    assert LinkCellsFrom(t, n, c, nodeMap[..], k, acc)
      == if step.Fault? then step else LinkCellsFrom(t, n, c, nodeMap[..], k + 1, step.value);
    r := Link(s, t, n, c, ni, k);
  }

  /// A NUL appended to a buffer does not change its C-string value.
  lemma {:induction false} CStringStops(s: string)
    ensures CString(s + ['\0']) == CString(s)
  {
    if s != [] && s[0] != '\0' {
      CStringStops(s[1..]);
      assert (s + ['\0'])[1..] == s[1..] + ['\0'];
    }
  }

  /// The fixed-factor read of lines 179-186, with the length in cells.
  method ReadFactorCells(t: Tree, n: int, prop: string) returns (v: u32)
    requires IsNode(t, n)
    ensures v == ReadFactor(t, n, prop)
  {
    v := 1;
    if HasProp(t, n, prop) {
      var cells := Cells(t, n, prop);
      var long := ReadLong(cells, |cells|);
      assert cells[..|cells|] == cells;
      v := long % CELL_BASE;
    }
  }

  /// The cell loop: fdt_read_array_u32 over `clocks` until it fails.
  method LinkCells(s: DynamicState, t: Tree, nodeMap: array<int>, n: int, c: Consumer) returns (r: Result<()>)
    requires Valid(t) && IsNode(t, n) && s.clocks.Length == nodeMap.Length
    requires c.DerivedClock? ==> c.target < nodeMap.Length
    modifies s, s.clocks
    ensures s.clocks == old(s.clocks) && s.mapping == old(s.mapping) && s.numClocks == old(s.numClocks)
    ensures !r.Err?
    ensures var want := LinkCellsFrom(t, n, c, nodeMap[..], 0, Links(old(s.clocks[..]), old(s.log)));
      (r.Fault? <==> want.Fault?) && (r.Ok? ==> want.value == Links(s.clocks[..], s.log))
  {
    ghost var nm := nodeMap[..];
    ghost var want := LinkCellsFrom(t, n, c, nm, 0, Links(s.clocks[..], s.log));
    var k := 0;
    var ph := ReadArrayU32(t, n, "clocks", k);
    while ph.Ok?
      invariant k <= |Cells(t, n, "clocks")| && ph == ReadArrayU32(t, n, "clocks", k)
      invariant s.clocks == old(s.clocks) && s.mapping == old(s.mapping) && s.numClocks == old(s.numClocks)
      invariant LinkCellsFrom(t, n, c, nm, k, Links(s.clocks[..], s.log)) == want
      decreases |Cells(t, n, "clocks")| - k
    {
      var step := LinkCell(s, t, nodeMap, n, c, k, ph.value);
      if step.Fault? {
        return step;
      }
      k := k + 1;
      ph := ReadArrayU32(t, n, "clocks", k);
    }
    return Ok(());
  }

  /// One node of the phase-2 loop.
  method LinkConsumer(s: DynamicState, t: Tree, nodeMap: array<int>, n: int) returns (r: Result<()>)
    requires Valid(t) && IsNode(t, n) && s.clocks.Length == nodeMap.Length
    modifies s, s.clocks
    ensures s.clocks == old(s.clocks) && s.mapping == old(s.mapping) && s.numClocks == old(s.numClocks)
    ensures !r.Err?
    ensures var want := LinkNode(t, s.mapping, nodeMap[..], n, Links(old(s.clocks[..]), old(s.log)));
      (r.Fault? <==> want.Fault?) && (r.Ok? ==> want.value == Links(s.clocks[..], s.log))
  {
    var c;
    if HasProp(t, n, "#clock-cells") {
      var idx := SearchNodeMap(nodeMap, n);
      if idx == nodeMap.Length {
        return Fault("g_assert(idx < s->num_clocks) fails");
      }
      c := DerivedClock(idx);
    } else {
      var info := s.FindMapping(n);
      if info.None? || info.value.dev.None? {
        return Ok(());
      }
      c := Device(info.value.dev.value);
    }
    r := LinkCells(s, t, nodeMap, n, c);
  }

  /// Phase 2 over the arrays.
  method LinkClocks(s: DynamicState, t: Tree, nodeMap: array<int>) returns (r: Result<()>)
    requires Valid(t) && s.clocks.Length == nodeMap.Length
    modifies s, s.clocks
    ensures s.clocks == old(s.clocks) && s.mapping == old(s.mapping) && s.numClocks == old(s.numClocks)
    ensures !r.Err?
    ensures var want := Phase2(t, s.mapping, nodeMap[..], Links(old(s.clocks[..]), old(s.log)));
      (r.Fault? <==> want.Fault?) && (r.Ok? ==> want.value == Links(s.clocks[..], s.log))
  {
    var nodes := ForEachNodeWithProp(t, -1, "clocks");
    assert nodes == NodesWithProp(t, "clocks");
    ghost var want := Phase2From(t, s.mapping, nodeMap[..], nodes, 0, Links(s.clocks[..], s.log));
    var i := 0;
    while i < |nodes|
      invariant i <= |nodes|
      invariant s.clocks == old(s.clocks) && s.mapping == old(s.mapping) && s.numClocks == old(s.numClocks)
      invariant Phase2From(t, s.mapping, nodeMap[..], nodes, i, Links(s.clocks[..], s.log)) == want
    {
      var step := LinkConsumer(s, t, nodeMap, nodes[i]);
      if step.Fault? {
        return step;
      }
      i := i + 1;
    }
    return Ok(());
  }

  /// mch_fdt_build_clocktree: nothing at all when no clock was counted;
  /// otherwise a fresh, zero-filled s->clocks and node_map, phase 1 and
  /// phase 2, with the mapping list and the clock count untouched.
  method BuildClockTree(s: DynamicState, t: Tree) returns (r: Result<()>)
    requires Valid(t)
    modifies s
    ensures s.mapping == old(s.mapping) && s.numClocks == old(s.numClocks)
    ensures !r.Err?
    ensures old(s.numClocks) == 0 ==> r == Ok(()) && s.clocks == old(s.clocks) && s.log == old(s.log)
    ensures old(s.numClocks) > 0 ==>
      var want := BuildClockTreeSpec(t, old(s.mapping), old(s.numClocks), old(s.log));
      && (r.Fault? <==> want.Fault?)
      && (r.Ok? ==> fresh(s.clocks) && want.value == Links(s.clocks[..], s.log))
  {
    if s.numClocks == 0 {
      return Ok(());
    }
    var nodeMap := new int[s.numClocks](_ => 0);
    s.clocks := new Clock[s.numClocks](_ => NoClock);
    var p1 := FillClockTable(t, s.clocks, nodeMap);
    if p1.Fault? {
      return p1;
    }
    r := LinkClocks(s, t, nodeMap);
  }
}
