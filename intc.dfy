/// The interrupt tree builder of hw/core/fdt-mch-intc.c: for every
/// instantiated interrupt controller, size its input table from the
/// consumers whose interrupt parent it is, allocate the inputs, and connect
/// each consumer's first output to its input.
module Interrupts {
  import opened Fdt
  import opened Codec
  import opened Machine

  // ---------------------------------------------------------------------
  // The interrupt parent (section 2.4.1 of the Devicetree Specification)
  // ---------------------------------------------------------------------

  /// mch_fdt_get_intc_parent_node as written: the nearest node on the way
  /// up that has `interrupt-parent` decides; past the root, NOTFOUND. An
  /// interrupt-parent of 0 leaves parent_intc at 0 with the node
  /// unchanged, so the do-while loop never ends.
  function IntcParentAsWritten(t: Tree, n: int): (r: Result<int>)
    requires Valid(t) && IsNode(t, n)
    decreases n
  {
    match GetPropCell(t, n, "interrupt-parent")
    case Some(ph) =>
      if ph == 0 then Fault("the do-while loop never ends: interrupt-parent is 0")
      else Ok(PhandleOffset(t, ph))
    case None =>
      if ParentOffset(t, n) < 0 then Ok(ERR_NOTFOUND)
      else IntcParentAsWritten(t, ParentOffset(t, n))
  }

  /// The interrupt parent the loop is meant to find: the node that the
  /// nearest `interrupt-parent` on the way up refers to (a 0 there refers
  /// to no node), or NOTFOUND when no node up to the root has one.
  function IntcParent(t: Tree, n: int): (r: int)
    requires Valid(t) && IsNode(t, n)
    ensures r >= 0 ==> IsNode(t, r)
    decreases n
  {
    match GetPropCell(t, n, "interrupt-parent")
    case Some(ph) => PhandleOffset(t, ph)
    case None =>
      if ParentOffset(t, n) < 0 then ERR_NOTFOUND
      else IntcParent(t, ParentOffset(t, n))
  }

  /// The loop as written stops with the intended answer unless the
  /// interrupt-parent it meets first is 0.
  lemma {:induction false} IntcParentAgrees(t: Tree, n: int)
    requires Valid(t) && IsNode(t, n)
    ensures IntcParentAsWritten(t, n).Fault? || IntcParentAsWritten(t, n) == Ok(IntcParent(t, n))
    ensures IntcParentAsWritten(t, n).Fault? ==> IntcParent(t, n) == ERR_BADPHANDLE
    decreases n
  {
    if GetPropCell(t, n, "interrupt-parent").None? && ParentOffset(t, n) >= 0 {
      IntcParentAgrees(t, ParentOffset(t, n));
    }
  }

  /// interrupt-parent = <0> on the node itself: the loop as written spins
  /// for ever, where the intended lookup refers to no node.
  lemma ZeroParentHangs(t: Tree, n: int)
    requires Valid(t) && IsNode(t, n) && GetPropCell(t, n, "interrupt-parent") == Some(0)
    ensures IntcParentAsWritten(t, n).Fault?
    ensures IntcParent(t, n) == ERR_BADPHANDLE
  {
  }

  /// n, its parent, its parent's parent, ..., the root.
  function PathToRoot(t: Tree, n: int): (p: seq<int>)
    requires Valid(t) && IsNode(t, n)
    ensures |p| >= 1 && p[0] == n && p[|p| - 1] == 0
    ensures forall i | 0 <= i < |p| :: IsNode(t, p[i])
    ensures forall i | 0 <= i < |p| - 1 :: p[i + 1] == ParentOffset(t, p[i])
    decreases n
  {
    if n == 0 then [0] else [n] + PathToRoot(t, ParentOffset(t, n))
  }

  /// Inheritance: while no node on the way up carries `interrupt-parent`,
  /// a node has the interrupt parent of its ancestors; the first node on
  /// the path to the root that carries it decides.
  lemma {:induction false} NearestInterruptParent(t: Tree, n: int, i: nat)
    requires Valid(t) && IsNode(t, n) && i < |PathToRoot(t, n)|
    requires forall j | 0 <= j < i :: GetPropCell(t, PathToRoot(t, n)[j], "interrupt-parent").None?
    ensures IntcParent(t, n) == IntcParent(t, PathToRoot(t, n)[i])
    ensures GetPropCell(t, PathToRoot(t, n)[i], "interrupt-parent").Some? ==>
      IntcParent(t, n) == PhandleOffset(t, GetPropCell(t, PathToRoot(t, n)[i], "interrupt-parent").value)
    decreases n
  {
    if i > 0 {
      var p, q := PathToRoot(t, n), ParentOffset(t, n);
      assert GetPropCell(t, p[0], "interrupt-parent").None?;
      assert p[1..] == PathToRoot(t, q);
      NearestInterruptParent(t, q, i - 1);
    }
  }

  /// With no `interrupt-parent` anywhere up to the root there is no
  /// interrupt parent.
  lemma NoInterruptParent(t: Tree, n: int)
    requires Valid(t) && IsNode(t, n)
    requires forall j | 0 <= j < |PathToRoot(t, n)| :: GetPropCell(t, PathToRoot(t, n)[j], "interrupt-parent").None?
    ensures IntcParent(t, n) == ERR_NOTFOUND
  {
    NearestInterruptParent(t, n, |PathToRoot(t, n)| - 1);
  }

  /// The lookup with the corrected stop: the walk up `node`.
  method GetIntcParentNode(t: Tree, node: int) returns (r: int)
    requires Valid(t) && IsNode(t, node)
    ensures r == IntcParent(t, node)
  {
    var n := node;
    while true
      invariant IsNode(t, n) && IntcParent(t, n) == IntcParent(t, node)
      decreases n
    {
      var ph := GetPropCell(t, n, "interrupt-parent");
      if ph.Some? {
        return PhandleOffset(t, ph.value);
      }
      n := ParentOffset(t, n);
      if n < 0 {
        return ERR_NOTFOUND;
      }
    }
  }

  // ---------------------------------------------------------------------
  // One controller: sizing, allocation, connection
  // ---------------------------------------------------------------------

  /// Where the irq number sits in an `interrupts` specifier: cell 1 when
  /// the controller's #interrupt-cells is 3, else cell 0 (num_intr_cell
  /// stays 0 when the property cannot be read).
  function IrqCell(t: Tree, node: int): nat
    requires IsNode(t, node)
  {
    if GetPropCell(t, node, "#interrupt-cells") == Some(3) then 1 else 0
  }

  /// The sizing loop over the nodes with `interrupts`, from the i-th on:
  /// num is raised to one past every irq of a consumer whose interrupt
  /// parent is `node`, and cnt counts those consumers. An irq that cannot
  /// be read leaves the uninitialised variable in use.
  function SizeFrom(t: Tree, node: int, cell: nat, cons: seq<int>, i: nat, num: nat, cnt: nat): (r: Result<(nat, nat)>)
    requires Valid(t) && i <= |cons| && forall j | 0 <= j < |cons| :: IsNode(t, cons[j])
    ensures !r.Err?
    decreases |cons| - i
  {
    if i == |cons| then Ok((num, cnt))
    else if IntcParent(t, cons[i]) != node then SizeFrom(t, node, cell, cons, i + 1, num, cnt)
    else match ReadArrayU32(t, cons[i], "interrupts", cell)
      case Ok(irq) => SizeFrom(t, node, cell, cons, i + 1, if irq + 1 > num then irq + 1 else num, cnt + 1)
      case _ => Fault("irq read uninitialised")
  }

  /// The table the allocation loop fills: input k of the controller at k.
  function Inputs(dev: Dev, num: nat): (r: seq<Line>)
  {
    seq(num, k requires 0 <= k => Line(dev, k))
  }

  /// The connection loop from the i-th node with `interrupts` on: every
  /// consumer of `node` that was mapped gets output 0 connected to
  /// irqs[irq]. A consumer mapped to NULL has no sysbus device.
  function ConnectFrom(t: Tree, mapping: seq<Entry>, node: int, dev: Dev, cell: nat, num: nat,
                       cons: seq<int>, i: nat, log: seq<Event>): (r: Result<seq<Event>>)
    requires Valid(t) && i <= |cons| && forall j | 0 <= j < |cons| :: IsNode(t, cons[j])
    ensures !r.Err?
    decreases |cons| - i
  {
    if i == |cons| then Ok(log)
    else if IntcParent(t, cons[i]) != node then ConnectFrom(t, mapping, node, dev, cell, num, cons, i + 1, log)
    else match Lookup(mapping, cons[i])
      case None => ConnectFrom(t, mapping, node, dev, cell, num, cons, i + 1, log)
      case Some(ci) =>
        if ci.dev.None? then Fault("sysbus_connect_irq on a NULL device")
        else match ReadArrayU32(t, cons[i], "interrupts", cell)
          case Ok(irq) =>
            if irq >= num then Fault("info->irqs read past the end")
            else ConnectFrom(t, mapping, node, dev, cell, num, cons, i + 1,
                             log + [IrqConnect(ci.dev.value, 0, Inputs(dev, num)[irq])])
          case _ => Fault("irq read uninitialised")
  }

  /// The loop body for one interrupt controller: skipped when unmapped or
  /// mapped to NULL; otherwise sized (the count must not exceed the size),
  /// given its inputs in its mapping entry, and connected.
  function ControllerStep(t: Tree, st: State, node: int): (r: Result<State>)
    requires Valid(t) && IsNode(t, node)
    ensures !r.Err?
  {
    match Lookup(st.mapping, node)
    case None => Ok(st)
    case Some(info) =>
      if info.dev.None? then Ok(st)
      else
        var dev, cell, cons := info.dev.value, IrqCell(t, node), NodesWithProp(t, "interrupts");
        match SizeFrom(t, node, cell, cons, 0, info.numIrqs, 0)
        case Fault(reason) => Fault(reason)
        case Ok((num, cnt)) =>
          if cnt > num then Fault("g_assert(cnt <= info->num_irqs) fails")
          else
            var mapping := st.mapping[FindIndex(st.mapping, node).value := Entry(node, Info(info.dev, Inputs(dev, num), num))];
            match ConnectFrom(t, mapping, node, dev, cell, num, cons, 0, st.log)
            case Fault(reason) => Fault(reason)
            case Ok(log) => Ok(st.(mapping := mapping, log := log))
  }

  /// The controller loop from the i-th node with `interrupt-controller`.
  function ControllersFrom(t: Tree, ctrls: seq<int>, i: nat, st: State): (r: Result<State>)
    requires Valid(t) && i <= |ctrls| && forall j | 0 <= j < |ctrls| :: IsNode(t, ctrls[j])
    ensures !r.Err?
    decreases |ctrls| - i
  {
    if i == |ctrls| then Ok(st)
    else match ControllerStep(t, st, ctrls[i])
      case Fault(reason) => Fault(reason)
      case Ok(st') => ControllersFrom(t, ctrls, i + 1, st')
  }

  /// mch_fdt_build_interrupt_tree with the corrected wiring.
  function InterruptTree(t: Tree, st: State): (r: Result<State>)
    requires Valid(t)
    ensures !r.Err?
  {
    ControllersFrom(t, NodesWithProp(t, "interrupt-controller"), 0, st)
  }

  // ---------------------------------------------------------------------
  // What the builder guarantees
  // ---------------------------------------------------------------------

  /// Consumer i is one of `node`'s and has its irq readable.
  predicate IrqOf(t: Tree, node: int, cell: nat, o: int, irq: int)
    requires Valid(t) && IsNode(t, o)
  {
    IntcParent(t, o) == node && ReadArrayU32(t, o, "interrupts", cell) == Ok(irq)
  }

  /// The size only grows, and ends above every irq of a consumer of node.
  lemma {:induction false} SizeCovers(t: Tree, node: int, cell: nat, cons: seq<int>, i: nat, num: nat, cnt: nat)
    requires Valid(t) && i <= |cons| && forall j | 0 <= j < |cons| :: IsNode(t, cons[j])
    requires SizeFrom(t, node, cell, cons, i, num, cnt).Ok?
    ensures num <= SizeFrom(t, node, cell, cons, i, num, cnt).value.0
    ensures forall j, irq | i <= j < |cons| && IrqOf(t, node, cell, cons[j], irq) ::
      irq < SizeFrom(t, node, cell, cons, i, num, cnt).value.0
    decreases |cons| - i
  {
    if i < |cons| {
      if IntcParent(t, cons[i]) != node {
        SizeCovers(t, node, cell, cons, i + 1, num, cnt);
      } else {
        var irq := ReadArrayU32(t, cons[i], "interrupts", cell).value;
        SizeCovers(t, node, cell, cons, i + 1, if irq + 1 > num then irq + 1 else num, cnt + 1);
      }
    }
  }

  /// Starting from a size that already covers every consumer's irq, the
  /// sizing keeps it; the count does not depend on the starting size.
  lemma {:induction false} SizeStable(t: Tree, node: int, cell: nat, cons: seq<int>, i: nat, num: nat, m: nat, cnt: nat)
    requires Valid(t) && i <= |cons| && forall j | 0 <= j < |cons| :: IsNode(t, cons[j])
    requires SizeFrom(t, node, cell, cons, i, num, cnt).Ok?
    requires num <= m
    requires forall j, irq | i <= j < |cons| && IrqOf(t, node, cell, cons[j], irq) :: irq < m
    ensures SizeFrom(t, node, cell, cons, i, m, cnt) == Ok((m, SizeFrom(t, node, cell, cons, i, num, cnt).value.1))
    decreases |cons| - i
  {
    if i < |cons| {
      if IntcParent(t, cons[i]) != node {
        SizeStable(t, node, cell, cons, i + 1, num, m, cnt);
      } else {
        var irq := ReadArrayU32(t, cons[i], "interrupts", cell).value;
        assert IrqOf(t, node, cell, cons[i], irq);
        SizeStable(t, node, cell, cons, i + 1, if irq + 1 > num then irq + 1 else num, m, cnt + 1);
      }
    }
  }

  /// Sizing is idempotent: run again from the size it produced, it
  /// produces the same size and count.
  lemma SizeIdempotent(t: Tree, node: int, cell: nat, cons: seq<int>, num: nat)
    requires Valid(t) && forall j | 0 <= j < |cons| :: IsNode(t, cons[j])
    requires SizeFrom(t, node, cell, cons, 0, num, 0).Ok?
    ensures SizeFrom(t, node, cell, cons, 0, SizeFrom(t, node, cell, cons, 0, num, 0).value.0, 0)
      == SizeFrom(t, node, cell, cons, 0, num, 0)
  {
    var r := SizeFrom(t, node, cell, cons, 0, num, 0).value;
    SizeCovers(t, node, cell, cons, 0, num, 0);
    SizeStable(t, node, cell, cons, 0, num, r.0, 0);
  }

  /// Every connection made for `node` comes from a consumer whose interrupt
  /// parent is node, that was mapped to a device, and that is the one
  /// connected: output 0 to the controller's input irq, irq within the
  /// table. The log before is kept.
  lemma {:induction false} ConnectSound(t: Tree, mapping: seq<Entry>, node: int, dev: Dev, cell: nat, num: nat,
                                        cons: seq<int>, i: nat, log: seq<Event>)
    requires Valid(t) && i <= |cons| && forall j | 0 <= j < |cons| :: IsNode(t, cons[j])
    requires ConnectFrom(t, mapping, node, dev, cell, num, cons, i, log).Ok?
    ensures log <= ConnectFrom(t, mapping, node, dev, cell, num, cons, i, log).value
    ensures forall e | e in ConnectFrom(t, mapping, node, dev, cell, num, cons, i, log).value[|log|..] ::
      exists j, irq | i <= j < |cons| && IrqOf(t, node, cell, cons[j], irq) ::
        && irq < num
        && Lookup(mapping, cons[j]).Some? && Lookup(mapping, cons[j]).value.dev.Some?
        && e == IrqConnect(Lookup(mapping, cons[j]).value.dev.value, 0, Line(dev, irq))
    decreases |cons| - i
  {
    var r := ConnectFrom(t, mapping, node, dev, cell, num, cons, i, log).value;
    if i < |cons| {
      var o := cons[i];
      if IntcParent(t, o) != node || Lookup(mapping, o).None? {
        ConnectSound(t, mapping, node, dev, cell, num, cons, i + 1, log);
      } else {
        var irq := ReadArrayU32(t, o, "interrupts", cell).value;
        var e := IrqConnect(Lookup(mapping, o).value.dev.value, 0, Line(dev, irq));
        ConnectSound(t, mapping, node, dev, cell, num, cons, i + 1, log + [e]);
        assert IrqOf(t, node, cell, o, irq);
        assert r[|log|..] == [e] + r[|log| + 1..];
      }
    } else {
      assert r[|log|..] == [];
    }
  }

  /// The other direction: every consumer of `node` from the i-th on that
  /// is mapped to a device and has its irq readable is connected, output 0
  /// to the controller's input irq.
  lemma {:induction false} ConnectComplete(t: Tree, mapping: seq<Entry>, node: int, dev: Dev, cell: nat, num: nat,
                                           cons: seq<int>, i: nat, log: seq<Event>)
    requires Valid(t) && i <= |cons| && forall j | 0 <= j < |cons| :: IsNode(t, cons[j])
    requires ConnectFrom(t, mapping, node, dev, cell, num, cons, i, log).Ok?
    ensures forall j, irq | i <= j < |cons| && IrqOf(t, node, cell, cons[j], irq)
                           && Lookup(mapping, cons[j]).Some? && Lookup(mapping, cons[j]).value.dev.Some? ::
      IrqConnect(Lookup(mapping, cons[j]).value.dev.value, 0, Line(dev, irq))
        in ConnectFrom(t, mapping, node, dev, cell, num, cons, i, log).value
    decreases |cons| - i
  {
    if i < |cons| {
      var o := cons[i];
      if IntcParent(t, o) != node || Lookup(mapping, o).None? {
        ConnectComplete(t, mapping, node, dev, cell, num, cons, i + 1, log);
      } else {
        var irq := ReadArrayU32(t, o, "interrupts", cell).value;
        var e := IrqConnect(Lookup(mapping, o).value.dev.value, 0, Line(dev, irq));
        ConnectComplete(t, mapping, node, dev, cell, num, cons, i + 1, log + [e]);
        ConnectSound(t, mapping, node, dev, cell, num, cons, i + 1, log + [e]);
        assert e in log + [e];
        assert Inputs(dev, num)[irq] == Line(dev, irq);
      }
    }
  }

  /// After sizing, no irq of a consumer is outside the table, so the
  /// connection loop never reads past the end of info->irqs.
  lemma {:induction false} ConnectInBounds(t: Tree, mapping: seq<Entry>, node: int, dev: Dev, cell: nat, num: nat,
                                           cons: seq<int>, i: nat, log: seq<Event>)
    requires Valid(t) && i <= |cons| && forall j | 0 <= j < |cons| :: IsNode(t, cons[j])
    requires forall j, irq | i <= j < |cons| && IrqOf(t, node, cell, cons[j], irq) :: irq < num
    ensures ConnectFrom(t, mapping, node, dev, cell, num, cons, i, log) != Fault("info->irqs read past the end")
    decreases |cons| - i
  {
    if i < |cons| {
      var o := cons[i];
      if IntcParent(t, o) != node || Lookup(mapping, o).None? {
        ConnectInBounds(t, mapping, node, dev, cell, num, cons, i + 1, log);
      } else if Lookup(mapping, o).value.dev.Some? && ReadArrayU32(t, o, "interrupts", cell).Ok? {
        var irq := ReadArrayU32(t, o, "interrupts", cell).value;
        assert IrqOf(t, node, cell, o, irq);
        var e := IrqConnect(Lookup(mapping, o).value.dev.value, 0, Line(dev, irq));
        ConnectInBounds(t, mapping, node, dev, cell, num, cons, i + 1, log + [e]);
      }
    }
  }

  /// The allocation: the entry of a connected controller holds exactly
  /// num inputs, input k of its device at k, and num covers every irq of
  /// its consumers; the controller's device and every other entry are kept.
  lemma ControllerTable(t: Tree, st: State, node: int)
    requires Valid(t) && IsNode(t, node) && ControllerStep(t, st, node).Ok?
    requires Lookup(st.mapping, node).Some? && Lookup(st.mapping, node).value.dev.Some?
    ensures var m := ControllerStep(t, st, node).value.mapping;
      var k := FindIndex(st.mapping, node).value;
      var info := m[k].info;
      && |m| == |st.mapping| && m[k].offset == node
      && info.dev == Lookup(st.mapping, node).value.dev
      && |info.irqs| == info.numIrqs && info.numIrqs >= Lookup(st.mapping, node).value.numIrqs
      && (forall j | 0 <= j < info.numIrqs :: info.irqs[j] == Line(info.dev.value, j))
      && (forall j | 0 <= j < |m| && j != k :: m[j] == st.mapping[j])
      && (forall o, irq | IsNode(t, o) && HasProp(t, o, "interrupts") && IrqOf(t, node, IrqCell(t, node), o, irq) ::
            irq < info.numIrqs)
  {
    var info := Lookup(st.mapping, node).value;
    var cons := NodesWithProp(t, "interrupts");
    NodesWithPropExact(t, "interrupts", 0);
    SizeCovers(t, node, IrqCell(t, node), cons, 0, info.numIrqs, 0);
  }

  /// A controller that is not mapped, or mapped to NULL, changes nothing.
  lemma SkippedController(t: Tree, st: State, node: int)
    requires Valid(t) && IsNode(t, node)
    requires Lookup(st.mapping, node).None? || Lookup(st.mapping, node).value.dev.None?
    ensures ControllerStep(t, st, node) == Ok(st)
  {
  }

  /// The clock count and every event logged before are kept.
  lemma {:induction false} ControllersKeep(t: Tree, ctrls: seq<int>, i: nat, st: State)
    requires Valid(t) && i <= |ctrls| && forall j | 0 <= j < |ctrls| :: IsNode(t, ctrls[j])
    requires ControllersFrom(t, ctrls, i, st).Ok?
    ensures ControllersFrom(t, ctrls, i, st).value.numClocks == st.numClocks
    ensures st.log <= ControllersFrom(t, ctrls, i, st).value.log
    ensures |ControllersFrom(t, ctrls, i, st).value.mapping| == |st.mapping|
    decreases |ctrls| - i
  {
    if i < |ctrls| {
      var node := ctrls[i];
      var st' := ControllerStep(t, st, node).value;
      if Lookup(st.mapping, node).Some? && Lookup(st.mapping, node).value.dev.Some? {
        var info := Lookup(st.mapping, node).value;
        var cons := NodesWithProp(t, "interrupts");
        var num := SizeFrom(t, node, IrqCell(t, node), cons, 0, info.numIrqs, 0).value.0;
        var mapping := st.mapping[FindIndex(st.mapping, node).value := Entry(node, Info(info.dev, Inputs(info.dev.value, num), num))];
        ConnectSound(t, mapping, node, info.dev.value, IrqCell(t, node), num, cons, 0, st.log);
      }
      ControllersKeep(t, ctrls, i + 1, st');
    }
  }

  // ---------------------------------------------------------------------
  // The wiring as written
  // ---------------------------------------------------------------------

  /// The sizing loop as written: the irq is read from the controller's own
  /// `interrupts` (node, not offset) and num_irqs becomes the max irq, not
  /// one past it.
  function SizeAsWritten(t: Tree, node: int, cell: nat, cons: seq<int>, i: nat, num: nat, cnt: nat): (r: Result<(nat, nat)>)
    requires Valid(t) && IsNode(t, node) && i <= |cons| && forall j | 0 <= j < |cons| :: IsNode(t, cons[j])
    decreases |cons| - i
  {
    if i == |cons| then Ok((num, cnt))
    else if IntcParent(t, cons[i]) != node then SizeAsWritten(t, node, cell, cons, i + 1, num, cnt)
    else match ReadArrayU32(t, node, "interrupts", cell)
      case Ok(irq) => SizeAsWritten(t, node, cell, cons, i + 1, if irq > num then irq else num, cnt + 1)
      case _ => Fault("irq read uninitialised")
  }

  /// The connection loop as written: the controller's own mapping and
  /// `interrupts` are used for every consumer.
  function ConnectAsWritten(t: Tree, mapping: seq<Entry>, node: int, dev: Dev, cell: nat, num: nat,
                            cons: seq<int>, i: nat, log: seq<Event>): (r: Result<seq<Event>>)
    requires Valid(t) && IsNode(t, node) && i <= |cons| && forall j | 0 <= j < |cons| :: IsNode(t, cons[j])
    decreases |cons| - i
  {
    if i == |cons| then Ok(log)
    else if IntcParent(t, cons[i]) != node then ConnectAsWritten(t, mapping, node, dev, cell, num, cons, i + 1, log)
    else match Lookup(mapping, node)
      case None => ConnectAsWritten(t, mapping, node, dev, cell, num, cons, i + 1, log)
      case Some(ci) =>
        if ci.dev.None? then Fault("sysbus_connect_irq on a NULL device")
        else match ReadArrayU32(t, node, "interrupts", cell)
          case Ok(irq) =>
            if irq >= num then Fault("info->irqs read past the end")
            else ConnectAsWritten(t, mapping, node, dev, cell, num, cons, i + 1,
                                  log + [IrqConnect(ci.dev.value, 0, Inputs(dev, num)[irq])])
          case _ => Fault("irq read uninitialised")
  }

  /// A controller without an `interrupts` cell of its own, with at least
  /// one consumer from position i on: the sizing as written reads the
  /// uninitialised irq.
  lemma {:induction false} ControllerCellUnread(t: Tree, node: int, cell: nat, cons: seq<int>, i: nat, num: nat, cnt: nat, c: nat)
    requires Valid(t) && IsNode(t, node) && i <= c < |cons| && forall j | 0 <= j < |cons| :: IsNode(t, cons[j])
    requires IntcParent(t, cons[c]) == node && ReadArrayU32(t, node, "interrupts", cell).Err?
    ensures SizeAsWritten(t, node, cell, cons, i, num, cnt).Fault?
    decreases c - i
  {
    if IntcParent(t, cons[i]) != node {
      ControllerCellUnread(t, node, cell, cons, i + 1, num, cnt, c);
    }
  }

  /// With its own irq v read for every consumer, the sizing as written
  /// ends at max(num, v) once there is a consumer: when num <= v the size
  /// is v, so irqs[v] is one past the end of the table.
  lemma {:induction false} SizeIsMax(t: Tree, node: int, cell: nat, cons: seq<int>, i: nat, num: nat, cnt: nat, c: nat, v: nat)
    requires Valid(t) && IsNode(t, node) && i <= c < |cons| && forall j | 0 <= j < |cons| :: IsNode(t, cons[j])
    requires IntcParent(t, cons[c]) == node && ReadArrayU32(t, node, "interrupts", cell) == Ok(v) && num <= v
    ensures SizeAsWritten(t, node, cell, cons, i, num, cnt).Ok?
    ensures SizeAsWritten(t, node, cell, cons, i, num, cnt).value.0 == v
    decreases |cons| - i
  {
    if IntcParent(t, cons[i]) != node {
      SizeIsMax(t, node, cell, cons, i + 1, num, cnt, c, v);
    } else {
      SizeStaysAt(t, node, cell, cons, i + 1, v, cnt + 1, v);
    }
  }

  lemma {:induction false} SizeStaysAt(t: Tree, node: int, cell: nat, cons: seq<int>, i: nat, num: nat, cnt: nat, v: nat)
    requires Valid(t) && IsNode(t, node) && i <= |cons| && forall j | 0 <= j < |cons| :: IsNode(t, cons[j])
    requires ReadArrayU32(t, node, "interrupts", cell) == Ok(v) && num == v
    ensures SizeAsWritten(t, node, cell, cons, i, num, cnt).Ok?
    ensures SizeAsWritten(t, node, cell, cons, i, num, cnt).value.0 == v
    decreases |cons| - i
  {
    if i < |cons| {
      if IntcParent(t, cons[i]) != node {
        SizeStaysAt(t, node, cell, cons, i + 1, num, cnt, v);
      } else {
        SizeStaysAt(t, node, cell, cons, i + 1, num, cnt + 1, v);
      }
    }
  }

  /// ... and the connection as written then reads irqs[v] past the end for
  /// the first consumer, if the controller is mapped to a device.
  lemma {:induction false} ConnectPastEnd(t: Tree, mapping: seq<Entry>, node: int, dev: Dev, cell: nat, v: nat,
                                          cons: seq<int>, i: nat, log: seq<Event>, c: nat)
    requires Valid(t) && IsNode(t, node) && i <= c < |cons| && forall j | 0 <= j < |cons| :: IsNode(t, cons[j])
    requires IntcParent(t, cons[c]) == node && ReadArrayU32(t, node, "interrupts", cell) == Ok(v)
    requires Lookup(mapping, node).Some? && Lookup(mapping, node).value.dev.Some?
    ensures ConnectAsWritten(t, mapping, node, dev, cell, v, cons, i, log) == Fault("info->irqs read past the end")
    decreases c - i
  {
    if IntcParent(t, cons[i]) != node {
      ConnectPastEnd(t, mapping, node, dev, cell, v, cons, i + 1, log, c);
    }
  }

  // ---------------------------------------------------------------------
  // The builder over DynamicState
  // ---------------------------------------------------------------------

  /// The sizing loop.
  method SizeIrqs(t: Tree, node: int, cell: nat, cons: seq<int>, num0: nat) returns (r: Result<(nat, nat)>)
    requires Valid(t) && forall j | 0 <= j < |cons| :: IsNode(t, cons[j])
    ensures r == SizeFrom(t, node, cell, cons, 0, num0, 0)
  {
    var num: nat, cnt: nat := num0, 0;
    var i := 0;
    while i < |cons|
      invariant i <= |cons|
      invariant SizeFrom(t, node, cell, cons, i, num, cnt) == SizeFrom(t, node, cell, cons, 0, num0, 0)
    {
      var intc := GetIntcParentNode(t, cons[i]);
      if intc == node {
        var irq := ReadArrayU32(t, cons[i], "interrupts", cell);
        if !irq.Ok? {
          return Fault("irq read uninitialised");
        }
        num := if irq.value + 1 > num then irq.value + 1 else num;
        cnt := cnt + 1;
      }
      i := i + 1;
    }
    return Ok((num, cnt));
  }

  /// The allocation loop: irqs[k] = qdev_get_gpio_in(dev, k).
  method AllocateInputs(dev: Dev, num: nat) returns (irqs: array<Line>)
    ensures fresh(irqs) && irqs[..] == Inputs(dev, num)
  {
    irqs := new Line[num](_ => Line(dev, 0));
    var k := 0;
    while k < num
      invariant k <= num
      invariant forall j | 0 <= j < k :: irqs[j] == Line(dev, j)
    {
      irqs[k] := Line(dev, k);
      k := k + 1;
    }
  }

  /// One pass of the connection loop.
  method ConnectOne(s: DynamicState, t: Tree, node: int, dev: Dev, cell: nat, irqs: array<Line>, cons: seq<int>, i: nat)
    returns (r: Result<()>)
    requires Valid(t) && i < |cons| && forall j | 0 <= j < |cons| :: IsNode(t, cons[j])
    requires IntcParent(t, cons[i]) == node
    requires irqs[..] == Inputs(dev, irqs.Length)
    modifies s
    ensures s.mapping == old(s.mapping) && s.numClocks == old(s.numClocks) && s.clocks == old(s.clocks)
    ensures !r.Err?
    ensures r.Fault? ==> ConnectFrom(t, s.mapping, node, dev, cell, irqs.Length, cons, i, old(s.log)).Fault?
    ensures r.Ok? ==> ConnectFrom(t, s.mapping, node, dev, cell, irqs.Length, cons, i, old(s.log))
                      == ConnectFrom(t, s.mapping, node, dev, cell, irqs.Length, cons, i + 1, s.log)
  {
    var o := cons[i];
    var child := s.FindMapping(o);
    if child.None? {
      return Ok(());
    }
    if child.value.dev.None? {
      return Fault("sysbus_connect_irq on a NULL device");
    }
    var irq := ReadArrayU32(t, o, "interrupts", cell);
    if !irq.Ok? {
      return Fault("irq read uninitialised");
    }
    if irq.value >= irqs.Length {
      return Fault("info->irqs read past the end");
    }
    assert irqs[irq.value] == irqs[..][irq.value];
    s.log := s.log + [IrqConnect(child.value.dev.value, 0, irqs[irq.value])];
    return Ok(());
  }

  /// The connection loop.
  method ConnectIrqs(s: DynamicState, t: Tree, node: int, dev: Dev, cell: nat, irqs: array<Line>, cons: seq<int>)
    returns (r: Result<()>)
    requires Valid(t) && forall j | 0 <= j < |cons| :: IsNode(t, cons[j])
    requires irqs[..] == Inputs(dev, irqs.Length)
    modifies s
    ensures s.mapping == old(s.mapping) && s.numClocks == old(s.numClocks) && s.clocks == old(s.clocks)
    ensures !r.Err?
    ensures var want := ConnectFrom(t, s.mapping, node, dev, cell, irqs.Length, cons, 0, old(s.log));
      (r.Fault? <==> want.Fault?) && (r.Ok? ==> want == Ok(s.log))
  {
    ghost var m, num := s.mapping, irqs.Length;
    ghost var want := ConnectFrom(t, m, node, dev, cell, num, cons, 0, s.log);
    var i := 0;
    while i < |cons|
      invariant i <= |cons|
      invariant s.mapping == m && s.numClocks == old(s.numClocks) && s.clocks == old(s.clocks)
      invariant ConnectFrom(t, m, node, dev, cell, num, cons, i, s.log) == want
    {
      var intc := GetIntcParentNode(t, cons[i]);
      if intc != node {
        assert ConnectFrom(t, m, node, dev, cell, num, cons, i, s.log)
            == ConnectFrom(t, m, node, dev, cell, num, cons, i + 1, s.log);
      } else {
        var step := ConnectOne(s, t, node, dev, cell, irqs, cons, i);
        if step.Fault? {
          return step;
        }
      }
      i := i + 1;
    }
    return Ok(());
  }

  /// The loop body for one interrupt controller.
  method BuildController(s: DynamicState, t: Tree, node: int) returns (r: Result<()>)
    requires Valid(t) && IsNode(t, node)
    modifies s
    ensures s.clocks == old(s.clocks)
    ensures !r.Err?
    ensures var want := ControllerStep(t, old(s.Value()), node);
      (r.Fault? <==> want.Fault?) && (r.Ok? ==> want == Ok(s.Value()))
  {
    var info := s.FindMapping(node);
    if info.None? || info.value.dev.None? {
      return Ok(());
    }
    var dev := info.value.dev.value;
    var cell := if GetPropCell(t, node, "#interrupt-cells") == Some(3) then 1 else 0;
    var cons := ForEachNodeWithProp(t, -1, "interrupts");
    assert cons == NodesWithProp(t, "interrupts");
    var sized := SizeIrqs(t, node, cell, cons, info.value.numIrqs);
    if sized.Fault? {
      return Fault(sized.reason);
    }
    var (num, cnt) := sized.value;
    if cnt > num {
      return Fault("g_assert(cnt <= info->num_irqs) fails");
    }
    var irqs := AllocateInputs(dev, num);
    s.SetInfo(node, Info(info.value.dev, irqs[..], num));
    r := ConnectIrqs(s, t, node, dev, cell, irqs, cons);
  }

  /// mch_fdt_build_interrupt_tree with the corrected wiring.
  method BuildInterruptTree(s: DynamicState, t: Tree) returns (r: Result<()>)
    requires Valid(t)
    modifies s
    ensures s.clocks == old(s.clocks)
    ensures !r.Err?
    ensures var want := InterruptTree(t, old(s.Value()));
      (r.Fault? <==> want.Fault?) && (r.Ok? ==> want == Ok(s.Value()))
  {
    var ctrls := ForEachNodeWithProp(t, -1, "interrupt-controller");
    assert ctrls == NodesWithProp(t, "interrupt-controller");
    ghost var want := InterruptTree(t, s.Value());
    var i := 0;
    while i < |ctrls|
      invariant i <= |ctrls| && s.clocks == old(s.clocks)
      invariant ControllersFrom(t, ctrls, i, s.Value()) == want
    {
      var step := BuildController(s, t, ctrls[i]);
      if step.Fault? {
        return step;
      }
      i := i + 1;
    }
    return Ok(());
  }
}
