/// The GPIO wiring of hw/core/fdt-mch-gpio.c: for every instantiated GPIO
/// controller, walk the rows of every consumer's `gpios` property and
/// connect controller output `gpio` to consumer input `row` for each row
/// whose phandle names that controller.
module Gpio {
  import opened Fdt
  import opened Codec
  import opened Machine

  /// The number of rows fdt_for_each_cell_array visits in `gpios` at the
  /// given row width; a width of 0 gives no rows.
  function Rows(t: Tree, o: int, width: nat): nat
    requires IsNode(t, o)
  {
    if width == 0 then 0 else |Cells(t, o, "gpios")| / width
  }

  /// fdt_getprop_array_cell: cell `col` of row `row` of `prop` at the given
  /// width, read only when the column is inside the row and the cell inside
  /// the property; -1 otherwise (the out-parameter is then left unset).
  function ReadArrayCell(t: Tree, n: int, prop: string, width: nat, row: nat, col: nat): (r: Result<u32>)
    requires IsNode(t, n)
    ensures r.Ok? <==> col < width && row * width + col < |Cells(t, n, prop)|
    ensures r.Ok? ==> r.value == Cells(t, n, prop)[row * width + col]
    ensures !r.Ok? ==> r == Err(-1)
  {
    if col < width && row * width + col < |Cells(t, n, prop)| then Ok(Cells(t, n, prop)[row * width + col])
    else Err(-1)
  }

  /// Every row fdt_for_each_cell_array visits holds its phandle cell.
  lemma RowHasPhandle(t: Tree, o: int, width: nat, row: nat)
    requires IsNode(t, o) && row < Rows(t, o, width)
    ensures ReadArrayCell(t, o, "gpios", width, row, 0).Ok?
  {
    var n := |Cells(t, o, "gpios")|;
    assert row + 1 <= n / width;
    MulMonotone(row + 1, n / width, width);
    assert (n / width) * width <= n;
  }

  /// The `#gpio-cells` of the controller, or 0 when it cannot be read.
  function GpioCells(t: Tree, node: int): nat
    requires IsNode(t, node)
  {
    match GetPropCell(t, node, "#gpio-cells")
    case Some(w) => w
    case None => 0
  }

  /// Row `row` of consumer o names controller `node` and drives gpio g.
  predicate RowMatches(t: Tree, node: int, o: int, width: nat, row: nat, g: nat)
    requires Valid(t) && IsNode(t, o)
  {
    && ReadArrayCell(t, o, "gpios", width, row, 0).Ok?
    && PhandleOffset(t, ReadArrayCell(t, o, "gpios", width, row, 0).value) == node
    && ReadArrayCell(t, o, "gpios", width, row, 1) == Ok(g)
  }

  // ---------------------------------------------------------------------
  // The wiring (cells read from the consumer, the consumer's mapping)
  // ---------------------------------------------------------------------

  /// The row loop of consumer o from `row` on. A matching row whose gpio
  /// cell cannot be read leaves `gpio` uninitialised; a consumer mapped to
  /// NULL has no input to connect to.
  function RowsFrom(t: Tree, node: int, ctrl: Dev, width: nat, o: int, child: Option<Dev>, row: nat, log: seq<Event>)
    : (r: Result<seq<Event>>)
    requires Valid(t) && IsNode(t, o) && row <= Rows(t, o, width)
    ensures !r.Err?
    decreases Rows(t, o, width) - row
  {
    if row == Rows(t, o, width) then Ok(log)
    else match ReadArrayCell(t, o, "gpios", width, row, 0)
      case Ok(ph) =>
        if PhandleOffset(t, ph) != node then RowsFrom(t, node, ctrl, width, o, child, row + 1, log)
        else (match ReadArrayCell(t, o, "gpios", width, row, 1)
          case Ok(g) =>
            if child.None? then Fault("qdev_get_gpio_in on a NULL device")
            else RowsFrom(t, node, ctrl, width, o, child, row + 1, log + [GpioConnect(ctrl, g, Line(child.value, row))])
          case _ => Fault("gpio read uninitialised"))
      case _ => Fault("ctlr_phandle read uninitialised")
  }

  /// The consumer loop from the i-th node with `gpios` on; consumers with
  /// no mapping entry are skipped.
  function ConsumersFrom(t: Tree, mapping: seq<Entry>, node: int, ctrl: Dev, width: nat, cons: seq<int>, i: nat, log: seq<Event>)
    : (r: Result<seq<Event>>)
    requires Valid(t) && i <= |cons| && forall j | 0 <= j < |cons| :: IsNode(t, cons[j])
    ensures !r.Err?
    decreases |cons| - i
  {
    if i == |cons| then Ok(log)
    else match Lookup(mapping, cons[i])
      case None => ConsumersFrom(t, mapping, node, ctrl, width, cons, i + 1, log)
      case Some(ci) =>
        match RowsFrom(t, node, ctrl, width, cons[i], ci.dev, 0, log)
        case Ok(log') => ConsumersFrom(t, mapping, node, ctrl, width, cons, i + 1, log')
        case Fault(reason) => Fault(reason)
  }

  /// The loop body for one GPIO controller: skipped when unmapped or
  /// mapped to NULL.
  function ControllerStep(t: Tree, mapping: seq<Entry>, node: int, log: seq<Event>): (r: Result<seq<Event>>)
    requires Valid(t) && IsNode(t, node)
    ensures !r.Err?
  {
    match Lookup(mapping, node)
    case None => Ok(log)
    case Some(info) =>
      if info.dev.None? then Ok(log)
      else ConsumersFrom(t, mapping, node, info.dev.value, GpioCells(t, node), NodesWithProp(t, "gpios"), 0, log)
  }

  /// The controller loop from the i-th node with `gpio-controller` on.
  function ControllersFrom(t: Tree, mapping: seq<Entry>, ctrls: seq<int>, i: nat, log: seq<Event>): (r: Result<seq<Event>>)
    requires Valid(t) && i <= |ctrls| && forall j | 0 <= j < |ctrls| :: IsNode(t, ctrls[j])
    ensures !r.Err?
    decreases |ctrls| - i
  {
    if i == |ctrls| then Ok(log)
    else match ControllerStep(t, mapping, ctrls[i], log)
      case Ok(log') => ControllersFrom(t, mapping, ctrls, i + 1, log')
      case Fault(reason) => Fault(reason)
  }

  /// mch_fdt_connect_gpio with the consumer's own mapping and cells: only
  /// connections are logged, the mapping and the clock count are kept.
  function ConnectGpio(t: Tree, st: State): (r: Result<State>)
    requires Valid(t)
    ensures !r.Err?
    ensures r.Ok? ==> r.value.mapping == st.mapping && r.value.numClocks == st.numClocks
  {
    match ControllersFrom(t, st.mapping, NodesWithProp(t, "gpio-controller"), 0, st.log)
    case Ok(log) => Ok(st.(log := log))
    case Fault(reason) => Fault(reason)
  }

  // ---------------------------------------------------------------------
  // What the wiring guarantees
  // ---------------------------------------------------------------------

  /// Every connection made for consumer o connects the controller's output
  /// g to the consumer's input `row` for a matching row at or after the
  /// start; the log before is kept.
  lemma {:induction false} RowsSound(t: Tree, node: int, ctrl: Dev, width: nat, o: int, child: Option<Dev>, row: nat, log: seq<Event>)
    requires Valid(t) && IsNode(t, o) && row <= Rows(t, o, width)
    requires RowsFrom(t, node, ctrl, width, o, child, row, log).Ok?
    ensures log <= RowsFrom(t, node, ctrl, width, o, child, row, log).value
    ensures forall e | e in RowsFrom(t, node, ctrl, width, o, child, row, log).value[|log|..] ::
      exists k, g | row <= k < Rows(t, o, width) && RowMatches(t, node, o, width, k, g) ::
        child.Some? && e == GpioConnect(ctrl, g, Line(child.value, k))
    decreases Rows(t, o, width) - row
  {
    var r := RowsFrom(t, node, ctrl, width, o, child, row, log).value;
    if row < Rows(t, o, width) {
      var ph := ReadArrayCell(t, o, "gpios", width, row, 0).value;
      if PhandleOffset(t, ph) != node {
        RowsSound(t, node, ctrl, width, o, child, row + 1, log);
      } else {
        var g := ReadArrayCell(t, o, "gpios", width, row, 1).value;
        var e := GpioConnect(ctrl, g, Line(child.value, row));
        RowsSound(t, node, ctrl, width, o, child, row + 1, log + [e]);
        assert RowMatches(t, node, o, width, row, g);
        assert r[|log|..] == [e] + r[|log| + 1..];
      }
    } else {
      assert r[|log|..] == [];
    }
  }

  /// Every matching row at or after the start is connected: the
  /// controller's output g to the consumer's input `row`.
  lemma {:induction false} RowsComplete(t: Tree, node: int, ctrl: Dev, width: nat, o: int, child: Option<Dev>, row: nat, log: seq<Event>)
    requires Valid(t) && IsNode(t, o) && row <= Rows(t, o, width)
    requires RowsFrom(t, node, ctrl, width, o, child, row, log).Ok?
    ensures forall k, g | row <= k < Rows(t, o, width) && RowMatches(t, node, o, width, k, g) ::
      child.Some? && GpioConnect(ctrl, g, Line(child.value, k)) in RowsFrom(t, node, ctrl, width, o, child, row, log).value
    decreases Rows(t, o, width) - row
  {
    if row < Rows(t, o, width) {
      var ph := ReadArrayCell(t, o, "gpios", width, row, 0).value;
      if PhandleOffset(t, ph) != node {
        RowsComplete(t, node, ctrl, width, o, child, row + 1, log);
      } else {
        var g := ReadArrayCell(t, o, "gpios", width, row, 1).value;
        var e := GpioConnect(ctrl, g, Line(child.value, row));
        RowsComplete(t, node, ctrl, width, o, child, row + 1, log + [e]);
        RowsSound(t, node, ctrl, width, o, child, row + 1, log + [e]);
        assert e in log + [e];
      }
    }
  }

  /// A row whose phandle does not name the controller makes no connection
  /// and no fault.
  lemma ForeignRowSkipped(t: Tree, node: int, ctrl: Dev, width: nat, o: int, child: Option<Dev>, row: nat, log: seq<Event>)
    requires Valid(t) && IsNode(t, o) && row < Rows(t, o, width)
    requires PhandleOffset(t, ReadArrayCell(t, o, "gpios", width, row, 0).value) != node
    ensures RowsFrom(t, node, ctrl, width, o, child, row, log) == RowsFrom(t, node, ctrl, width, o, child, row + 1, log)
  {
    RowHasPhandle(t, o, width, row);
  }

  /// A controller without `#gpio-cells` has rows of width 0, so it makes
  /// no connection at all.
  lemma NoGpioCells(t: Tree, mapping: seq<Entry>, node: int, ctrl: Dev, cons: seq<int>, i: nat, log: seq<Event>)
    requires Valid(t) && i <= |cons| && forall j | 0 <= j < |cons| :: IsNode(t, cons[j])
    ensures ConsumersFrom(t, mapping, node, ctrl, 0, cons, i, log) == Ok(log)
    decreases |cons| - i
  {
    if i < |cons| {
      NoGpioCells(t, mapping, node, ctrl, cons, i + 1, log);
    }
  }

  /// A consumer with no mapping entry is skipped.
  lemma UnmappedConsumerSkipped(t: Tree, mapping: seq<Entry>, node: int, ctrl: Dev, width: nat, cons: seq<int>, i: nat, log: seq<Event>)
    requires Valid(t) && i < |cons| && forall j | 0 <= j < |cons| :: IsNode(t, cons[j])
    requires Lookup(mapping, cons[i]).None?
    ensures ConsumersFrom(t, mapping, node, ctrl, width, cons, i, log) == ConsumersFrom(t, mapping, node, ctrl, width, cons, i + 1, log)
  {
  }

  /// A controller that is not mapped, or mapped to NULL, connects nothing.
  lemma SkippedController(t: Tree, mapping: seq<Entry>, node: int, log: seq<Event>)
    requires Valid(t) && IsNode(t, node)
    requires Lookup(mapping, node).None? || Lookup(mapping, node).value.dev.None?
    ensures ControllerStep(t, mapping, node, log) == Ok(log)
  {
  }

  // ---------------------------------------------------------------------
  // The wiring as written
  // ---------------------------------------------------------------------

  /// The consumer loop as written: the consumer's mapping is looked up
  /// with the controller's offset, and both cells of every row are read
  /// from the controller's own `gpios`.
  function ConsumersAsWritten(t: Tree, mapping: seq<Entry>, node: int, ctrl: Dev, width: nat, cons: seq<int>, i: nat, log: seq<Event>)
    : (r: Result<seq<Event>>)
    requires Valid(t) && IsNode(t, node) && i <= |cons| && forall j | 0 <= j < |cons| :: IsNode(t, cons[j])
    ensures !r.Err?
    decreases |cons| - i
  {
    if i == |cons| then Ok(log)
    else match Lookup(mapping, node)
      case None => ConsumersAsWritten(t, mapping, node, ctrl, width, cons, i + 1, log)
      case Some(ci) =>
        match RowsAsWritten(t, node, ctrl, width, cons[i], ci.dev, 0, log)
        case Ok(log') => ConsumersAsWritten(t, mapping, node, ctrl, width, cons, i + 1, log')
        case Fault(reason) => Fault(reason)
  }

  /// The row loop as written: the rows are counted in the consumer's
  /// `gpios`, but read from the controller's.
  function RowsAsWritten(t: Tree, node: int, ctrl: Dev, width: nat, o: int, child: Option<Dev>, row: nat, log: seq<Event>)
    : (r: Result<seq<Event>>)
    requires Valid(t) && IsNode(t, node) && IsNode(t, o) && row <= Rows(t, o, width)
    ensures !r.Err?
    decreases Rows(t, o, width) - row
  {
    if row == Rows(t, o, width) then Ok(log)
    else match ReadArrayCell(t, node, "gpios", width, row, 0)
      case Ok(ph) =>
        if PhandleOffset(t, ph) != node then RowsAsWritten(t, node, ctrl, width, o, child, row + 1, log)
        else (match ReadArrayCell(t, node, "gpios", width, row, 1)
          case Ok(g) =>
            if child.None? then Fault("qdev_get_gpio_in on a NULL device")
            else RowsAsWritten(t, node, ctrl, width, o, child, row + 1, log + [GpioConnect(ctrl, g, Line(child.value, row))])
          case _ => Fault("gpio read uninitialised"))
      case _ => Fault("ctlr_phandle read uninitialised")
  }

  /// As written, every connection a controller makes goes from its own
  /// output back to its own input: the "consumer" found is the controller.
  lemma {:induction false} AsWrittenSelfLoop(t: Tree, mapping: seq<Entry>, node: int, width: nat, cons: seq<int>, i: nat, log: seq<Event>)
    requires Valid(t) && IsNode(t, node) && i <= |cons| && forall j | 0 <= j < |cons| :: IsNode(t, cons[j])
    requires Lookup(mapping, node).Some? && Lookup(mapping, node).value.dev.Some?
    requires ConsumersAsWritten(t, mapping, node, Lookup(mapping, node).value.dev.value, width, cons, i, log).Ok?
    ensures var ctrl := Lookup(mapping, node).value.dev.value;
      var r := ConsumersAsWritten(t, mapping, node, ctrl, width, cons, i, log).value;
      log <= r && forall e | e in r[|log|..] :: e.GpioConnect? && e.dev == ctrl && e.input.owner == ctrl
    decreases |cons| - i
  {
    var ctrl := Lookup(mapping, node).value.dev.value;
    if i < |cons| {
      var log' := RowsAsWritten(t, node, ctrl, width, cons[i], Some(ctrl), 0, log).value;
      RowsSelfLoop(t, node, ctrl, width, cons[i], 0, log);
      AsWrittenSelfLoop(t, mapping, node, width, cons, i + 1, log');
      var r := ConsumersAsWritten(t, mapping, node, ctrl, width, cons, i + 1, log').value;
      assert r[|log|..] == log'[|log|..] + r[|log'|..];
    }
  }

  lemma {:induction false} RowsSelfLoop(t: Tree, node: int, ctrl: Dev, width: nat, o: int, row: nat, log: seq<Event>)
    requires Valid(t) && IsNode(t, node) && IsNode(t, o) && row <= Rows(t, o, width)
    requires RowsAsWritten(t, node, ctrl, width, o, Some(ctrl), row, log).Ok?
    ensures var r := RowsAsWritten(t, node, ctrl, width, o, Some(ctrl), row, log).value;
      log <= r && forall e | e in r[|log|..] :: e.GpioConnect? && e.dev == ctrl && e.input.owner == ctrl
    decreases Rows(t, o, width) - row
  {
    var r := RowsAsWritten(t, node, ctrl, width, o, Some(ctrl), row, log).value;
    if row < Rows(t, o, width) {
      var ph := ReadArrayCell(t, node, "gpios", width, row, 0).value;
      if PhandleOffset(t, ph) != node {
        RowsSelfLoop(t, node, ctrl, width, o, row + 1, log);
      } else {
        var g := ReadArrayCell(t, node, "gpios", width, row, 1).value;
        var e := GpioConnect(ctrl, g, Line(ctrl, row));
        RowsSelfLoop(t, node, ctrl, width, o, row + 1, log + [e]);
        assert r[|log|..] == [e] + r[|log| + 1..];
      }
    } else {
      assert r[|log|..] == [];
    }
  }

  /// A mapped controller without a `gpios` property of its own, and a
  /// consumer with at least one row: as written, the phandle of that row
  /// is read from the controller and left uninitialised.
  lemma {:induction false} ControllerGpiosUnread(t: Tree, mapping: seq<Entry>, node: int, ctrl: Dev, width: nat,
                                                 cons: seq<int>, i: nat, log: seq<Event>, c: nat)
    requires Valid(t) && IsNode(t, node) && i <= c < |cons| && forall j | 0 <= j < |cons| :: IsNode(t, cons[j])
    requires Lookup(mapping, node).Some? && Cells(t, node, "gpios") == [] && Rows(t, cons[c], width) > 0
    ensures ConsumersAsWritten(t, mapping, node, ctrl, width, cons, i, log).Fault?
    decreases c - i
  {
    var ci := Lookup(mapping, node).value;
    if Rows(t, cons[i], width) == 0 {
      assert RowsAsWritten(t, node, ctrl, width, cons[i], ci.dev, 0, log) == Ok(log);
      ControllerGpiosUnread(t, mapping, node, ctrl, width, cons, i + 1, log, c);
    }
  }

  // ---------------------------------------------------------------------
  // The wiring over DynamicState
  // ---------------------------------------------------------------------

  /// The row loop for consumer o.
  method ConnectRows(s: DynamicState, t: Tree, node: int, ctrl: Dev, width: nat, o: int, child: Option<Dev>)
    returns (r: Result<()>)
    requires Valid(t) && IsNode(t, o)
    modifies s
    ensures s.mapping == old(s.mapping) && s.numClocks == old(s.numClocks) && s.clocks == old(s.clocks)
    ensures !r.Err?
    ensures var want := RowsFrom(t, node, ctrl, width, o, child, 0, old(s.log));
      (r.Fault? <==> want.Fault?) && (r.Ok? ==> want == Ok(s.log))
  {
    ghost var want := RowsFrom(t, node, ctrl, width, o, child, 0, s.log);
    var rows := if width == 0 then 0 else |Cells(t, o, "gpios")| / width;
    var row := 0;
    while row < rows
      invariant row <= rows == Rows(t, o, width)
      invariant s.mapping == old(s.mapping) && s.numClocks == old(s.numClocks) && s.clocks == old(s.clocks)
      invariant RowsFrom(t, node, ctrl, width, o, child, row, s.log) == want
    {
      var ph := ReadArrayCell(t, o, "gpios", width, row, 0);
      if !ph.Ok? {
        return Fault("ctlr_phandle read uninitialised");
      }
      if PhandleOffset(t, ph.value) == node {
        var g := ReadArrayCell(t, o, "gpios", width, row, 1);
        if !g.Ok? {
          return Fault("gpio read uninitialised");
        }
        if child.None? {
          return Fault("qdev_get_gpio_in on a NULL device");
        }
        s.log := s.log + [GpioConnect(ctrl, g.value, Line(child.value, row))];
      }
      row := row + 1;
    }
    return Ok(());
  }

  /// One pass of the consumer loop: unmapped consumers are skipped.
  method ConnectConsumer(s: DynamicState, t: Tree, node: int, ctrl: Dev, width: nat, cons: seq<int>, i: nat)
    returns (r: Result<()>)
    requires Valid(t) && i < |cons| && forall j | 0 <= j < |cons| :: IsNode(t, cons[j])
    modifies s
    ensures s.mapping == old(s.mapping) && s.numClocks == old(s.numClocks) && s.clocks == old(s.clocks)
    ensures !r.Err?
    ensures r.Fault? ==> ConsumersFrom(t, s.mapping, node, ctrl, width, cons, i, old(s.log)).Fault?
    ensures r.Ok? ==> ConsumersFrom(t, s.mapping, node, ctrl, width, cons, i, old(s.log))
                      == ConsumersFrom(t, s.mapping, node, ctrl, width, cons, i + 1, s.log)
  {
    var child := s.FindMapping(cons[i]);
    if child.None? {
      return Ok(());
    }
    r := ConnectRows(s, t, node, ctrl, width, cons[i], child.value.dev);
  }

  /// The consumer loop for one controller.
  method ConnectConsumers(s: DynamicState, t: Tree, node: int, ctrl: Dev, width: nat, cons: seq<int>)
    returns (r: Result<()>)
    requires Valid(t) && forall j | 0 <= j < |cons| :: IsNode(t, cons[j])
    modifies s
    ensures s.mapping == old(s.mapping) && s.numClocks == old(s.numClocks) && s.clocks == old(s.clocks)
    ensures !r.Err?
    ensures var want := ConsumersFrom(t, s.mapping, node, ctrl, width, cons, 0, old(s.log));
      (r.Fault? <==> want.Fault?) && (r.Ok? ==> want == Ok(s.log))
  {
    ghost var m := s.mapping;
    ghost var want := ConsumersFrom(t, m, node, ctrl, width, cons, 0, s.log);
    var i := 0;
    while i < |cons|
      invariant i <= |cons|
      invariant s.mapping == m && s.numClocks == old(s.numClocks) && s.clocks == old(s.clocks)
      invariant ConsumersFrom(t, m, node, ctrl, width, cons, i, s.log) == want
    {
      var step := ConnectConsumer(s, t, node, ctrl, width, cons, i);
      if step.Fault? {
        return step;
      }
      i := i + 1;
    }
    return Ok(());
  }

  /// The loop body for one GPIO controller.
  method ConnectController(s: DynamicState, t: Tree, node: int) returns (r: Result<()>)
    requires Valid(t) && IsNode(t, node)
    modifies s
    ensures s.mapping == old(s.mapping) && s.numClocks == old(s.numClocks) && s.clocks == old(s.clocks)
    ensures !r.Err?
    ensures var want := ControllerStep(t, s.mapping, node, old(s.log));
      (r.Fault? <==> want.Fault?) && (r.Ok? ==> want == Ok(s.log))
  {
    var info := s.FindMapping(node);
    if info.None? || info.value.dev.None? {
      return Ok(());
    }
    var width := GpioCells(t, node);
    var cons := ForEachNodeWithProp(t, -1, "gpios");
    assert cons == NodesWithProp(t, "gpios");
    r := ConnectConsumers(s, t, node, info.value.dev.value, width, cons);
  }

  /// mch_fdt_connect_gpio.
  method ConnectAll(s: DynamicState, t: Tree) returns (r: Result<()>)
    requires Valid(t)
    modifies s
    ensures s.clocks == old(s.clocks)
    ensures !r.Err?
    ensures var want := ConnectGpio(t, old(s.Value()));
      (r.Fault? <==> want.Fault?) && (r.Ok? ==> want == Ok(s.Value()))
  {
    var ctrls := ForEachNodeWithProp(t, -1, "gpio-controller");
    assert ctrls == NodesWithProp(t, "gpio-controller");
    ghost var m := s.mapping;
    ghost var want := ControllersFrom(t, m, ctrls, 0, s.log);
    var i := 0;
    while i < |ctrls|
      invariant i <= |ctrls|
      invariant s.mapping == m && s.numClocks == old(s.numClocks) && s.clocks == old(s.clocks)
      invariant ControllersFrom(t, m, ctrls, i, s.log) == want
    {
      var step := ConnectController(s, t, ctrls[i]);
      if step.Fault? {
        return step;
      }
      i := i + 1;
    }
    return Ok(());
  }
}
