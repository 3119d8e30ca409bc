/// The cell and `reg` codec of hw/core/fdt-mch-util.c and the property
/// helpers of include/hw/fdt-mch/fdt-mch.h. (hw/core/dtb-machine.c carries
/// a verbatim copy of _fdt_read_cells and fdt_simple_addr_size; the members
/// here model both copies.)
module Codec {
  import opened Fdt

  /// A sequence of cells read as one big-endian number.
  function BigEndian(s: seq<u32>): nat
  {
    if s == [] then 0 else BigEndian(s[..|s| - 1]) * CELL_BASE + s[|s| - 1]
  }

  lemma BigEndianSmall(s: seq<u32>)
    requires |s| <= 2
    ensures |s| == 0 ==> BigEndian(s) == 0
    ensures |s| == 1 ==> BigEndian(s) == s[0]
    ensures |s| == 2 ==> BigEndian(s) == s[0] * CELL_BASE + s[1]
    ensures BigEndian(s) < U64_MOD
  {
    if |s| == 2 {
      assert s[..1][..0] == [];
    } else if |s| == 1 {
      assert s[..0] == [];
    }
  }

  lemma MulMonotone(a: nat, b: nat, m: nat)
    requires a <= b
    ensures a * m <= b * m
  {
    assert b * m == a * m + (b - a) * m;
  }

  /// Division with remainder is unique: q·m + r with r < m divides as q, r.
  lemma ModOfMultiplePlus(q: nat, m: nat, r: nat)
    requires r < m
    ensures (q * m + r) % m == r
    ensures (q * m + r) / m == q
  {
    var x := q * m + r;
    var a, b := x / m, x % m;
    assert x == a * m + b;
    if a > q {
      MulMonotone(q + 1, a, m);
      assert false;
    } else if a < q {
      MulMonotone(a + 1, q, m);
      assert false;
    }
  }

  /// Shifting a uint64_t left by 32 bits and or-ing in a cell is, on the
  /// mathematical value, multiplying by 2^32 and adding the cell, mod 2^64.
  lemma ShiftIn(x: nat, c: nat)
    requires c < CELL_BASE
    ensures ((x % U64_MOD) * CELL_BASE) % U64_MOD + c == (x * CELL_BASE + c) % U64_MOD
  {
    var q, s := x / CELL_BASE, x % CELL_BASE;
    var q1, q0 := q / CELL_BASE, q % CELL_BASE;
    assert U64_MOD == CELL_BASE * CELL_BASE;
    assert x == q1 * U64_MOD + (q0 * CELL_BASE + s);
    ModOfMultiplePlus(q1, U64_MOD, q0 * CELL_BASE + s);
    assert (x % U64_MOD) * CELL_BASE == q0 * U64_MOD + s * CELL_BASE;
    ModOfMultiplePlus(q0, U64_MOD, s * CELL_BASE);
    assert x * CELL_BASE + c == q * U64_MOD + (s * CELL_BASE + c);
    ModOfMultiplePlus(q, U64_MOD, s * CELL_BASE + c);
  }

  /// _fdt_read_cells as a value: BADNCELLS above two cells, otherwise the
  /// big-endian concatenation of the first n cells.
  function DecodeCells(cells: seq<u32>, n: nat): (r: Result<u64>)
    requires n <= 2 ==> n <= |cells|
    ensures n > 2 <==> r == Err(ERR_BADNCELLS)
    ensures n == 0 ==> r == Ok(0)
    ensures n == 1 ==> r == Ok(cells[0])
    ensures n == 2 ==> r == Ok(cells[0] * CELL_BASE + cells[1])
  {
    if n > 2 then Err(ERR_BADNCELLS)
    else
      BigEndianSmall(cells[..n]);
      Ok(BigEndian(cells[..n]))
  }

  /// _fdt_read_cells (fdt-mch-util.c and dtb-machine.c): the loop that
  /// shifts each cell into *value.
  method ReadCells(cells: seq<u32>, n: nat) returns (r: Result<u64>)
    requires n <= 2 ==> n <= |cells|
    ensures r == DecodeCells(cells, n)
  {
    if n > 2 {
      return Err(ERR_BADNCELLS);
    }
    var value: u64 := 0;
    var i := 0;
    while i < n
      invariant 0 <= i <= n
      invariant value == BigEndian(cells[..i])
    {
      BigEndianSmall(cells[..i]);
      assert cells[..i + 1][..i] == cells[..i];
      // value <<= 32 leaves the low 32 bits clear, so |= adds the cell
      value := (value * CELL_BASE) % U64_MOD + cells[i];
      i := i + 1;
    }
    BigEndianSmall(cells[..n]);
    return Ok(value);
  }

  /// fdt_read_long(data, size): `size` cells (a count of cells, not bytes)
  /// folded into a uint64_t, so only the last two cells survive.
  method ReadLong(data: seq<u32>, size: nat) returns (r: u64)
    requires size <= |data|
    ensures r == BigEndian(data[..size]) % U64_MOD
  {
    r := 0;
    var i := 0;
    while i < size
      invariant 0 <= i <= size
      invariant r == BigEndian(data[..i]) % U64_MOD
    {
      assert data[..i + 1][..i] == data[..i];
      ShiftIn(BigEndian(data[..i]), data[i]);
      r := (r * CELL_BASE) % U64_MOD + data[i];
      i := i + 1;
    }
  }

  /// The value fdt_read_long computes: 0 for no cells, c0 for one, and the
  /// last two cells c[k-2]·2^32 + c[k-1] for k >= 2 (wrap-around mod 2^64).
  lemma {:induction false} TruncatedBigEndian(s: seq<u32>)
    ensures |s| == 0 ==> BigEndian(s) % U64_MOD == 0
    ensures |s| == 1 ==> BigEndian(s) % U64_MOD == s[0]
    ensures |s| >= 2 ==> BigEndian(s) % U64_MOD == s[|s| - 2] * CELL_BASE + s[|s| - 1]
  {
    if |s| == 1 {
      BigEndianSmall(s);
    } else if |s| >= 2 {
      var p := s[..|s| - 1];
      var pp := p[..|p| - 1];
      assert BigEndian(s) == BigEndian(p) * CELL_BASE + s[|s| - 1];
      assert BigEndian(p) == BigEndian(pp) * CELL_BASE + s[|s| - 2];
      assert U64_MOD == CELL_BASE * CELL_BASE;
      assert BigEndian(s) == BigEndian(pp) * U64_MOD + (s[|s| - 2] * CELL_BASE + s[|s| - 1]);
      ModOfMultiplePlus(BigEndian(pp), U64_MOD, s[|s| - 2] * CELL_BASE + s[|s| - 1]);
    }
  }

  /// fdt_read_array_u32: -1 when the property is absent or idx is not below
  /// len / 4; otherwise 0 and cell idx (which the caller may not ask for).
  function ReadArrayU32(t: Tree, n: int, prop: string, idx: nat): (r: Result<u32>)
    requires IsNode(t, n)
    ensures r.Ok? <==> prop in t.nodes[n].cells && idx < |t.nodes[n].cells[prop]|
    ensures r.Ok? ==> r.value == t.nodes[n].cells[prop][idx]
    ensures !r.Ok? ==> r == Err(-1)
  {
    if prop !in t.nodes[n].cells then Err(-1)
    else
      var len := 4 * |t.nodes[n].cells[prop]|;
      if idx >= len / 4 then Err(-1)
      else Ok(t.nodes[n].cells[prop][idx])
  }

  /// What fdt_simple_addr_size stores through addrp and sizep; None stands
  /// for a NULL pointer, through which nothing is read or stored.
  datatype Reg = Reg(addr: Option<u64>, size: Option<u64>)

  /// Counting in bytes instead of cells changes neither the number of
  /// whole entries nor whether the length is a whole number of them.
  lemma ScaledDivMod(len: nat, stride: nat)
    requires stride > 0
    ensures (4 * len) / (stride * 4) == len / stride
    ensures (4 * len) % (stride * 4) == 4 * (len % stride)
  {
    var q, r := len / stride, len % stride;
    assert 4 * len == q * (stride * 4) + 4 * r;
    ModOfMultiplePlus(q, stride * 4, 4 * r);
  }

  lemma EntryInBounds(len: nat, stride: nat, idx: nat)
    requires stride > 0 && idx < len / stride
    ensures stride * idx + stride <= len
  {
    var q := len / stride;
    MulMonotone(idx + 1, q, stride);
    assert q * stride <= len;
    assert stride * idx + stride == (idx + 1) * stride;
  }

  /// The address and size fields of the entry starting at cell `base`:
  /// `ac` cells of address then `sc` cells of size, each refused with
  /// BADNCELLS when wider than two cells and asked for.
  function ReadEntry(reg: seq<u32>, base: nat, ac: nat, sc: nat, wantAddr: bool, wantSize: bool): (r: Result<Reg>)
    requires base + ac + sc <= |reg|
    ensures r.Err? <==> (wantAddr && ac > 2) || (wantSize && sc > 2)
    ensures r.Err? ==> r.code == ERR_BADNCELLS
    ensures !r.Fault?
    ensures r.Ok? ==> r.value.addr.Some? == wantAddr && r.value.size.Some? == wantSize
    ensures r.Ok? && wantAddr ==> r.value.addr.value == BigEndian(reg[base..base + ac])
    ensures r.Ok? && wantSize ==> r.value.size.value == BigEndian(reg[base + ac..base + ac + sc])
  {
    assert reg[base..][..ac] == reg[base..base + ac];
    assert reg[ac + base..][..sc] == reg[base + ac..base + ac + sc];
    var addr := if wantAddr then DecodeCells(reg[base..], ac) else Ok(0);
    if addr.Err? then Err(addr.code)
    else
      var size := if wantSize then DecodeCells(reg[ac + base..], sc) else Ok(0);
      if size.Err? then Err(size.code)
      else Ok(Reg(if wantAddr then Some(addr.value) else None,
                  if wantSize then Some(size.value) else None))
  }

  /// fdt_simple_addr_size: the idx-th (address, size) pair of n's `reg`,
  /// each field #address-cells / #size-cells of the parent wide
  /// (Devicetree Specification v0.3, sections 2.3.5 and 2.3.6). The checks
  /// run in the source's order; a `reg_stride` of 0 divides by zero.
  function SimpleAddrSize(t: Tree, n: int, idx: nat, wantAddr: bool, wantSize: bool): (r: Result<Reg>)
    requires Valid(t) && IsNode(t, n)
    ensures r.Err? ==> r.code in {ERR_NOTFOUND, ERR_BADNCELLS, ERR_BADVALUE}
    ensures r.Ok? ==> r.value.addr.Some? == wantAddr && r.value.size.Some? == wantSize
    ensures r.Ok? ==> "reg" in t.nodes[n].cells
  {
    if "reg" !in t.nodes[n].cells then Err(ERR_NOTFOUND)
    else
      var reg := t.nodes[n].cells["reg"];
      var res := 4 * |reg|;
      var parent := ParentOffset(t, n);
      if parent == ERR_NOTFOUND then Err(ERR_BADNCELLS)
      else
        var ac := AddressCells(t, parent);
        if ac < 0 then Err(ac)
        else
          var sc := SizeCells(t, parent);
          if sc < 0 then Err(sc)
          else
            var stride := ac + sc;
            if stride == 0 then Fault("reg_stride is 0: division by zero")
            else if idx >= res / (stride * 4) then Err(ERR_NOTFOUND)
            else if res % (stride * 4) != 0 then Err(ERR_BADVALUE)
            else
              ScaledDivMod(|reg|, stride);
              EntryInBounds(|reg|, stride, idx);
              ReadEntry(reg, stride * idx, ac, sc, wantAddr, wantSize)
  }

  /// An index that reads successfully names cells inside `reg`.
  lemma RegIndexBound(t: Tree, n: int, idx: nat)
    requires Valid(t) && IsNode(t, n) && SimpleAddrSize(t, n, idx, true, true).Ok?
    ensures idx < |Cells(t, n, "reg")|
  {
    var reg := t.nodes[n].cells["reg"];
    var p := ParentOffset(t, n);
    var stride := AddressCells(t, p) + SizeCells(t, p);
    ScaledDivMod(|reg|, stride);
    EntryInBounds(|reg|, stride, idx);
    MulMonotone(1, stride, idx);
  }

  /// The parent's cell counts, when both lookups succeed.
  predicate CellCountsOk(t: Tree, n: int, ac: int, sc: int)
    requires Valid(t) && IsNode(t, n)
  {
    n != 0 && AddressCells(t, ParentOffset(t, n)) == ac && SizeCells(t, ParentOffset(t, n)) == sc
    && ac >= 0 && sc >= 0
  }

  /// The error paths, in the order the source checks them.
  lemma RegErrorOrder(t: Tree, n: int, idx: nat, wantAddr: bool, wantSize: bool)
    requires Valid(t) && IsNode(t, n)
    ensures "reg" !in t.nodes[n].cells ==> SimpleAddrSize(t, n, idx, wantAddr, wantSize) == Err(ERR_NOTFOUND)
    ensures "reg" in t.nodes[n].cells && n == 0 ==> SimpleAddrSize(t, n, idx, wantAddr, wantSize) == Err(ERR_BADNCELLS)
    ensures "reg" in t.nodes[n].cells && n != 0 && AddressCells(t, ParentOffset(t, n)) < 0
      ==> SimpleAddrSize(t, n, idx, wantAddr, wantSize) == Err(ERR_BADNCELLS)
    ensures "reg" in t.nodes[n].cells && n != 0 && AddressCells(t, ParentOffset(t, n)) >= 0
      && SizeCells(t, ParentOffset(t, n)) < 0
      ==> SimpleAddrSize(t, n, idx, wantAddr, wantSize) == Err(ERR_BADNCELLS)
  {
  }

  /// An out-of-range index is NOTFOUND even when the property length is not
  /// a whole number of entries: the bound is checked before the multiple.
  lemma NotFoundBeforeBadValue(t: Tree, n: int, idx: nat, wantAddr: bool, wantSize: bool, ac: int, sc: int)
    requires Valid(t) && IsNode(t, n) && "reg" in t.nodes[n].cells
    requires CellCountsOk(t, n, ac, sc) && ac + sc > 0
    ensures idx >= |t.nodes[n].cells["reg"]| / (ac + sc)
      ==> SimpleAddrSize(t, n, idx, wantAddr, wantSize) == Err(ERR_NOTFOUND)
    ensures idx < |t.nodes[n].cells["reg"]| / (ac + sc) && |t.nodes[n].cells["reg"]| % (ac + sc) != 0
      ==> SimpleAddrSize(t, n, idx, wantAddr, wantSize) == Err(ERR_BADVALUE)
  {
    ScaledDivMod(|t.nodes[n].cells["reg"]|, ac + sc);
  }

  /// On success the address is cells [stride·idx, stride·idx + ac) and the
  /// size cells [stride·idx + ac, stride·(idx + 1)); a width above two cells
  /// is refused only for a field that was asked for.
  lemma RegSuccess(t: Tree, n: int, idx: nat, wantAddr: bool, wantSize: bool, ac: int, sc: int)
    requires Valid(t) && IsNode(t, n) && "reg" in t.nodes[n].cells
    requires CellCountsOk(t, n, ac, sc) && ac + sc > 0
    requires idx < |t.nodes[n].cells["reg"]| / (ac + sc)
    requires |t.nodes[n].cells["reg"]| % (ac + sc) == 0
    ensures (ac + sc) * idx + ac + sc <= |t.nodes[n].cells["reg"]|
    ensures SimpleAddrSize(t, n, idx, wantAddr, wantSize)
      == ReadEntry(t.nodes[n].cells["reg"], (ac + sc) * idx, ac, sc, wantAddr, wantSize)
  {
    ScaledDivMod(|t.nodes[n].cells["reg"]|, ac + sc);
    EntryInBounds(|t.nodes[n].cells["reg"]|, ac + sc, idx);
  }

  /// A value fits a field of `width` cells (width 1 or 2).
  predicate Fits(v: nat, width: nat)
  {
    (width == 1 && v < CELL_BASE) || (width == 2 && v < U64_MOD)
  }

  /// The cells of one field of one or two cells, most significant first
  /// (a one-cell field keeps the low 32 bits).
  function EncodeCells(v: u64, width: nat): (r: seq<u32>)
    requires width in {1, 2}
    ensures |r| == width
  {
    if width == 1 then [v % CELL_BASE] else [v / CELL_BASE, v % CELL_BASE]
  }

  /// One (address, size) entry of a `reg` property.
  function EncodeEntry(e: (u64, u64), ac: nat, sc: nat): (r: seq<u32>)
    requires ac in {1, 2} && sc in {1, 2}
    ensures |r| == ac + sc
  {
    EncodeCells(e.0, ac) + EncodeCells(e.1, sc)
  }

  /// A `reg` property holding the given (address, size) entries.
  function EncodeReg(entries: seq<(u64, u64)>, ac: nat, sc: nat): (r: seq<u32>)
    requires ac in {1, 2} && sc in {1, 2}
    ensures |r| == |entries| * (ac + sc)
  {
    if entries == [] then []
    else EncodeEntry(entries[0], ac, sc) + EncodeReg(entries[1..], ac, sc)
  }

  lemma EncodeCellsDecodes(v: u64, width: nat)
    requires width in {1, 2} && Fits(v, width)
    ensures BigEndian(EncodeCells(v, width)) == v
  {
    BigEndianSmall(EncodeCells(v, width));
  }

  lemma MulStep(w: nat, i: nat)
    requires i > 0
    ensures w * i == w + w * (i - 1)
  {
  }

  lemma EntryWithin(w: nat, i: nat, count: nat)
    requires i < count
    ensures w * i + w <= count * w
  {
    MulMonotone(i + 1, count, w);
  }

  lemma SliceAfter(head: seq<u32>, rest: seq<u32>, x: nat, y: nat)
    requires x <= y <= |rest|
    ensures (head + rest)[|head| + x..|head| + y] == rest[x..y]
  {
  }

  lemma {:induction false} EncodeRegAt(entries: seq<(u64, u64)>, ac: nat, sc: nat, i: nat, base: nat)
    requires ac in {1, 2} && sc in {1, 2}
    requires i < |entries| && base == (ac + sc) * i
    ensures base + ac + sc <= |EncodeReg(entries, ac, sc)|
    ensures EncodeReg(entries, ac, sc)[base..base + ac + sc] == EncodeEntry(entries[i], ac, sc)
  {
    EntryWithin(ac + sc, i, |entries|);
    var r := EncodeReg(entries, ac, sc);
    var head := EncodeEntry(entries[0], ac, sc);
    var rest := EncodeReg(entries[1..], ac, sc);
    assert r == head + rest;
    if i > 0 {
      MulStep(ac + sc, i);
      var b := base - (ac + sc);
      EncodeRegAt(entries[1..], ac, sc, i - 1, b);
      SliceAfter(head, rest, b, b + ac + sc);
    }
  }

  /// Round trip: a `reg` written with one- or two-cell addresses and sizes
  /// reads back, entry by entry, as the values written.
  lemma RegRoundTrip(t: Tree, n: int, entries: seq<(u64, u64)>, ac: nat, sc: nat, idx: nat)
    requires Valid(t) && IsNode(t, n)
    requires ac in {1, 2} && sc in {1, 2} && CellCountsOk(t, n, ac, sc)
    requires "reg" in t.nodes[n].cells && t.nodes[n].cells["reg"] == EncodeReg(entries, ac, sc)
    requires idx < |entries| && Fits(entries[idx].0, ac) && Fits(entries[idx].1, sc)
    ensures SimpleAddrSize(t, n, idx, true, true) == Ok(Reg(Some(entries[idx].0), Some(entries[idx].1)))
  {
    var reg, stride := EncodeReg(entries, ac, sc), ac + sc;
    ModOfMultiplePlus(|entries|, stride, 0);
    assert |reg| / stride == |entries| && |reg| % stride == 0;
    RegSuccess(t, n, idx, true, true, ac, sc);
    EntryRoundTrip(entries, ac, sc, idx, stride * idx);
  }

  /// The entry at `base` of an encoded `reg` decodes to the pair written.
  lemma EntryRoundTrip(entries: seq<(u64, u64)>, ac: nat, sc: nat, idx: nat, base: nat)
    requires ac in {1, 2} && sc in {1, 2} && base == (ac + sc) * idx
    requires idx < |entries| && Fits(entries[idx].0, ac) && Fits(entries[idx].1, sc)
    ensures base + ac + sc <= |EncodeReg(entries, ac, sc)|
    ensures ReadEntry(EncodeReg(entries, ac, sc), base, ac, sc, true, true)
      == Ok(Reg(Some(entries[idx].0), Some(entries[idx].1)))
  {
    var reg := EncodeReg(entries, ac, sc);
    EncodeRegAt(entries, ac, sc, idx, base);
    var a, b := EncodeCells(entries[idx].0, ac), EncodeCells(entries[idx].1, sc);
    SplitSlice(reg, base, a, b);
    EncodeCellsDecodes(entries[idx].0, ac);
    EncodeCellsDecodes(entries[idx].1, sc);
    ReadEntryOf(reg, base, ac, sc, entries[idx].0, entries[idx].1);
  }

  lemma SplitSlice(reg: seq<u32>, base: nat, a: seq<u32>, b: seq<u32>)
    requires base + |a| + |b| <= |reg| && reg[base..base + |a| + |b|] == a + b
    ensures reg[base..base + |a|] == a && reg[base + |a|..base + |a| + |b|] == b
  {
    var e := reg[base..base + |a| + |b|];
    assert reg[base..base + |a|] == e[..|a|];
    assert reg[base + |a|..base + |a| + |b|] == e[|a|..];
  }

  /// An entry whose two fields decode to a and b reads as (a, b).
  lemma ReadEntryOf(reg: seq<u32>, base: nat, ac: nat, sc: nat, a: u64, b: u64)
    requires ac <= 2 && sc <= 2 && base + ac + sc <= |reg|
    requires BigEndian(reg[base..base + ac]) == a && BigEndian(reg[base + ac..base + ac + sc]) == b
    ensures ReadEntry(reg, base, ac, sc, true, true) == Ok(Reg(Some(a), Some(b)))
  {
    var e := ReadEntry(reg, base, ac, sc, true, true);
    assert e.Ok? && e.value.addr == Some(a) && e.value.size == Some(b);
  }

  /// ... and the index one past the last entry written is NOTFOUND, so
  /// fdt_for_each_reg_prop visits exactly the entries written.
  lemma RegPastEnd(t: Tree, n: int, entries: seq<(u64, u64)>, ac: nat, sc: nat)
    requires Valid(t) && IsNode(t, n)
    requires ac in {1, 2} && sc in {1, 2} && CellCountsOk(t, n, ac, sc)
    requires "reg" in t.nodes[n].cells && t.nodes[n].cells["reg"] == EncodeReg(entries, ac, sc)
    ensures SimpleAddrSize(t, n, |entries|, true, true) == Err(ERR_NOTFOUND)
  {
    var reg, stride := EncodeReg(entries, ac, sc), ac + sc;
    ModOfMultiplePlus(|entries|, stride, 0);
    NotFoundBeforeBadValue(t, n, |entries|, true, true, ac, sc);
  }

  /// fdt_node_offset_by_prop: the first node strictly after startoffset in
  /// document order that has the property, else fdt_next_node's error.
  method NodeOffsetByProp(t: Tree, start: int, prop: string) returns (off: int)
    requires -1 <= start < |t.nodes|
    ensures off >= 0 ==> start < off < |t.nodes| && HasProp(t, off, prop)
    ensures off >= 0 ==> forall j | start < j < off :: !HasProp(t, j, prop)
    ensures off < 0 ==> off == ERR_NOTFOUND && forall j | start < j < |t.nodes| :: !HasProp(t, j, prop)
  {
    off := NextNode(t, start);
    while off >= 0
      invariant off == ERR_NOTFOUND || start < off < |t.nodes|
      invariant forall j | start < j < (if off < 0 then |t.nodes| else off) :: !HasProp(t, j, prop)
      decreases if off < 0 then 0 else |t.nodes| - off
    {
      if HasProp(t, off, prop) {
        return;
      }
      off := NextNode(t, off);
    }
  }

  lemma {:induction false} SkipWithoutProp(t: Tree, prop: string, i: nat, j: nat)
    requires i <= j <= |t.nodes|
    requires forall k | i <= k < j :: !HasProp(t, k, prop)
    ensures NodesWithPropFrom(t, prop, i) == NodesWithPropFrom(t, prop, j)
    decreases j - i
  {
    if i < j {
      SkipWithoutProp(t, prop, i + 1, j);
    }
  }

  /// One step of the walk: a node that has the property, followed by the
  /// next one that has it (or the end of the tree).
  lemma VisitStep(t: Tree, prop: string, off: nat, next: nat)
    requires off < next <= |t.nodes| && HasProp(t, off, prop)
    requires forall j | off < j < next :: !HasProp(t, j, prop)
    ensures NodesWithPropFrom(t, prop, off) == [off] + NodesWithPropFrom(t, prop, next)
  {
    SkipWithoutProp(t, prop, off + 1, next);
  }

  /// fdt_for_each_node_with_prop: the offsets the loop body runs for, which
  /// are exactly the nodes after startoffset that carry the property, in
  /// strictly increasing document order.
  method ForEachNodeWithProp(t: Tree, start: int, prop: string) returns (visited: seq<int>)
    requires -1 <= start < |t.nodes|
    ensures visited == NodesWithPropFrom(t, prop, start + 1)
  {
    visited := [];
    var off := NodeOffsetByProp(t, start, prop);
    ghost var pos: nat := if off < 0 then |t.nodes| else off;
    SkipWithoutProp(t, prop, start + 1, pos);
    while off >= 0
      invariant off == ERR_NOTFOUND || (start < off < |t.nodes| && HasProp(t, off, prop))
      invariant pos == if off < 0 then |t.nodes| else off
      invariant visited + NodesWithPropFrom(t, prop, pos) == NodesWithPropFrom(t, prop, start + 1)
      decreases |t.nodes| - pos
    {
      var next := NodeOffsetByProp(t, off, prop);
      ghost var npos: nat := if next < 0 then |t.nodes| else next;
      VisitStep(t, prop, off, npos);
      assert visited + NodesWithPropFrom(t, prop, pos) == (visited + [off]) + NodesWithPropFrom(t, prop, npos);
      visited := visited + [off];
      off, pos := next, npos;
    }
    assert NodesWithPropFrom(t, prop, pos) == [];
  }

  /// n's `reg` divides by zero: present, with a parent whose cell counts are
  /// both 0 (fdt-mch-util.c:116).
  predicate RegStrideZero(t: Tree, n: int)
    requires Valid(t) && IsNode(t, n)
  {
    "reg" in t.nodes[n].cells && n != 0
    && AddressCells(t, ParentOffset(t, n)) == 0 && SizeCells(t, ParentOffset(t, n)) == 0
  }

  lemma FaultIffZeroStride(t: Tree, n: int, idx: nat, wantAddr: bool, wantSize: bool)
    requires Valid(t) && IsNode(t, n)
    ensures SimpleAddrSize(t, n, idx, wantAddr, wantSize).Fault? <==> RegStrideZero(t, n)
  {
  }

  /// The (address, size) pairs fdt_for_each_reg_prop hands to its body from
  /// idx on, after the ones already in `acc`; a zero stride faults.
  function RegVisitsFrom(t: Tree, n: int, idx: nat, acc: seq<(u64, u64)>): (r: Result<seq<(u64, u64)>>)
    requires Valid(t) && IsNode(t, n)
    ensures !r.Err?
    decreases |Cells(t, n, "reg")| - idx
  {
    match SimpleAddrSize(t, n, idx, true, true)
    case Fault(why) => Fault(why)
    case Err(_) => Ok(acc)
    case Ok(reg) =>
      RegIndexBound(t, n, idx);
      RegVisitsFrom(t, n, idx + 1, acc + [(reg.addr.value, reg.size.value)])
  }

  function RegVisits(t: Tree, n: int): (r: Result<seq<(u64, u64)>>)
    requires Valid(t) && IsNode(t, n)
    ensures !r.Err?
  {
    RegVisitsFrom(t, n, 0, [])
  }

  lemma {:induction false} RegVisitsFromExact(t: Tree, n: int, idx: nat, acc: seq<(u64, u64)>)
    requires Valid(t) && IsNode(t, n) && !RegStrideZero(t, n)
    requires |acc| == idx
    requires forall k | 0 <= k < idx :: SimpleAddrSize(t, n, k, true, true) == Ok(Reg(Some(acc[k].0), Some(acc[k].1)))
    ensures RegVisitsFrom(t, n, idx, acc).Ok?
    ensures var vs := RegVisitsFrom(t, n, idx, acc).value;
      && |vs| >= idx
      && (forall k | 0 <= k < |vs| :: SimpleAddrSize(t, n, k, true, true) == Ok(Reg(Some(vs[k].0), Some(vs[k].1))))
      && !SimpleAddrSize(t, n, |vs|, true, true).Ok?
    decreases |Cells(t, n, "reg")| - idx
  {
    FaultIffZeroStride(t, n, idx, true, true);
    var r := SimpleAddrSize(t, n, idx, true, true);
    if r.Ok? {
      RegIndexBound(t, n, idx);
      var acc' := acc + [(r.value.addr.value, r.value.size.value)];
      assert forall k | 0 <= k < idx + 1 :: SimpleAddrSize(t, n, k, true, true) == Ok(Reg(Some(acc'[k].0), Some(acc'[k].1))) by {
        forall k | 0 <= k < idx + 1
          ensures SimpleAddrSize(t, n, k, true, true) == Ok(Reg(Some(acc'[k].0), Some(acc'[k].1)))
        {
          if k < idx {
            assert acc'[k] == acc[k];
          }
        }
      }
      RegVisitsFromExact(t, n, idx + 1, acc');
    }
  }

  /// fdt_for_each_reg_prop visits idx = 0, 1, 2, ... with the pair read at
  /// idx and stops at the first idx where fdt_simple_addr_size fails; it
  /// faults exactly when the parent's cell counts are both 0.
  lemma RegVisitsExact(t: Tree, n: int)
    requires Valid(t) && IsNode(t, n)
    ensures RegVisits(t, n).Fault? <==> RegStrideZero(t, n)
    ensures RegVisits(t, n).Ok? ==> var vs := RegVisits(t, n).value;
      && (forall k | 0 <= k < |vs| :: SimpleAddrSize(t, n, k, true, true) == Ok(Reg(Some(vs[k].0), Some(vs[k].1))))
      && !SimpleAddrSize(t, n, |vs|, true, true).Ok?
  {
    FaultIffZeroStride(t, n, 0, true, true);
    if !RegStrideZero(t, n) {
      RegVisitsFromExact(t, n, 0, []);
    }
  }

  /// fdt_for_each_reg_prop(idx, fdt, node, &addr, &size): the loop, with the
  /// pairs its body sees collected in order.
  method ForEachRegProp(t: Tree, n: int) returns (r: Result<seq<(u64, u64)>>)
    requires Valid(t) && IsNode(t, n)
    ensures r == RegVisits(t, n)
  {
    var visits := [];
    var idx := 0;
    while true
      invariant RegVisitsFrom(t, n, idx, visits) == RegVisits(t, n)
      decreases |Cells(t, n, "reg")| - idx
    {
      var reg := SimpleAddrSize(t, n, idx, true, true);
      if reg.Fault? {
        return Fault(reg.reason);
      }
      if !reg.Ok? {
        return Ok(visits);
      }
      RegIndexBound(t, n, idx);
      visits := visits + [(reg.value.addr.value, reg.value.size.value)];
      idx := idx + 1;
    }
  }
}
