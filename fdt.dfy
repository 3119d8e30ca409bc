/// The flattened device tree as the builder sees it, after the blob has been
/// parsed: nodes in document order (a node's offset is its index), each with
/// a parent offset, a name and its properties, plus the phandle table.
/// The libfdt primitives the source calls (fdt_getprop, fdt_parent_offset,
/// fdt_next_node, fdt_address_cells, fdt_size_cells,
/// fdt_node_offset_by_phandle, the string-list readers) are stated here over
/// that sequence.
module Fdt {

  type u8 = x: int | 0 <= x < 0x100
  type u32 = x: int | 0 <= x < 0x1_0000_0000
  type u64 = x: int | 0 <= x < 0x1_0000_0000_0000_0000

  /// 2^32: one cell shifted left by `sizeof(fdt32_t) * 8` bits
  const CELL_BASE: nat := 0x1_0000_0000
  /// 2^64: the modulus of uint64_t arithmetic
  const U64_MOD: nat := 0x1_0000_0000_0000_0000

  /// libfdt error codes, as the negative values its functions return
  const ERR_NOTFOUND: int := -1
  const ERR_BADPHANDLE: int := -6
  const ERR_BADNCELLS: int := -14
  const ERR_BADVALUE: int := -15
  /// FDT_MAX_NCELLS: the largest #address-cells / #size-cells libfdt accepts
  const MAX_NCELLS: int := 4

  datatype Option<+T> = None | Some(value: T)

  /// What a C call in the source ends in: a value (which for the libfdt-style
  /// functions may itself be a negative error code), an error code returned
  /// early, or a Fault -- a failed g_assert, or undefined behaviour
  /// (out-of-bounds access, division by zero, read of an uninitialised
  /// variable, a loop that never ends).
  datatype Result<+T> = Ok(value: T) | Err(code: int) | Fault(reason: string)

  /// A NUL-terminated string of the blob: it holds no NUL itself.
  type CStr = s: string | '\0' !in s

  /// A property is either a cell array (`cells`) or a string list
  /// (`strings`), never both; the cell readers see only the first map and
  /// the string readers only the second.
  datatype Node = Node(
    name: CStr,
    parent: int,
    cells: map<string, seq<u32>>,
    strings: map<string, seq<CStr>>)

  datatype Tree = Tree(nodes: seq<Node>, phandles: map<u32, int>)

  /// Document order puts every parent before its children; node 0 is the root.
  predicate Valid(t: Tree)
  {
    && |t.nodes| > 0
    && t.nodes[0].parent == -1
    && (forall i | 0 < i < |t.nodes| :: 0 <= t.nodes[i].parent < i)
    && (forall i | 0 <= i < |t.nodes| :: t.nodes[i].cells.Keys !! t.nodes[i].strings.Keys)
    && (forall p | p in t.phandles :: 0 <= t.phandles[p] < |t.nodes|)
  }

  /// fdt_get_name
  function NodeName(t: Tree, n: int): string
    requires IsNode(t, n)
  {
    t.nodes[n].name
  }

  predicate IsNode(t: Tree, n: int)
  {
    0 <= n < |t.nodes|
  }

  /// fdt_getprop(fdt, n, prop, NULL) != NULL
  predicate HasProp(t: Tree, n: int, prop: string)
    requires IsNode(t, n)
  {
    prop in t.nodes[n].cells || prop in t.nodes[n].strings
  }

  /// The cells of a property, empty when the node has no such cell property.
  function Cells(t: Tree, n: int, prop: string): seq<u32>
    requires IsNode(t, n)
  {
    if prop in t.nodes[n].cells then t.nodes[n].cells[prop] else []
  }

  /// The strings of a string-list property, empty when absent
  /// (fdt_stringlist_count is then negative, so no entry is visited).
  function Strings(t: Tree, n: int, prop: string): seq<CStr>
    requires IsNode(t, n)
  {
    if prop in t.nodes[n].strings then t.nodes[n].strings[prop] else []
  }

  /// A one-cell property: the value when the property holds exactly one cell.
  function GetPropCell(t: Tree, n: int, prop: string): Option<u32>
    requires IsNode(t, n)
  {
    if prop in t.nodes[n].cells && |t.nodes[n].cells[prop]| == 1
    then Some(t.nodes[n].cells[prop][0]) else None
  }

  /// fdt_parent_offset: the parent's offset, -FDT_ERR_NOTFOUND for the root.
  function ParentOffset(t: Tree, n: int): (p: int)
    requires Valid(t) && IsNode(t, n)
    ensures p == ERR_NOTFOUND || (0 <= p < n)
    ensures p == ERR_NOTFOUND <==> n == 0
  {
    t.nodes[n].parent
  }

  /// fdt_next_node(fdt, offset, NULL): the next node in document order, or
  /// -FDT_ERR_NOTFOUND after the last one. Offset -1 starts at the root.
  function NextNode(t: Tree, off: int): (r: int)
    requires -1 <= off < |t.nodes|
    ensures r == ERR_NOTFOUND || (r == off + 1 && IsNode(t, r))
  {
    if off + 1 < |t.nodes| then off + 1 else ERR_NOTFOUND
  }

  /// fdt_node_offset_by_phandle
  function PhandleOffset(t: Tree, ph: u32): (r: int)
    requires Valid(t)
    ensures r >= 0 ==> IsNode(t, r)
  {
    if ph == 0 || ph == 0xFFFF_FFFF then ERR_BADPHANDLE
    else if ph in t.phandles then t.phandles[ph]
    else ERR_NOTFOUND
  }

  /// The libfdt cell-count reader shared by fdt_address_cells and
  /// fdt_size_cells: `dflt` when the property is absent, BADNCELLS unless it
  /// is one cell of at most FDT_MAX_NCELLS.
  function CellCount(t: Tree, n: int, prop: string, dflt: int): (r: int)
    requires IsNode(t, n) && 0 <= dflt <= MAX_NCELLS
    ensures r == ERR_BADNCELLS || 0 <= r <= MAX_NCELLS
  {
    if prop !in t.nodes[n].cells then dflt
    else if |t.nodes[n].cells[prop]| != 1 || t.nodes[n].cells[prop][0] > MAX_NCELLS then ERR_BADNCELLS
    else t.nodes[n].cells[prop][0]
  }

  /// fdt_address_cells (default 2)
  function AddressCells(t: Tree, n: int): int
    requires IsNode(t, n)
  {
    CellCount(t, n, "#address-cells", 2)
  }

  /// fdt_size_cells (default 1)
  function SizeCells(t: Tree, n: int): int
    requires IsNode(t, n)
  {
    CellCount(t, n, "#size-cells", 1)
  }

  /// The children of n among the nodes at offsets i and after, in document
  /// order (fdt_for_each_subnode).
  function ChildrenFrom(t: Tree, n: int, i: nat): (r: seq<int>)
    requires i <= |t.nodes|
    ensures |r| <= |t.nodes| - i
    ensures forall k | 0 <= k < |r| :: i <= r[k] < |t.nodes| && t.nodes[r[k]].parent == n
    ensures forall j | i <= j < |t.nodes| && t.nodes[j].parent == n :: j in r
    ensures forall k, l | 0 <= k < l < |r| :: r[k] < r[l]
    decreases |t.nodes| - i
  {
    if i == |t.nodes| then []
    else if t.nodes[i].parent == n then [i] + ChildrenFrom(t, n, i + 1)
    else ChildrenFrom(t, n, i + 1)
  }

  function Children(t: Tree, n: int): (r: seq<int>)
    requires Valid(t) && IsNode(t, n)
    ensures |r| < |t.nodes| - n
    ensures forall k | 0 <= k < |r| :: n < r[k] < |t.nodes| && t.nodes[r[k]].parent == n
    ensures forall j | IsNode(t, j) && t.nodes[j].parent == n :: j in r
  {
    ChildrenFrom(t, n, n + 1)
  }

  /// The offsets at i and after that carry prop, in document order.
  function NodesWithPropFrom(t: Tree, prop: string, i: nat): (r: seq<int>)
    requires i <= |t.nodes|
    ensures |r| <= |t.nodes| - i
    decreases |t.nodes| - i
  {
    if i == |t.nodes| then []
    else if HasProp(t, i, prop) then [i] + NodesWithPropFrom(t, prop, i + 1)
    else NodesWithPropFrom(t, prop, i + 1)
  }

  /// NodesWithPropFrom lists every node at i or after that carries the
  /// property, and no other, in strictly increasing order.
  lemma {:induction false} NodesWithPropExact(t: Tree, prop: string, i: nat)
    requires i <= |t.nodes|
    ensures forall k | 0 <= k < |NodesWithPropFrom(t, prop, i)| ::
      i <= NodesWithPropFrom(t, prop, i)[k] < |t.nodes| && HasProp(t, NodesWithPropFrom(t, prop, i)[k], prop)
    ensures forall j | i <= j < |t.nodes| && HasProp(t, j, prop) :: j in NodesWithPropFrom(t, prop, i)
    ensures forall k, l | 0 <= k < l < |NodesWithPropFrom(t, prop, i)| ::
      NodesWithPropFrom(t, prop, i)[k] < NodesWithPropFrom(t, prop, i)[l]
    decreases |t.nodes| - i
  {
    if i < |t.nodes| {
      NodesWithPropExact(t, prop, i + 1);
      var r, rest := NodesWithPropFrom(t, prop, i), NodesWithPropFrom(t, prop, i + 1);
      if HasProp(t, i, prop) {
        assert r == [i] + rest;
        assert forall k | 1 <= k < |r| :: r[k] == rest[k - 1];
      }
    }
  }

  /// Every node that carries prop, in strictly increasing document order.
  function NodesWithProp(t: Tree, prop: string): (r: seq<int>)
    ensures forall k | 0 <= k < |r| :: IsNode(t, r[k])
  {
    NodesWithPropExact(t, prop, 0);
    NodesWithPropFrom(t, prop, 0)
  }

  /// The C-string value of a buffer: everything before its first NUL.
  function CString(s: string): (r: string)
    ensures r <= s && '\0' !in r
    ensures |r| < |s| ==> s[|r|] == '\0'
  {
    if s == [] || s[0] == '\0' then [] else [s[0]] + CString(s[1..])
  }

  /// strstr(s, sub) != NULL
  predicate Contains(s: string, sub: string)
  {
    sub <= s || (s != [] && Contains(s[1..], sub))
  }
}
