/// The compatible-string helpers of include/hw/fdt-mch/fdt-mch.h and
/// include/hw/dtb-parse/dtb-parse.h, and the name tests of the device
/// blocklist and fixup in hw/core/fdt-mch.c and hw/core/dtb-machine.c.
module Compat {
  import opened Fdt

  /// The position of the first c in s, or |s| when there is none: strchr
  /// over a string that holds no NUL, and the linear searches over a table.
  function IndexOf<T(==)>(s: seq<T>, c: T): (i: nat)
    ensures i <= |s|
    ensures i < |s| ==> s[i] == c
    ensures forall j | 0 <= j < i :: s[j] != c
  {
    if s == [] then 0
    else if s[0] == c then 0
    else 1 + IndexOf(s[1..], c)
  }

  /// strip_compat_string / str_fdt_compat_strip: the part after the first
  /// ',' (the vendor prefix dropped), or the whole string when it has none.
  function StripCompat(s: string): string
  {
    var i := IndexOf(s, ',');
    if i < |s| then s[i + 1..] else s
  }

  /// The result is a suffix of the input; it is strictly shorter exactly
  /// when the input has a ',', and then the dropped part is the vendor
  /// name (no ',') followed by the first ','.
  lemma StripCompatSuffix(s: string)
    ensures |StripCompat(s)| <= |s| && s[|s| - |StripCompat(s)|..] == StripCompat(s)
    ensures |StripCompat(s)| < |s| <==> ',' in s
    ensures ',' in s ==> var k := |s| - |StripCompat(s)| - 1;
      s[k] == ',' && ',' !in s[..k]
    ensures ',' !in s ==> StripCompat(s) == s
  {
    var i := IndexOf(s, ',');
    if ',' in s {
      var j :| 0 <= j < |s| && s[j] == ',';
      assert i <= j;
    }
  }

  /// The '-'-to-'_' (or '@'-to-NUL) rewrite of subst_compat_string, as a
  /// value: every src becomes dst, everything else is kept.
  function SubstChars(s: string, src: char, dst: char): (r: string)
    ensures |r| == |s|
    ensures forall i | 0 <= i < |s| :: r[i] == (if s[i] == src then dst else s[i])
  {
    if s == [] then [] else [if s[0] == src then dst else s[0]] + SubstChars(s[1..], src, dst)
  }

  /// subst_compat_string: g_strdup of s1, then the loop that rewrites the
  /// copy up to its NUL. The input is not touched; the copy is new.
  method SubstCompat(s: string, src: char, dst: char) returns (buf: array<char>)
    requires '\0' !in s
    ensures fresh(buf) && buf.Length == |s| + 1
    ensures buf[..|s|] == SubstChars(s, src, dst) && buf[|s|] == '\0'
  {
    buf := new char[|s| + 1];
    var k := 0;
    while k < |s|
      invariant 0 <= k <= |s|
      invariant forall i | 0 <= i < k :: buf[i] == s[i]
    {
      buf[k] := s[k];
      k := k + 1;
    }
    buf[|s|] := '\0';
    var p := 0;
    while buf[p] != '\0'
      invariant 0 <= p <= |s| && buf[|s|] == '\0'
      invariant forall i | 0 <= i < p :: buf[i] == (if s[i] == src then dst else s[i])
      invariant forall i | p <= i < |s| :: buf[i] == s[i]
      decreases |s| - p
    {
      if buf[p] == src {
        buf[p] := dst;
      }
      p := p + 1;
    }
    assert buf[..|s|] == SubstChars(s, src, dst);
  }

  /// Rewriting with dst = NUL cuts the C string at the first src: this is
  /// how the clock builder drops the `@unit-address` of a node name.
  lemma {:induction false} CutAt(s: string, src: char)
    requires '\0' !in s && src != '\0'
    ensures CString(SubstChars(s, src, '\0')) == s[..IndexOf(s, src)]
  {
    if s != [] && s[0] != src {
      CutAt(s[1..], src);
      assert SubstChars(s, src, '\0') == [s[0]] + SubstChars(s[1..], src, '\0');
    }
  }

  /// The names fdt_device_blocklist refuses.
  const BLOCKLIST: seq<string> := ["pl050"]

  /// strncmp(dev_id, entry, strlen(entry)) == 0: dev_id begins with entry.
  predicate HasPrefix(s: string, prefix: string)
  {
    |prefix| <= |s| && s[..|prefix|] == prefix
  }

  /// The blocklist loop from entry i on: -1 at the first entry that
  /// prefixes dev_id, 0 past the last one.
  function BlocklistFrom(id: string, i: nat): (r: int)
    requires i <= |BLOCKLIST|
    decreases |BLOCKLIST| - i
  {
    if i == |BLOCKLIST| then 0
    else if HasPrefix(id, BLOCKLIST[i]) then -1
    else BlocklistFrom(id, i + 1)
  }

  /// fdt_device_blocklist (hw/core/fdt-mch.c)
  function Blocklist(id: string): (r: int)
    ensures r == -1 <==> HasPrefix(id, "pl050")
    ensures r == 0 <==> !HasPrefix(id, "pl050")
  {
    BlocklistFrom(id, 0)
  }

  /// fdt_device_blocklist of hw/core/dtb-machine.c, as written: the loop
  /// returns -1 on a match and then falls off the end of a function
  /// returning int. None stands for that missing return value.
  function DtbBlocklistAsWritten(id: string): (r: Option<int>)
    ensures r.Some? <==> HasPrefix(id, "pl050")
    ensures r.Some? ==> r.value == Blocklist(id)
  {
    if HasPrefix(id, BLOCKLIST[0]) then Some(-1) else None
  }

  /// A name that is not blocklisted gets no return value from the
  /// dtb-machine.c copy, where the fdt-mch.c copy returns 0.
  lemma DtbBlocklistMissingReturn()
    ensures DtbBlocklistAsWritten("pl011").None?
    ensures Blocklist("pl011") == 0
  {
    assert !HasPrefix("pl011", "pl050") by {
      assert "pl011"[..5][3] != "pl050"[3];
    }
  }

  /// fdt_device_fixup's test: strncmp(dev_id, "pl08x", 4) == 0, so only
  /// the first four characters "pl08" are compared.
  predicate NeedsDownstream(id: string)
  {
    HasPrefix(id, "pl08x"[..4])
  }

  /// For every name: the fixup applies exactly when the name has at least
  /// four characters and they are "pl08".
  lemma FixupPrefix(id: string)
    ensures NeedsDownstream(id) <==> |id| >= 4 && id[..4] == "pl08"
  {
    assert "pl08x"[..4] == "pl08";
  }

  lemma FixupExamples()
    ensures NeedsDownstream("pl080") && NeedsDownstream("pl081") && NeedsDownstream("pl08x")
    ensures !NeedsDownstream("pl050") && !NeedsDownstream("pl0")
  {
    assert "pl080"[..4] == "pl08";
    assert "pl081"[..4] == "pl08";
    assert "pl08x"[..4] == "pl08";
    assert "pl050"[..4][3] != "pl08"[3];
  }
}
