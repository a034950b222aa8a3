/**
 * Raw access to an aggregate's memory (src/structure.rs): a zeroed buffer
 * of the aggregate's size, and copying one member's bytes in or out at its
 * offset. Memory is an `array<byte>`; bytes read from the caller are a
 * `seq<byte>`.
 */
module Structure {
  import opened Bytes
  import opened Types

  /** `mem` with `bytes` written from offset `at` on. */
  function Overwrite(mem: seq<byte>, at: nat, bytes: seq<byte>): (r: seq<byte>)
    requires at + |bytes| <= |mem|
    ensures |r| == |mem|
    ensures r[at..at + |bytes|] == bytes
    ensures forall k :: 0 <= k < |mem| && !(at <= k < at + |bytes|) ==> r[k] == mem[k]
  {
    mem[..at] + bytes + mem[at + |bytes|..]
  }

  /** `ptr::copy_nonoverlapping` into `dst` at offset `at`, byte by byte. */
  method CopyInto(dst: array<byte>, at: nat, bytes: seq<byte>)
    requires at + |bytes| <= dst.Length
    modifies dst
    ensures dst[..] == Overwrite(old(dst[..]), at, bytes)
  {
    ghost var before := dst[..];
    for k := 0 to |bytes|
      invariant forall j :: 0 <= j < dst.Length && !(at <= j < at + k) ==> dst[j] == before[j]
      invariant forall j :: 0 <= j < k ==> dst[at + j] == bytes[j]
    {
      dst[at + k] := bytes[k];
    }
    assert dst[..] == Overwrite(before, at, bytes);
  }

  /** Whether member `index` of `st` fits in `len` bytes of memory. */
  predicate FieldFits(st: StructType, index: nat, len: nat) {
    index < |st.fields| ==> st.fields[index].offset + Size(st.fields[index].ty) <= len
  }

  /** The memory after `set_raw`: member `index` overwritten from `src`, or unchanged when there is no such member. */
  function SetRawSpec(st: StructType, mem: seq<byte>, index: nat, src: seq<byte>): (r: seq<byte>)
    requires FieldFits(st, index, |mem|)
    requires index < |st.fields| ==> Size(st.fields[index].ty) <= |src|
    ensures |r| == |mem|
  {
    if index < |st.fields| then
      Overwrite(mem, st.fields[index].offset, src[..Size(st.fields[index].ty)])
    else mem
  }

  /** The destination after `get_raw`: its first bytes are member `index` of `mem`, or it is unchanged. */
  function GetRawSpec(st: StructType, mem: seq<byte>, index: nat, dst: seq<byte>): (r: seq<byte>)
    requires FieldFits(st, index, |mem|)
    requires index < |st.fields| ==> Size(st.fields[index].ty) <= |dst|
    ensures |r| == |dst|
  {
    if index < |st.fields| then
      var f := st.fields[index];
      Overwrite(dst, 0, mem[f.offset..f.offset + Size(f.ty)])
    else dst
  }

  /** `StructType::calloc`: a fresh buffer of `size()` zero bytes. */
  method Calloc(st: StructType) returns (mem: array<byte>)
    ensures fresh(mem) && mem.Length == st.size
    ensures forall k :: 0 <= k < mem.Length ==> mem[k] == 0
  {
    mem := new byte[st.size](_ => 0);
  }

  /** `StructType::set_raw`: copies one member's bytes from `src` into the aggregate at its offset. */
  method SetRaw(st: StructType, structure: array<byte>, index: nat, src: seq<byte>)
    requires FieldFits(st, index, structure.Length)
    requires index < |st.fields| ==> Size(st.fields[index].ty) <= |src|
    modifies structure
    ensures structure[..] == SetRawSpec(st, old(structure[..]), index, src)
  {
    if index < |st.fields| {
      var f := st.fields[index];
      CopyInto(structure, f.offset, src[..Size(f.ty)]);
    }
  }

  /** `StructType::get_raw`: copies one member's bytes out of the aggregate into `rvalue`. */
  method GetRaw(st: StructType, structure: seq<byte>, index: nat, rvalue: array<byte>)
    requires FieldFits(st, index, |structure|)
    requires index < |st.fields| ==> Size(st.fields[index].ty) <= rvalue.Length
    modifies rvalue
    ensures rvalue[..] == GetRawSpec(st, structure, index, old(rvalue[..]))
  {
    if index < |st.fields| {
      var f := st.fields[index];
      CopyInto(rvalue, 0, structure[f.offset..f.offset + Size(f.ty)]);
    }
  }

  /** `set_raw` writes exactly the member's bytes, taken from the front of `src`, and nothing else. */
  lemma SetRawWritesField(st: StructType, mem: seq<byte>, index: nat, src: seq<byte>)
    requires index < |st.fields| && FieldFits(st, index, |mem|) && Size(st.fields[index].ty) <= |src|
    ensures var f := st.fields[index];
      SetRawSpec(st, mem, index, src)[f.offset..f.offset + Size(f.ty)] == src[..Size(f.ty)]
    ensures var f := st.fields[index];
      forall k :: 0 <= k < |mem| && !(f.offset <= k < f.offset + Size(f.ty)) ==> SetRawSpec(st, mem, index, src)[k] == mem[k]
  {
  }

  /** An index past the last member changes nothing, in either direction. */
  lemma OutOfRangeIsNoOp(st: StructType, mem: seq<byte>, index: nat, other: seq<byte>)
    requires index >= |st.fields|
    ensures SetRawSpec(st, mem, index, other) == mem
    ensures GetRawSpec(st, mem, index, other) == other
  {
  }

  /** `get_raw` after `set_raw` at the same index yields the bytes just written. */
  lemma GetAfterSet(st: StructType, mem: seq<byte>, index: nat, src: seq<byte>, dst: seq<byte>)
    requires index < |st.fields| && FieldFits(st, index, |mem|)
    requires Size(st.fields[index].ty) <= |src| && Size(st.fields[index].ty) <= |dst|
    ensures var n := Size(st.fields[index].ty);
      GetRawSpec(st, SetRawSpec(st, mem, index, src), index, dst)[..n] == src[..n]
  {
    SetRawWritesField(st, mem, index, src);
  }

  /** In a packed aggregate, setting one member leaves every other member's bytes as they were. */
  lemma SetKeepsOtherFields(types: seq<FuncType>, mem: seq<byte>, i: nat, j: nat, src: seq<byte>)
    requires i < |types| && j < |types| && i != j
    requires |mem| >= New(types).size && Size(types[i]) <= |src|
    ensures var st := New(types);
      var g := st.fields[j];
      FieldFits(st, i, |mem|) && FieldFits(st, j, |mem|)
      && SetRawSpec(st, mem, i, src)[g.offset..g.offset + Size(g.ty)] == mem[g.offset..g.offset + Size(g.ty)]
  {
    var st := New(types);
    LayoutWithin(types, i);
    LayoutWithin(types, j);
    if i < j {
      LayoutDisjoint(types, i, j);
    } else {
      LayoutDisjoint(types, j, i);
    }
    var g := st.fields[j];
    var r := SetRawSpec(st, mem, i, src);
    SetRawWritesField(st, mem, i, src);
    assert forall k :: g.offset <= k < g.offset + Size(g.ty) ==> r[k] == mem[k];
  }

}
