/**
 * `LibHandle` (src/library.rs): an opened native library and its cache of
 * prepared functions, a singly-linked list searched from the head and
 * extended at the head. The platform loader is not modelled: opening,
 * symbol lookup and closing are parameters.
 */
module Library {
  import opened Wrappers
  import opened Bytes
  import opened CText
  import opened Errors
  import opened Internal
  import opened Ffi

  /** One cached function: the duplicated C name (with its terminator) and the prepared handle. */
  class LibHandleFuncList {
    const next: LibHandleFuncList?
    const name: seq<byte>
    const func: FuncHandle

    constructor (next: LibHandleFuncList?, name: seq<byte>, func: FuncHandle)
      ensures this.next == next && this.name == name && this.func == func
    {
      this.next := next;
      this.name := name;
      this.func := func;
    }
  }

  /** The view of a cache node: its name and its handle. */
  datatype Entry = Entry(name: seq<byte>, func: FuncHandle)

  /** The handle of the first entry whose C name equals `name`, scanning from the head. */
  function FindFirst(entries: seq<Entry>, name: seq<byte>): Option<FuncHandle>
    requires 0 in name && forall i :: 0 <= i < |entries| ==> 0 in entries[i].name
  {
    if |entries| == 0 then None
    else if CmpCConstChar(entries[0].name, name) then Some(entries[0].func)
    else FindFirst(entries[1..], name)
  }

  /** The scan finds nothing exactly when no entry has the name, and otherwise the handle of the first one that has it. */
  lemma {:induction false} FindFirstSpec(entries: seq<Entry>, name: seq<byte>)
    requires 0 in name && forall i :: 0 <= i < |entries| ==> 0 in entries[i].name
    ensures FindFirst(entries, name).None? <==> forall i :: 0 <= i < |entries| ==> CStrOf(entries[i].name) != CStrOf(name)
    ensures FindFirst(entries, name).Some? ==> exists i ::
      && 0 <= i < |entries| && CStrOf(entries[i].name) == CStrOf(name)
      && entries[i].func == FindFirst(entries, name).value
      && forall j :: 0 <= j < i ==> CStrOf(entries[j].name) != CStrOf(name)
  {
    if |entries| > 0 {
      FindFirstSpec(entries[1..], name);
      if CStrOf(entries[0].name) != CStrOf(name) {
        if FindFirst(entries, name).Some? {
          var i :|
            && 0 <= i < |entries[1..]| && CStrOf(entries[1..][i].name) == CStrOf(name)
            && entries[1..][i].func == FindFirst(entries, name).value
            && forall j :: 0 <= j < i ==> CStrOf(entries[1..][j].name) != CStrOf(name);
          assert forall j :: 0 <= j < i + 1 ==> CStrOf(entries[j].name) != CStrOf(name) by {
            forall j | 0 <= j < i + 1 ensures CStrOf(entries[j].name) != CStrOf(name) {
              if j > 0 {
                assert entries[j] == entries[1..][j - 1];
              }
            }
          }
          assert entries[i + 1] == entries[1..][i];
        } else {
          forall i | 0 <= i < |entries| ensures CStrOf(entries[i].name) != CStrOf(name) {
            if i > 0 {
              assert entries[i] == entries[1..][i - 1];
            }
          }
        }
      }
    }
  }

  /** No two entries carry the same C name. */
  predicate DistinctNames(entries: seq<Entry>)
    requires forall i :: 0 <= i < |entries| ==> 0 in entries[i].name
  {
    forall i, j :: 0 <= i < j < |entries| ==> CStrOf(entries[i].name) != CStrOf(entries[j].name)
  }

  /** The first node of a list, or null when it is empty. */
  function Head(ns: seq<LibHandleFuncList>): LibHandleFuncList? {
    if |ns| == 0 then null else ns[0]
  }

  /** Each node's `next` is the one after it, the last one's is null, and every name is terminated. */
  ghost predicate Linked(ns: seq<LibHandleFuncList>) {
    forall i :: 0 <= i < |ns| ==> ns[i].next == Head(ns[i + 1..]) && 0 in ns[i].name
  }

  /** The entries a list of nodes holds. */
  ghost function EntriesOf(ns: seq<LibHandleFuncList>): (r: seq<Entry>)
    ensures |r| == |ns|
    ensures forall i :: 0 <= i < |ns| ==> r[i] == Entry(ns[i].name, ns[i].func)
  {
    seq(|ns|, i requires 0 <= i < |ns| => Entry(ns[i].name, ns[i].func))
  }

  /** Following `next` from the node at `k` reaches the node at `k + 1`. */
  lemma LinkedNext(ns: seq<LibHandleFuncList>, k: nat)
    requires Linked(ns) && k < |ns|
    ensures ns[k].next == Head(ns[k + 1..]) && 0 in ns[k].name
    ensures ns[k].next == if k + 1 < |ns| then ns[k + 1] else null
  {
  }

  /** A node pointing at the old head extends the list. */
  lemma LinkedPush(n: LibHandleFuncList, ns: seq<LibHandleFuncList>)
    requires Linked(ns) && n.next == Head(ns) && 0 in n.name
    ensures Linked([n] + ns) && Head([n] + ns) == n
    ensures EntriesOf([n] + ns) == [Entry(n.name, n.func)] + EntriesOf(ns)
  {
    var ms := [n] + ns;
    forall i | 0 <= i < |ms| ensures ms[i].next == Head(ms[i + 1..]) && 0 in ms[i].name {
      assert ms[i + 1..] == ns[i..];
      if i > 0 {
        assert ms[i] == ns[i - 1];
        assert ns[i - 1].next == Head(ns[i..]);
      }
    }
    assert EntriesOf(ms) == [Entry(n.name, n.func)] + EntriesOf(ns);
  }

  /** What the teardown does, in order. */
  datatype Event = CloseLibrary(handle: nat) | FreeNode(name: seq<byte>)

  class LibHandle {
    const handle: nat
    var functions: LibHandleFuncList?
    /** The list's nodes from the head, each one's `next` the one after it. */
    ghost var nodes: seq<LibHandleFuncList>

    ghost predicate Valid()
      reads this
    {
      && functions == Head(nodes)
      && Linked(nodes)
      && DistinctNames(Entries())
    }

    /** The cache as a sequence, head first. */
    ghost function Entries(): (r: seq<Entry>)
      reads this
      ensures |r| == |nodes|
      ensures forall i :: 0 <= i < |nodes| ==> r[i] == Entry(nodes[i].name, nodes[i].func)
    {
      EntriesOf(nodes)
    }

    /** `LibHandle::new`: a library handle with an empty cache. */
    constructor (handle: nat)
      ensures Valid() && this.handle == handle && Entries() == []
    {
      this.handle := handle;
      functions := null;
      nodes := [];
    }

    /**
     * `open`: the name must convert to a C string; the platform loader
     * (`openLibrary`, given the terminated name) then yields the native
     * handle or its error, and a successful open starts with an empty cache.
     */
    static method Open(name: string, openLibrary: seq<byte> -> Result<nat>) returns (r: Result<LibHandle>)
      ensures '\0' in name ==> r == Err(RustStringToCString)
      ensures '\0' !in name && openLibrary(TryStrToCString(name).value).Err? ==>
        r == Err(openLibrary(TryStrToCString(name).value).error)
      ensures '\0' !in name && openLibrary(TryStrToCString(name).value).Ok? ==>
        && r.Ok? && fresh(r.value) && r.value.Valid() && r.value.Entries() == []
        && r.value.handle == openLibrary(TryStrToCString(name).value).value
    {
      var cname := TryStrToCString(name);
      if cname.Err? {
        return Err(cname.error);
      }
      var handle := openLibrary(cname.value);
      if handle.Err? {
        return Err(handle.error);
      }
      var lib := new LibHandle(handle.value);
      return Ok(lib);
    }

    /** `symbol`: the name must convert to a C string; the platform resolver then looks it up in this library. */
    function Symbol(name: string, resolve: (nat, seq<byte>) -> Result<nat>): (r: Result<nat>)
      ensures '\0' in name ==> r == Err(RustStringToCString)
      ensures '\0' !in name ==> r == resolve(handle, TryStrToCString(name).value)
    {
      var cname :- TryStrToCString(name);
      resolve(handle, cname)
    }

    /** `find_function`: walks the list from the head and returns the first handle whose name matches. */
    method FindFunction(name: seq<byte>) returns (r: Option<FuncHandle>)
      requires Valid() && 0 in name
      ensures r == FindFirst(Entries(), name)
    {
      var node := functions;
      ghost var entries := Entries();
      ghost var k := 0;
      assert entries[0..] == entries;
      while node != null
        invariant 0 <= k <= |nodes|
        invariant node == if k < |nodes| then nodes[k] else null
        invariant FindFirst(entries, name) == FindFirst(entries[k..], name)
        decreases |nodes| - k
      {
        assert node == nodes[k] && entries[k] == Entry(node.name, node.func);
        LinkedNext(nodes, k);
        FindFirstStep(entries, k, name);
        if CmpCConstChar(node.name, name) {
          return Some(node.func);
        }
        node := node.next;
        k := k + 1;
      }
      return None;
    }

    /**
     * `_func`: a cached handle when the name is known (the descriptor is
     * not looked at again); otherwise the symbol is resolved, a handle is
     * prepared, and a node with a copy of the name becomes the new head.
     * Either failure returns before the cache is touched.
     */
    method Func(name: seq<byte>, desc: string, resolve: (nat, seq<byte>) -> Result<nat>, prep: Helper -> PrepStatus)
      returns (r: Result<FuncHandle>)
      requires Valid() && 0 in name
      modifies this
      ensures Valid()
      ensures FindFirst(old(Entries()), name).Some? ==>
        r == Ok(FindFirst(old(Entries()), name).value) && Entries() == old(Entries())
      ensures FindFirst(old(Entries()), name).None? && resolve(handle, name).Err? ==>
        r == Err(resolve(handle, name).error) && Entries() == old(Entries())
      ensures FindFirst(old(Entries()), name).None? && resolve(handle, name).Ok? ==>
        var made := FuncHandleNew(resolve(handle, name).value, desc, prep);
        && (made.Err? ==> r == made && Entries() == old(Entries()))
        && (made.Ok? ==> r == made && Entries() == [Entry(DupCConstChar(name), made.value)] + old(Entries()))
      ensures r.Err? ==> Entries() == old(Entries())
      ensures r.Ok? ==> FindFirst(Entries(), name) == Some(r.value)
    {
      var find := FindFunction(name);
      if find.Some? {
        return Ok(find.value);
      }
      var symbol := resolve(handle, name);
      if symbol.Err? {
        return Err(symbol.error);
      }
      var func := FuncHandleNew(symbol.value, desc, prep);
      if func.Err? {
        return func;
      }
      ghost var before := Entries();
      Insert(name, func.value);
      InsertThenFind(before, name, func.value);
      return Ok(func.value);
    }

    /** Pushes a node for a name the cache does not hold yet; the new head copies the name. */
    method Insert(name: seq<byte>, h: FuncHandle)
      requires Valid() && 0 in name && FindFirst(Entries(), name).None?
      modifies this
      ensures Valid()
      ensures Entries() == [Entry(DupCConstChar(name), h)] + old(Entries())
    {
      ghost var before := Entries();
      InsertKeepsDistinct(before, name, h);
      var node := new LibHandleFuncList(functions, DupCConstChar(name), h);
      LinkedPush(node, nodes);
      functions := node;
      nodes := [node] + nodes;
    }

    /** `func`: the name must convert to a C string first. */
    method FuncByName(name: string, desc: string, resolve: (nat, seq<byte>) -> Result<nat>, prep: Helper -> PrepStatus)
      returns (r: Result<FuncHandle>)
      requires Valid()
      modifies this
      ensures Valid()
      ensures '\0' in name ==> r == Err(RustStringToCString)
      ensures '\0' !in name ==>
        var cname := TryStrToCString(name).value;
        && 0 in cname
        && (FindFirst(old(Entries()), cname).Some? ==>
              r == Ok(FindFirst(old(Entries()), cname).value) && Entries() == old(Entries()))
        && (FindFirst(old(Entries()), cname).None? && resolve(handle, cname).Err? ==>
              r == Err(resolve(handle, cname).error) && Entries() == old(Entries()))
        && (FindFirst(old(Entries()), cname).None? && resolve(handle, cname).Ok? ==>
              var made := FuncHandleNew(resolve(handle, cname).value, desc, prep);
              && (made.Err? ==> r == made && Entries() == old(Entries()))
              && (made.Ok? ==> r == made && Entries() == [Entry(DupCConstChar(cname), made.value)] + old(Entries())))
      ensures r.Err? ==> Entries() == old(Entries())
      ensures r.Ok? ==> FindFirst(Entries(), TryStrToCString(name).value) == Some(r.value)
    {
      var cname := TryStrToCString(name);
      if cname.Err? {
        return Err(cname.error);
      }
      r := Func(cname.value, desc, resolve, prep);
    }

    /** `Drop`: the library is closed first (the result ignored), then every node is freed from the head on. */
    method Drop() returns (events: seq<Event>)
      requires Valid()
      ensures |events| == |nodes| + 1 && events[0] == CloseLibrary(handle)
      ensures forall i :: 0 <= i < |nodes| ==> events[i + 1] == FreeNode(nodes[i].name)
    {
      events := [CloseLibrary(handle)];
      var node := functions;
      ghost var k := 0;
      while node != null
        invariant 0 <= k <= |nodes|
        invariant node == if k < |nodes| then nodes[k] else null
        invariant |events| == k + 1 && events[0] == CloseLibrary(handle)
        invariant forall i :: 0 <= i < k ==> events[i + 1] == FreeNode(nodes[i].name)
        decreases |nodes| - k
      {
        var next := node.next;
        LinkedNext(nodes, k);
        events := events + [FreeNode(node.name)];
        node := next;
        k := k + 1;
      }
    }
  }

  /** One step of the scan: the entry at `k` matches, or the scan goes on at `k + 1`. */
  lemma FindFirstStep(entries: seq<Entry>, k: nat, name: seq<byte>)
    requires 0 in name && forall i :: 0 <= i < |entries| ==> 0 in entries[i].name
    requires k < |entries|
    ensures FindFirst(entries[k..], name) ==
      if CStrOf(entries[k].name) == CStrOf(name) then Some(entries[k].func) else FindFirst(entries[k + 1..], name)
  {
    assert entries[k..][1..] == entries[k + 1..];
  }

  /** After a miss has been filled, looking the name up again finds the new handle. */
  lemma InsertThenFind(entries: seq<Entry>, name: seq<byte>, h: FuncHandle)
    requires 0 in name && forall i :: 0 <= i < |entries| ==> 0 in entries[i].name
    ensures FindFirst([Entry(DupCConstChar(name), h)] + entries, name) == Some(h)
  {
  }

  /** Filling a miss does not change what any other name finds. */
  lemma InsertKeepsOthers(entries: seq<Entry>, name: seq<byte>, h: FuncHandle, other: seq<byte>)
    requires 0 in name && 0 in other && CStrOf(other) != CStrOf(name)
    requires forall i :: 0 <= i < |entries| ==> 0 in entries[i].name
    ensures FindFirst([Entry(DupCConstChar(name), h)] + entries, other) == FindFirst(entries, other)
  {
    assert ([Entry(DupCConstChar(name), h)] + entries)[1..] == entries;
  }

  /** With distinct names, a name found in the cache is found at the one entry that carries it. */
  lemma FindUnique(entries: seq<Entry>, name: seq<byte>, i: nat)
    requires 0 in name && forall k :: 0 <= k < |entries| ==> 0 in entries[k].name
    requires DistinctNames(entries) && i < |entries| && CStrOf(entries[i].name) == CStrOf(name)
    ensures FindFirst(entries, name) == Some(entries[i].func)
  {
    FindFirstSpec(entries, name);
    var k :|
      && 0 <= k < |entries| && CStrOf(entries[k].name) == CStrOf(name)
      && entries[k].func == FindFirst(entries, name).value
      && forall j :: 0 <= j < k ==> CStrOf(entries[j].name) != CStrOf(name);
  }

  /** Filling a miss keeps the names distinct. */
  lemma InsertKeepsDistinct(entries: seq<Entry>, name: seq<byte>, h: FuncHandle)
    requires 0 in name && forall i :: 0 <= i < |entries| ==> 0 in entries[i].name
    requires DistinctNames(entries) && FindFirst(entries, name).None?
    ensures DistinctNames([Entry(DupCConstChar(name), h)] + entries)
  {
    var copy := DupCConstChar(name);
    assert CStrOf(copy) == CStrOf(name) by {
      assert CmpCConstChar(copy, name);
    }
    assert forall k :: 0 <= k < |entries| ==> CStrOf(entries[k].name) != CStrOf(name) by {
      FindFirstSpec(entries, name);
    }
    DistinctCons(Entry(copy, h), entries);
  }

  /** An entry whose name no other entry carries can go in front of distinct entries. */
  lemma DistinctCons(x: Entry, entries: seq<Entry>)
    requires 0 in x.name && forall i :: 0 <= i < |entries| ==> 0 in entries[i].name
    requires DistinctNames(entries)
    requires forall k :: 0 <= k < |entries| ==> CStrOf(entries[k].name) != CStrOf(x.name)
    ensures DistinctNames([x] + entries)
  {
    var e := [x] + entries;
    forall i, j | 0 <= i < j < |e| ensures CStrOf(e[i].name) != CStrOf(e[j].name) {
      assert e[j] == entries[j - 1];
      if i > 0 {
        assert e[i] == entries[i - 1];
      }
    }
  }
}
