/** pj_initcache.c: a cache of parameter lists keyed by init-file name.  Lists are
    linked nodes on the heap; the cache only ever holds and hands out copies. */
module InitCache {

  class ParaList {
    var param: string
    var used: bool
    var next: ParaList?

    constructor (param: string)
      ensures this.param == param && !used && next == null
    {
      this.param, used, next := param, false, null;
    }
  }

  ghost function Nth(ns: seq<ParaList>, i: nat): ParaList? {
    if i < |ns| then ns[i] else null
  }

  // ns are the nodes reached from head, in order
  ghost predicate Chain(head: ParaList?, ns: seq<ParaList>)
    reads ns
  {
    && head == Nth(ns, 0)
    && (forall i :: 0 <= i < |ns| ==> ns[i].next == Nth(ns, i + 1))
  }

  ghost function Params(ns: seq<ParaList>): (s: seq<string>)
    reads ns
    ensures |s| == |ns|
  {
    seq(|ns|, i requires 0 <= i < |ns| reads ns => ns[i].param)
  }

  ghost predicate DistinctNodes(ns: seq<ParaList>) {
    forall i, j :: 0 <= i < j < |ns| ==> ns[i] != ns[j]
  }

  // the copy so far and its last node; no node of it is marked used
  ghost predicate Copying(head: ParaList?, last: ParaList?, cs: seq<ParaList>)
    reads cs
  {
    && Chain(head, cs) && DistinctNodes(cs) && (forall c :: c in cs ==> !c.used)
    && last == (if cs == [] then null else cs[|cs| - 1])
  }

  lemma CopyingChain(head: ParaList?, last: ParaList?, cs: seq<ParaList>)
    requires Copying(head, last, cs)
    ensures Chain(head, cs) && (forall c :: c in cs ==> !c.used) && (head == null <==> cs == [])
  {
  }

  lemma ParamsAt(ns: seq<ParaList>, i: nat)
    requires i < |ns|
    ensures Params(ns)[i] == ns[i].param
  {
  }

  lemma CopyingNothing()
    ensures Copying(null, null, [])
  {
  }

  twostate lemma ParamsKept(cs: seq<ParaList>)
    requires forall c :: c in cs ==> old(allocated(c)) && c.param == old(c.param)
    ensures Params(cs) == old(Params(cs))
  {
    assert forall i :: 0 <= i < |cs| ==> cs[i] in cs;
  }

  lemma ParamsSnoc(cs: seq<ParaList>, item: ParaList)
    ensures Params(cs + [item]) == Params(cs) + [item.param]
  {
  }

  // each node but the last points to its successor
  ghost predicate Joined(cs: seq<ParaList>)
    reads cs
  {
    forall i :: 0 <= i < |cs| - 1 ==> cs[i].next == Nth(cs, i + 1)
  }

  lemma ChainJoined(head: ParaList?, cs: seq<ParaList>)
    requires Chain(head, cs)
    ensures Joined(cs) && head == Nth(cs, 0)
  {
  }

  // Hanging item behind the last node.
  lemma ChainSnoc(head: ParaList?, cs: seq<ParaList>, item: ParaList)
    requires cs != [] && head == Nth(cs, 0) && Joined(cs)
    requires cs[|cs| - 1].next == item && item.next == null
    ensures Chain(head, cs + [item])
  {
    var all := cs + [item];
    forall i | 0 <= i < |all|
      ensures all[i].next == Nth(all, i + 1)
    {
      assert i < |cs| - 1 ==> cs[i].next == Nth(cs, i + 1);
    }
  }

  lemma ChainOne(item: ParaList)
    requires item.next == null
    ensures Chain(item, [] + [item])
  {
  }

  // One more copied node, hung behind the last one if there is one.
  method Link(head: ParaList?, last: ParaList?, param: string, ghost cs: seq<ParaList>)
    returns (head': ParaList, item: ParaList)
    requires Copying(head, last, cs)
    modifies cs
    ensures fresh(item) && Copying(head', item, cs + [item])
    ensures Params(cs + [item]) == old(Params(cs)) + [param]
  {
    hide Chain, Params;
    item := new ParaList(param);
    head' := item;
    if last == null {
      ChainOne(item);
    } else {
      ChainJoined(head, cs);
      head' := head;
      last.next := item;
      assert Joined(cs);
      ChainSnoc(head, cs, item);
    }
    ParamsKept(cs);
    ParamsSnoc(cs, item);
  }

  // The copy is a new chain with the same parameters, none of them marked used.
  method Clone(list: ParaList?, ghost ns: seq<ParaList>) returns (copy: ParaList?, ghost cs: seq<ParaList>)
    requires Chain(list, ns)
    ensures Chain(copy, cs) && Params(cs) == Params(ns)
    ensures forall c :: c in cs ==> fresh(c) && !c.used
    ensures copy == null <==> list == null
  {
    hide Copying, Params;
    copy, cs := null, [];
    var nextCopy: ParaList? := null;
    var node := list;
    ghost var params := Params(ns);
    CopyingNothing();
    assert Params(cs) == params[..0];
    while node != null
      invariant |cs| <= |ns| && node == Nth(ns, |cs|)
      invariant Chain(list, ns) && Params(ns) == params && fresh(cs)
      invariant Copying(copy, nextCopy, cs) && Params(cs) == params[..|cs|]
      decreases |ns| - |cs|
    {
      ParamsAt(ns, |cs|);
      copy, nextCopy := Link(copy, nextCopy, node.param, cs);
      cs := cs + [nextCopy];
      node := node.next;
    }
    CopyingChain(copy, nextCopy, cs);
  }

  // ---------- the abstract cache ----------

  datatype Entry = Entry(key: string, params: seq<string>)

  // The first nonempty list stored under the key; an empty one when there is none.
  function Lookup(entries: seq<Entry>, key: string): seq<string> {
    if entries == [] then []
    else if entries[0].key == key && entries[0].params != [] then entries[0].params
    else Lookup(entries[1..], key)
  }

  lemma {:induction false} LookupSkip(entries: seq<Entry>, key: string, k: nat)
    requires k <= |entries|
    requires forall i :: 0 <= i < k ==> !(entries[i].key == key && entries[i].params != [])
    ensures Lookup(entries, key) == Lookup(entries[k..], key)
  {
    if k > 0 {
      LookupSkip(entries[1..], key, k - 1);
      assert entries[1..][k - 1..] == entries[k..];
    } else {
      assert entries[0..] == entries;
    }
  }

  datatype Op = Insert(key: string, params: seq<string>) | Search(key: string) | Clear

  function Apply(entries: seq<Entry>, op: Op): seq<Entry> {
    match op
    case Insert(key, params) => entries + [Entry(key, params)]
    case Search(_) => entries
    case Clear => []
  }

  function Run(ops: seq<Op>): seq<Entry> {
    if ops == [] then [] else Apply(Run(ops[..|ops| - 1]), ops[|ops| - 1])
  }

  predicate Stores(op: Op, key: string) {
    op.Insert? && op.key == key && op.params != []
  }

  // What is in the cache once nothing has been cleared since step c.
  lemma {:induction false} RunSince(ops: seq<Op>, c: nat, key: string)
    requires c <= |ops| && (c == 0 || ops[c - 1] == Clear)
    requires forall i :: c <= i < |ops| ==> ops[i] != Clear
    requires forall i :: c <= i < |ops| ==> !Stores(ops[i], key)
    ensures forall i :: 0 <= i < |Run(ops)| ==> !(Run(ops)[i].key == key && Run(ops)[i].params != [])
  {
    if |ops| > c {
      RunSince(ops[..|ops| - 1], c, key);
    }
  }

  lemma {:induction false} RunKeeps(ops: seq<Op>, k: nat)
    requires k <= |ops| && forall i :: k <= i < |ops| ==> ops[i] != Clear
    ensures Run(ops[..k]) <= Run(ops)
  {
    if k == |ops| {
      assert ops[..k] == ops;
    } else {
      RunKeeps(ops[..|ops| - 1], k);
      assert ops[..|ops| - 1][..k] == ops[..k];
    }
  }

  // Over any history a search answers with the first nonempty list inserted under
  // its key since the last clear.
  lemma FirstInserted(ops: seq<Op>, c: nat, k: nat, key: string)
    requires c <= k < |ops| && (c == 0 || ops[c - 1] == Clear)
    requires forall i :: c <= i < |ops| ==> ops[i] != Clear
    requires forall i :: c <= i < k ==> !Stores(ops[i], key)
    requires Stores(ops[k], key)
    ensures Lookup(Run(ops), key) == ops[k].params
  {
    RunSince(ops[..k], c, key);
    RunKeeps(ops, k + 1);
    assert ops[..k + 1][..k] == ops[..k];
    var before := Run(ops[..k]);
    assert Run(ops[..k + 1]) == before + [Entry(key, ops[k].params)];
    LookupSkip(Run(ops), key, |before|);
    assert Run(ops)[|before|] == Entry(key, ops[k].params);
  }

  // With no such insertion it finds nothing.
  lemma NeverInserted(ops: seq<Op>, c: nat, key: string)
    requires c <= |ops| && (c == 0 || ops[c - 1] == Clear)
    requires forall i :: c <= i < |ops| ==> ops[i] != Clear && !Stores(ops[i], key)
    ensures Lookup(Run(ops), key) == []
  {
    RunSince(ops, c, key);
    LookupSkip(Run(ops), key, |Run(ops)|);
  }

  // ---------- the cache ----------

  class Cache {
    var count: nat
    var alloc: nat
    var keys: array<string>
    var lists: array<ParaList?>
    ghost var chains: seq<seq<ParaList>>
    ghost var entries: seq<Entry>
    ghost var history: seq<Op>
    ghost var Repr: set<object>

    ghost predicate Valid()
      reads this, Repr
    {
      && this in Repr && keys in Repr && lists in Repr
      && keys.Length == lists.Length == alloc && count <= alloc
      && |chains| == |entries| == count
      && (forall i, n :: 0 <= i < count && n in chains[i] ==> n in Repr)
      && (forall i :: 0 <= i < count ==> Chain(lists[i], chains[i]))
      && (forall i :: 0 <= i < count ==> entries[i] == Entry(keys[i], Params(chains[i])))
      && entries == Run(history)
    }

    constructor ()
      ensures Valid() && fresh(Repr) && history == []
    {
      count, alloc := 0, 0;
      keys := new string[0](_ => "");
      lists := new ParaList?[0](_ => null);
      chains, history, entries := [], [], [];
      new;
      Repr := {this, keys, lists};
    }

    // pj_clear_initcache
    method ClearAll()
      requires Valid()
      modifies this
      ensures Valid() && fresh(Repr - old(Repr)) && history == old(history) + [Clear]
    {
      hide Run, Chain, Params;
      RunClear(history);
      history := history + [Clear];
      count, alloc := 0, 0;
      keys := new string[0](_ => "");
      lists := new ParaList?[0](_ => null);
      chains, entries := [], [];
      Repr := {this, keys, lists};
    }

    // pj_search_initcache: a fresh copy of the answer, the cache untouched.
    method Find(filekey: string) returns (result: ParaList?, ghost rs: seq<ParaList>)
      requires Valid()
      ensures Valid()
      ensures Chain(result, rs) && Params(rs) == Lookup(Run(history), filekey)
      ensures forall n :: n in rs ==> fresh(n) && n !in Repr
    {
      result, rs := null, [];
      var i := 0;
      assert entries[0..] == entries;
      while result == null && i < count
        invariant 0 <= i <= count
        invariant Valid()
        invariant Chain(result, rs)
        invariant forall n :: n in rs ==> fresh(n) && n !in Repr
        invariant result == null ==> Lookup(entries, filekey) == Lookup(entries[i..], filekey)
        invariant result != null ==> Params(rs) == Lookup(entries, filekey)
      {
        LookupStep(entries, filekey, i);
        if filekey == keys[i] {
          result, rs := Clone(lists[i], chains[i]);
        }
        i := i + 1;
      }
    }

    // pj_insert_initcache: the list is copied in, at the end.
    method Store(filekey: string, list: ParaList?, ghost ns: seq<ParaList>)
      requires Valid() && Chain(list, ns)
      modifies Repr
      ensures Valid() && fresh(Repr - old(Repr))
      ensures history == old(history) + [Insert(filekey, old(Params(ns)))]
    {
      ghost var params := Params(ns);
      var copy, cs := Clone(list, ns);
      if count == alloc {
        Grow();
      }
      Put(filekey, copy, cs);
    }

    // Grow the key and list arrays together.
    method Grow()
      requires Valid() && count == alloc
      modifies this`alloc, this`keys, this`lists, this`Repr
      ensures Valid() && fresh(Repr - old(Repr)) && old(Repr) <= Repr
      ensures count < alloc
    {
      var newAlloc := alloc * 2 + 15;
      var newKeys := Extended(keys, newAlloc, "");
      var newLists := Extended(lists, newAlloc, null);
      alloc := newAlloc;
      keys := newKeys;
      lists := newLists;
      Repr := Repr + {newKeys, newLists};
    }

    // The first unused slot takes the key and the copied list.
    method FillSlot(filekey: string, copy: ParaList?)
      requires Valid() && count < alloc
      modifies keys, lists
      ensures Valid() && keys[count] == filekey && lists[count] == copy
    {
      keys[count] := filekey;
      lists[count] := copy;
    }

    // The slot and the ghost fields together.
    method Put(filekey: string, copy: ParaList?, ghost cs: seq<ParaList>)
      requires Valid() && count < alloc && Chain(copy, cs)
      requires forall c :: c in cs ==> c !in Repr
      modifies this, keys, lists
      ensures Valid() && Repr == old(Repr) + (set c | c in cs)
      ensures history == old(history) + [Insert(filekey, old(Params(cs)))]
    {
      hide Run;
      ghost var params := Params(cs);
      FillSlot(filekey, copy);
      assert Chain(copy, cs) && Params(cs) == params;
      Record(filekey, cs, params);
    }

    // Count the slot that was filled.
    method Record(filekey: string, ghost cs: seq<ParaList>, ghost params: seq<string>)
      requires Valid() && count < alloc && keys[count] == filekey && Chain(lists[count], cs) && params == Params(cs)
      modifies this`count, this`chains, this`entries, this`history, this`Repr
      ensures Valid() && Repr == old(Repr) + (set c | c in cs)
      ensures history == old(history) + [Insert(filekey, params)]
    {
      hide Run, Chain, Params;
      RunInsert(history, filekey, params);
      count := count + 1;
      chains := chains + [cs];
      entries := entries + [Entry(filekey, params)];
      history := history + [Insert(filekey, params)];
      Repr := Repr + (set c | c in cs);
    }
  }

  lemma RunClear(ops: seq<Op>)
    ensures Run(ops + [Clear]) == []
  {
    assert (ops + [Clear])[..|ops|] == ops;
  }

  lemma RunInsert(ops: seq<Op>, key: string, params: seq<string>)
    ensures Run(ops + [Insert(key, params)]) == Run(ops) + [Entry(key, params)]
  {
    assert (ops + [Insert(key, params)])[..|ops|] == ops;
  }

  // A longer array that starts with the elements of a.
  method Extended<T>(a: array<T>, length: nat, filler: T) returns (b: array<T>)
    requires a.Length <= length
    ensures fresh(b) && b.Length == length
    ensures forall k :: 0 <= k < a.Length ==> b[k] == a[k]
  {
    b := new T[length](_ => filler);
    for i := 0 to a.Length
      invariant forall k :: 0 <= k < i ==> b[k] == a[k]
    {
      b[i] := a[i];
    }
  }

  lemma LookupStep(entries: seq<Entry>, key: string, i: nat)
    requires i < |entries|
    ensures Lookup(entries[i..], key)
         == if entries[i].key == key && entries[i].params != [] then entries[i].params
            else Lookup(entries[i + 1..], key)
  {
    assert entries[i..][1..] == entries[i + 1..];
  }

  // ---------- clients ----------

  // What a client can do: insert a list it builds, search, clear, and overwrite any node of
  // the lists it built or was given, link included.
  datatype ClientStep =
    | Keep(key: string, params: seq<string>)
    | Ask(key: string)
    | Forget
    | Overwrite(node: nat, param: string, used: bool, next: nat)

  // the cache operations of the steps; overwriting is none
  function Ops(before: seq<Op>, steps: seq<ClientStep>): seq<Op> {
    if steps == [] then before
    else
      var ops := Ops(before, steps[..|steps| - 1]);
      match steps[|steps| - 1]
      case Keep(key, params) => ops + [Insert(key, params)]
      case Forget => ops + [Clear]
      case _ => ops
  }

  // the answers of the searches among the steps
  function Replies(before: seq<Op>, steps: seq<ClientStep>): seq<seq<string>> {
    if steps == [] then []
    else
      var init, last := steps[..|steps| - 1], steps[|steps| - 1];
      Replies(before, init) + if last.Ask? then [Lookup(Run(Ops(before, init)), last.key)] else []
  }

  lemma StepOn(before: seq<Op>, steps: seq<ClientStep>, i: nat)
    requires i < |steps|
    ensures var ops := Ops(before, steps[..i]);
      && Ops(before, steps[..i + 1])
         == (if steps[i].Keep? then ops + [Insert(steps[i].key, steps[i].params)]
             else if steps[i].Forget? then ops + [Clear] else ops)
      && Replies(before, steps[..i + 1])
         == Replies(before, steps[..i]) + if steps[i].Ask? then [Lookup(Run(ops), steps[i].key)] else []
  {
    assert steps[..i + 1][..i] == steps[..i];
  }

  lemma InFront(node: ParaList, head: ParaList?, ns: seq<ParaList>)
    requires Chain(head, ns) && node.next == head
    ensures Chain(node, [node] + ns) && Params([node] + ns) == [node.param] + Params(ns)
  {
    forall i | 0 <= i < |ns| + 1
      ensures ([node] + ns)[i].next == Nth([node] + ns, i + 1)
    {
      assert i > 0 ==> ns[i - 1].next == Nth(ns, i);
    }
  }

  // A list of a client's own.
  method Built(params: seq<string>) returns (head: ParaList?, ns: seq<ParaList>)
    ensures Chain(head, ns) && Params(ns) == params && fresh(ns)
  {
    hide Chain, Params;
    head, ns := null, [];
    NothingBuilt();
    var i := |params|;
    while i > 0
      invariant 0 <= i <= |params| && fresh(ns)
      invariant Chain(head, ns) && Params(ns) == params[i..]
    {
      i := i - 1;
      assert params[i..] == [params[i]] + params[i + 1..];
      var node := new ParaList(params[i]);
      node.next := head;
      InFront(node, head, ns);
      ns := [node] + ns;
      head := node;
    }
  }

  lemma NothingBuilt()
    ensures Chain(null, []) && Params([]) == []
  {
  }

  // Walk a list: its nodes and what is in them.
  method Walk(head: ParaList?, ghost ns: seq<ParaList>) returns (nodes: seq<ParaList>, params: seq<string>)
    requires Chain(head, ns)
    ensures nodes == ns && params == Params(ns)
  {
    nodes, params := [], [];
    var node := head;
    while node != null
      invariant |nodes| <= |ns| && nodes == ns[..|nodes|] && node == Nth(ns, |nodes|)
      invariant params == Params(ns)[..|nodes|]
      decreases |ns| - |nodes|
    {
      nodes, params := nodes + [node], params + [node.param];
      node := node.next;
    }
  }

  // Over any sequence of steps every search answers from the inserted lists as they were
  // when they were inserted: the overwriting in between changes no answer.
  method Session(cache: Cache, steps: seq<ClientStep>) returns (answers: seq<seq<string>>)
    requires cache.Valid()
    modifies cache.Repr
    ensures cache.Valid() && cache.history == Ops(old(cache.history), steps)
    ensures answers == Replies(old(cache.history), steps)
  {
    hide Chain, Params, Replies, Ops, Run, Lookup;
    ghost var before := cache.history;
    NoSteps(before);
    assert steps[..0] == [] && steps[..|steps|] == steps;
    answers := [];
    var mine: seq<ParaList> := [];
    for i := 0 to |steps|
      invariant cache.Valid() && fresh(cache.Repr - old(cache.Repr))
      invariant forall n :: n in mine ==> fresh(n) && n !in cache.Repr
      invariant cache.history == Ops(before, steps[..i])
      invariant answers == Replies(before, steps[..i])
    {
      StepOn(before, steps, i);
      match steps[i] {
        case Keep(key, params) =>
          var head, ns := Built(params);
          cache.Store(key, head, ns);
          mine := mine + ns;
        case Ask(key) =>
          var head, rs := cache.Find(key);
          var nodes, params := Walk(head, rs);
          mine := mine + nodes;
          answers := answers + [params];
        case Forget =>
          cache.ClearAll();
        case Overwrite(k, param, used, next) =>
          if k < |mine| {
            Scribble(cache, mine[k], param, used, if next < |mine| then mine[next] else null);
          }
      }
    }
  }

  lemma NoSteps(before: seq<Op>)
    ensures Ops(before, []) == before && Replies(before, []) == []
  {
  }

  // Writing to a node that is not the cache's leaves the cache as it was.
  method Scribble(cache: Cache, node: ParaList, param: string, used: bool, next: ParaList?)
    requires cache.Valid() && node !in cache.Repr
    modifies node
    ensures cache.Valid() && cache.history == old(cache.history)
  {
    node.param, node.used, node.next := param, used, next;
  }
}
