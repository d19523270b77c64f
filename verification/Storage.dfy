/**
 The example storage on the heap: an array of doubly linked bins, its iterator, and the
 bookkeeping of what was allocated, freed, cloned and dropped.
 */
module Storage {
  import opened Text
  import opened Keys
  import opened Tables

  /** What was allocated, freed, cloned and dropped so far. */
  datatype Ledger = Ledger(mallocs: nat, frees: nat, clones: nat, drops: nat)

  function Plus(l: Ledger, mallocs: nat, frees: nat, clones: nat, drops: nat): Ledger {
    Ledger(l.mallocs + mallocs, l.frees + frees, l.clones + clones, l.drops + drops)
  }

  /** The allocator. Only its two methods and the four primitives of `Node` move its tally. */
  class Heap {
    ghost var tally: Ledger

    constructor ()
      ensures tally == Ledger(0, 0, 0, 0)
    {
      tally := Ledger(0, 0, 0, 0);
    }

    /** `z_malloc` of the array of bins. */
    method MallocBins()
      modifies this
      ensures tally == Plus(old(tally), 1, 0, 0, 0)
    {
      tally := Plus(tally, 1, 0, 0, 0);
    }

    /** `z_free` of the array of bins. */
    method FreeBins()
      modifies this
      ensures tally == Plus(old(tally), 0, 1, 0, 0)
    {
      tally := Plus(tally, 0, 1, 0, 0);
    }
  }

  /** A pointer field; `Wild` is what memory holds before it is written and after it is freed. */
  datatype Link = Wild | To(node: Node?)

  /** A node. A link can be followed, and a sample read, only while the node has it. */
  class Node {
    /** The clone that the node owns. */
    var sample: Option<Sample>
    var next: Link
    var prev: Link
    /** The memory is allocated. */
    ghost var live: bool

    /** `z_malloc`: the memory is live and nothing in it can be read. */
    constructor Malloc(heap: Heap)
      modifies heap
      ensures live && sample == None && next == Wild && prev == Wild
      ensures heap.tally == Plus(old(heap.tally), 1, 0, 0, 0)
    {
      live, sample, next, prev := true, None, Wild, Wild;
      new;
      heap.tally := Plus(heap.tally, 1, 0, 0, 0);
    }

    method SetNext(node: Node?)
      requires live
      modifies this`next
      ensures next == To(node)
    {
      next := To(node);
    }

    method SetPrev(node: Node?)
      requires live
      modifies this`prev
      ensures prev == To(node)
    {
      prev := To(node);
    }

    /** `z_sample_clone` into memory that owns no sample. */
    method Clone(heap: Heap, s: Sample)
      requires live && sample.None?
      modifies this`sample, heap
      ensures sample == Some(s)
      ensures heap.tally == Plus(old(heap.tally), 0, 0, 1, 0)
    {
      sample := Some(s);
      heap.tally := Plus(heap.tally, 0, 0, 1, 0);
    }

    /** `z_drop` of the owned sample: at most once per clone, never after a free. */
    method Drop(heap: Heap)
      requires live && sample.Some?
      modifies this`sample, heap
      ensures sample == None
      ensures heap.tally == Plus(old(heap.tally), 0, 0, 0, 1)
    {
      sample := None;
      heap.tally := Plus(heap.tally, 0, 0, 0, 1);
    }

    /** Freed memory: it is not live and nothing in it can be read. */
    ghost predicate Gone()
      reads this
    {
      !live && sample == None && next == Wild && prev == Wild
    }

    /** `z_free`: once, and only after the sample was dropped. */
    method Free(heap: Heap)
      requires live && sample.None?
      modifies this, heap
      ensures Gone()
      ensures heap.tally == Plus(old(heap.tally), 0, 1, 0, 0)
    {
      live, next, prev := false, Wild, Wild;
      heap.tally := Plus(heap.tally, 0, 1, 0, 0);
    }
  }

  // ---------------------------------------------------------------- one bin

  ghost function NodeAt(ns: seq<Node>, i: int): Node? {
    if 0 <= i < |ns| then ns[i] else null
  }

  ghost predicate NoRepeats(ns: seq<Node>) {
    forall i, j | 0 <= i < j < |ns| :: ns[i] != ns[j]
  }

  /** Live nodes that own the samples `ss`. */
  ghost predicate Owning(ns: seq<Node>, ss: Bin)
    reads ns`live, ns`sample
  {
    && |ns| == |ss|
    && forall i | 0 <= i < |ns| :: ns[i].live && ns[i].sample == Some(ss[i])
  }

  /** From position `k` on, every node points to its neighbours. */
  ghost predicate Linked(ns: seq<Node>, k: nat)
    reads ns`next, ns`prev
  {
    && (forall i {:trigger ns[i].next} | k <= i < |ns| :: ns[i].next == To(NodeAt(ns, i + 1)))
    && (forall i {:trigger ns[i].prev} | k <= i < |ns| :: ns[i].prev == To(NodeAt(ns, i - 1)))
  }

  /** `head` starts a list of distinct live nodes, linked both ways, that holds `ss`. */
  ghost predicate Chain(head: Node?, ns: seq<Node>, ss: Bin)
    reads ns
  {
    head == NodeAt(ns, 0) && NoRepeats(ns) && Linked(ns, 0) && Owning(ns, ss)
  }

  /** `_storage_find` */
  method FindNode(head: Node?, ghost ns: seq<Node>, ghost ss: Bin, key: Key) returns (res: Node?)
    requires Chain(head, ns, ss)
    ensures res == NodeAt(ns, Pos(ss, key))
  {
    res := head;
    ghost var k := 0;
    while res != null
      invariant k <= |ns| && res == NodeAt(ns, k)
      invariant forall j | 0 <= j < k :: ss[j].key != key
      decreases |ns| - k
    {
      assert res == ns[k] && res.live && res.sample == Some(ss[k]);
      CompareKeys(res.sample.value.key, key);
      if Compare(res.sample.value.key, key) {
        PosUnique(ss, key, k);
        return;
      }
      res := res.next.node;
      k := k + 1;
    }
    PosUnique(ss, key, |ss|);
  }

  /** Replaces the sample of one node. */
  method Overwrite(heap: Heap, head: Node?, ghost ns: seq<Node>, ghost ss: Bin, ghost k: nat, res: Node, s: Sample)
    requires Chain(head, ns, ss) && k < |ns| && res == ns[k]
    modifies res, heap
    ensures Chain(head, ns, ss[k := s])
    ensures heap.tally == Plus(old(heap.tally), 0, 0, 1, 1)
  {
    res.Drop(heap);
    res.Clone(heap, s);
  }

  /** The last node of a nonempty bin. */
  method LastNode(head: Node, ghost ns: seq<Node>, ghost ss: Bin) returns (last: Node)
    requires Chain(head, ns, ss)
    ensures |ns| > 0 && last == ns[|ns| - 1]
  {
    last := head;
    ghost var k := 0;
    while last.next.node != null
      invariant k < |ns| && last == ns[k]
      decreases |ns| - k
    {
      last := last.next.node;
      k := k + 1;
    }
  }

  lemma NodeAtAppend(ns: seq<Node>, node: Node, i: int)
    ensures NodeAt(ns + [node], i) == if i == |ns| then node else NodeAt(ns, i)
  {
  }

  /** Allocates a node and links it behind the last one, or makes it the bin. */
  method Attach(heap: Heap, head: Node?, ghost ns: seq<Node>, ghost ss: Bin) returns (head': Node, node: Node)
    requires Chain(head, ns, ss)
    modifies ns`next, heap
    ensures fresh(node) && node.live && node.sample == None
    ensures head' == NodeAt(ns + [node], 0) && Linked(ns + [node], 0)
    ensures heap.tally == Plus(old(heap.tally), 1, 0, 0, 0)
  {
    node := new Node.Malloc(heap);
    node.SetPrev(null);
    node.SetNext(null);
    head' := node;
    if head != null {
      var last := LastNode(head, ns, ss);
      last.SetNext(node);
      node.SetPrev(last);
      head' := head;
    }
    forall i | 0 <= i < |ns| + 1
      ensures (ns + [node])[i].next == To(NodeAt(ns + [node], i + 1))
      ensures (ns + [node])[i].prev == To(NodeAt(ns + [node], i - 1))
    {
      NodeAtAppend(ns, node, i + 1);
      NodeAtAppend(ns, node, i - 1);
    }
  }

  /** Adds a sample at the end of a bin. */
  method Append(heap: Heap, head: Node?, ghost ns: seq<Node>, ghost ss: Bin, s: Sample)
    returns (head': Node, node: Node)
    requires Chain(head, ns, ss)
    modifies ns`next, heap
    ensures fresh(node) && Chain(head', ns + [node], ss + [s])
    ensures heap.tally == Plus(old(heap.tally), 1, 0, 1, 0)
  {
    head', node := Attach(heap, head, ns, ss);
    node.Clone(heap, s);
  }

  lemma NodeAtWithout(ns: seq<Node>, k: nat, i: int)
    requires k < |ns|
    ensures NodeAt(Without(ns, k), i) == if i < k then NodeAt(ns, i) else NodeAt(ns, i + 1)
  {
  }

  /** The position after `i` once position `k` is skipped. */
  function Ahead(i: int, k: int): int {
    if i + 1 == k then i + 2 else i + 1
  }

  function Behind(i: int, k: int): int {
    if i - 1 == k then i - 2 else i - 1
  }

  /** Every node but `k` points past it. */
  ghost predicate SkipLinked(ns: seq<Node>, k: nat)
    reads ns`next, ns`prev
  {
    && (forall i {:trigger ns[i].next} | 0 <= i < |ns| && i != k :: ns[i].next == To(NodeAt(ns, Ahead(i, k))))
    && (forall i {:trigger ns[i].prev} | 0 <= i < |ns| && i != k :: ns[i].prev == To(NodeAt(ns, Behind(i, k))))
  }

  lemma SkippedIsLinked(ns: seq<Node>, k: nat)
    requires k < |ns| && SkipLinked(ns, k)
    ensures Linked(Without(ns, k), 0)
  {
    var rest := Without(ns, k);
    WithoutAt(ns, k);
    forall i | 0 <= i < |rest|
      ensures rest[i].next == To(NodeAt(rest, i + 1)) && rest[i].prev == To(NodeAt(rest, i - 1))
    {
      NodeAtWithout(ns, k, i + 1);
      NodeAtWithout(ns, k, i - 1);
    }
  }

  lemma OwningWithout(ns: seq<Node>, ss: Bin, k: nat)
    requires k < |ns| && NoRepeats(ns) && Owning(ns, ss)
    ensures NoRepeats(Without(ns, k)) && Owning(Without(ns, k), Without(ss, k)) && ns[k] !in Without(ns, k)
  {
    WithoutAt(ns, k);
    WithoutAt(ss, k);
  }

  ghost predicate Live(ns: seq<Node>)
    reads ns`live
  {
    forall i | 0 <= i < |ns| :: ns[i].live
  }

  /** The predecessor, or the bin, is made to point past node `k`. */
  method SkipForward(head: Node?, ghost ns: seq<Node>, ghost k: nat, res: Node) returns (head': Node?)
    requires k < |ns| && res == ns[k] && head == NodeAt(ns, 0) && Linked(ns, 0)
    requires NoRepeats(ns) && Live(ns)
    modifies ns`next
    ensures head' == NodeAt(ns, Ahead(-1, k))
    ensures forall i {:trigger ns[i].next} | 0 <= i < |ns| ::
              ns[i].next == To(NodeAt(ns, if i == k then k + 1 else Ahead(i, k)))
  {
    head' := head;
    assert res.prev == To(NodeAt(ns, k - 1)) && res.next == To(NodeAt(ns, k + 1));
    if res.prev.node == null {
      head' := res.next.node;
    } else {
      res.prev.node.SetNext(res.next.node);
    }
  }

  /** The successor is made to point back past node `k`. */
  method SkipBack(ghost ns: seq<Node>, ghost k: nat, res: Node)
    requires k < |ns| && res == ns[k] && res.next == To(NodeAt(ns, k + 1))
    requires forall i {:trigger ns[i].prev} | 0 <= i < |ns| :: ns[i].prev == To(NodeAt(ns, i - 1))
    requires NoRepeats(ns) && Live(ns)
    modifies ns`prev
    ensures forall i {:trigger ns[i].prev} | 0 <= i < |ns| && i != k :: ns[i].prev == To(NodeAt(ns, Behind(i, k)))
  {
    assert res.prev == To(NodeAt(ns, k - 1));
    if res.next.node != null {
      res.next.node.SetPrev(res.prev.node);
    }
  }

  method Bypass(head: Node?, ghost ns: seq<Node>, ghost k: nat, res: Node) returns (head': Node?)
    requires k < |ns| && res == ns[k] && head == NodeAt(ns, 0) && Linked(ns, 0) && NoRepeats(ns) && Live(ns)
    modifies ns`next, ns`prev
    ensures head' == NodeAt(Without(ns, k), 0) && Linked(Without(ns, k), 0)
  {
    head' := SkipForward(head, ns, k, res);
    SkipBack(ns, k, res);
    SkippedIsLinked(ns, k);
    NodeAtWithout(ns, k, 0);
  }

  /** Unlinks a node, drops its sample and frees it. */
  method Unlink(heap: Heap, head: Node?, ghost ns: seq<Node>, ghost ss: Bin, ghost k: nat, res: Node)
    returns (head': Node?)
    requires Chain(head, ns, ss) && k < |ns| && res == ns[k]
    modifies ns, heap
    ensures Chain(head', Without(ns, k), Without(ss, k)) && res.Gone()
    ensures heap.tally == Plus(old(heap.tally), 0, 1, 0, 1)
  {
    head' := Bypass(head, ns, k, res);
    OwningWithout(ns, ss, k);
    res.Drop(heap);
    res.Free(heap);
  }

  /** Every node of the sequence has been freed. */
  ghost predicate AllGone(ns: seq<Node>)
    reads ns
  {
    forall i | 0 <= i < |ns| :: ns[i].Gone()
  }

  /** Drops and frees every node of a bin. */
  method DropChain(heap: Heap, head: Node?, ghost ns: seq<Node>, ghost ss: Bin)
    requires Chain(head, ns, ss)
    modifies ns, heap
    ensures AllGone(ns)
    ensures heap.tally == Plus(old(heap.tally), 0, |ns|, 0, |ns|)
  {
    var node := head;
    ghost var k := 0;
    while node != null
      invariant k <= |ns| && node == NodeAt(ns, k)
      invariant forall i | 0 <= i < k :: ns[i].Gone()
      invariant Linked(ns, k)
      invariant forall i | k <= i < |ns| :: ns[i].live && ns[i].sample.Some?
      invariant heap.tally == Plus(old(heap.tally), 0, k, 0, k)
      decreases |ns| - k
    {
      node.Drop(heap);
      var dead := node;
      node := node.next.node;
      dead.Free(heap);
      k := k + 1;
    }
  }

  // ---------------------------------------------------------------- the table of bins

  datatype Iterator = Iterator(bin: nat, node: Node?)

  datatype SampleKind = SampleKindPut | SampleKindDelete

  /** Exactly `blocks` blocks of memory are live and exactly `clones` clones are owned. */
  predicate Outstanding(l: Ledger, blocks: nat, clones: nat) {
    l.mallocs == l.frees + blocks && l.clones == l.drops + clones
  }

  /** Every slot of the array starts the chain of its bin. */
  ghost predicate Chains(nodes: array<Node?>, bins: seq<seq<Node>>, table: Table, home: map<Node, nat>)
    reads nodes, home.Keys
  {
    && nodes.Length == |bins| == |table| && Housed(bins, home)
    && forall c | 0 <= c < |bins| :: Chain(nodes[c], bins[c], table[c])
  }

  /** Every node has one home, so no node belongs to two bins. */
  ghost predicate Housed(bins: seq<seq<Node>>, home: map<Node, nat>) {
    forall c, i | 0 <= c < |bins| && 0 <= i < |bins[c]| :: bins[c][i] in home && home[bins[c][i]] == c
  }

  /** Replaces one sample and leaves every other bin alone. */
  method ReplaceIn(heap: Heap, nodes: array<Node?>, ghost bins: seq<seq<Node>>, ghost table: Table,
                   ghost home: map<Node, nat>, b: nat, ghost k: nat, res: Node, s: Sample)
    requires Chains(nodes, bins, table, home) && b < |bins| && k < |bins[b]| && res == bins[b][k]
    modifies res, heap
    ensures Chains(nodes, bins, table[b := table[b][k := s]], home)
    ensures heap.tally == Plus(old(heap.tally), 0, 0, 1, 1)
  {
    Overwrite(heap, nodes[b], bins[b], table[b], k, res, s);
    forall c | 0 <= c < |bins| && c != b ensures Chain(nodes[c], bins[c], table[c]) {
      assert old(Chain(nodes[c], bins[c], table[c]));
    }
  }

  /** Adds a node at the end of one bin and leaves every other bin alone. */
  method Grow(heap: Heap, nodes: array<Node?>, ghost bins: seq<seq<Node>>, ghost table: Table,
              ghost home: map<Node, nat>, b: nat, s: Sample) returns (node: Node)
    requires Chains(nodes, bins, table, home) && b < |bins|
    modifies nodes, bins[b], heap
    ensures fresh(node) && Chains(nodes, bins[b := bins[b] + [node]], table[b := table[b] + [s]], home[node := b])
    ensures heap.tally == Plus(old(heap.tally), 1, 0, 1, 0)
  {
    var head;
    head, node := Append(heap, nodes[b], bins[b], table[b], s);
    forall c | 0 <= c < |bins| && c != b ensures Chain(nodes[c], bins[c], table[c]) {
      assert old(Chain(nodes[c], bins[c], table[c]));
    }
    nodes[b] := head;
  }

  /** Removes one node from its bin and leaves every other bin alone. */
  method Shrink(heap: Heap, nodes: array<Node?>, ghost bins: seq<seq<Node>>, ghost table: Table,
                ghost home: map<Node, nat>, b: nat, ghost k: nat, res: Node)
    requires Chains(nodes, bins, table, home) && b < |bins| && k < |bins[b]| && res == bins[b][k]
    modifies nodes, bins[b], heap
    ensures Chains(nodes, bins[b := Without(bins[b], k)], table[b := Without(table[b], k)], home) && res.Gone()
    ensures heap.tally == Plus(old(heap.tally), 0, 1, 0, 1)
  {
    var head := Unlink(heap, nodes[b], bins[b], table[b], k, res);
    forall c | 0 <= c < |bins| && c != b ensures Chain(nodes[c], bins[c], table[c]) {
      assert old(Chain(nodes[c], bins[c], table[c]));
    }
    nodes[b] := head;
  }

  /** The table is well formed, and memory is one array of bins and one node that owns a clone per sample. */
  ghost predicate Accounted(table: Table, place: Place, tally: Ledger) {
    WellFormed(table, place) && Outstanding(tally, 1 + |Samples(table)|, |Samples(table)|)
  }

  lemma AccountEmpty(table: Table, place: Place)
    requires (forall k: Key :: place(k) < |table|) && forall b | 0 <= b < |table| :: table[b] == []
    ensures Accounted(table, place, Ledger(1, 0, 0, 0)) && Contents(table, place) == map[]
  {
    EmptyTable(table);
  }

  lemma EmptyChains(nodes: array<Node?>, bins: seq<seq<Node>>, table: Table)
    requires nodes.Length == |bins| == |table| && forall b | 0 <= b < |bins| :: nodes[b] == null
    requires forall b | 0 <= b < |bins| :: bins[b] == [] && table[b] == []
    ensures Chains(nodes, bins, table, map[])
  {
  }

  lemma AccountPut(table: Table, place: Place, tally: Ledger, s: Sample)
    requires Accounted(table, place, tally)
    ensures Accounted(Put(table, s, place), place,
                      if Tables.Find(table, s.key, place).Some? then Plus(tally, 0, 0, 1, 1)
                      else Plus(tally, 1, 0, 1, 0))
  {
    PutWellFormed(table, s, place);
    PutSize(table, s, place);
  }

  lemma AccountDelete(table: Table, place: Place, tally: Ledger, key: Key)
    requires Accounted(table, place, tally) && Tables.Find(table, key, place).Some?
    ensures Accounted(Delete(table, key, place), place, Plus(tally, 0, 1, 0, 1))
  {
    DeleteWellFormed(table, key, place);
    DeleteSize(table, key, place);
  }

  class Store {
    var nodes: array<Node?>
    const place: Place
    const heap: Heap
    ghost var bins: seq<seq<Node>>
    ghost var table: Table
    ghost var home: map<Node, nat>

    /** The heap refines the table: every bin is a chain that holds the table's bin. */
    ghost predicate Valid()
      reads this, heap, nodes, home.Keys
    {
      Accounted(table, place, heap.tally) && Chains(nodes, bins, table, home)
    }

    /** `storage_new`; the bin of a key is its hash, in words of any width, modulo the number of bins. */
    constructor (n: nat, word: nat)
      requires n > 0 && word > 0
      ensures Valid() && fresh(heap) && fresh(nodes) && home == map[] && |table| == n
      ensures forall k: Key :: place(k) == Hash(k, word) % n
      ensures Contents(table, place) == map[]
      ensures heap.tally == Ledger(1, 0, 0, 0)
    {
      place := k => BinOf(k, n, word);
      heap := new Heap();
      nodes := new Node?[n](_ => null);
      bins := seq(n, _ => []);
      table := seq(n, _ => []);
      home := map[];
      new;
      heap.MallocBins();
      AccountEmpty(table, place);
      EmptyChains(nodes, bins, table);
    }

    /** `storage_find` */
    method Find(key: Key) returns (res: Node?)
      requires Valid()
      ensures res == null <==> key !in Contents(table, place)
      ensures res != null ==> res in home && res.live && res.sample == Some(Contents(table, place)[key])
    {
      var b := place(key);
      res := FindNode(nodes[b], bins[b], table[b], key);
      ContentsMeaning(table, key, place);
      assert Chain(nodes[b], bins[b], table[b]);
    }

    /** Brings the ghost state up to date with the heap. */
    ghost method Record(bins': seq<seq<Node>>, table': Table, home': map<Node, nat>)
      requires Accounted(table', place, heap.tally) && Chains(nodes, bins', table', home')
      modifies this`bins, this`table, this`home
      ensures Valid() && table == table' && home == home'
    {
      bins, table, home := bins', table', home';
    }

    /** The key is stored already: its sample is dropped and replaced. */
    method Replace(b: nat, res: Node, s: Sample)
      requires Valid() && b == place(s.key)
      requires Pos(table[b], s.key) < |table[b]| && res == bins[b][Pos(table[b], s.key)]
      modifies this, heap, nodes, home.Keys
      ensures Valid() && home == old(home) && nodes == old(nodes)
      ensures table == Put(old(table), s, place)
      ensures heap.tally == Plus(old(heap.tally), 0, 0, 1, 1)
    {
      AccountPut(table, place, heap.tally, s);
      ReplaceIn(heap, nodes, bins, table, home, b, Pos(table[b], s.key), res, s);
      Record(bins, Put(table, s, place), home);
    }

    /** The key is new: a node is allocated at the end of its bin. */
    method Extend(b: nat, s: Sample)
      requires Valid() && b == place(s.key)
      requires Pos(table[b], s.key) == |table[b]|
      modifies this, heap, nodes, home.Keys
      ensures Valid() && fresh(home.Keys - old(home.Keys)) && nodes == old(nodes)
      ensures table == Put(old(table), s, place)
      ensures heap.tally == Plus(old(heap.tally), 1, 0, 1, 0)
    {
      AccountPut(table, place, heap.tally, s);
      var node := Grow(heap, nodes, bins, table, home, b, s);
      Record(bins[b := bins[b] + [node]], Put(table, s, place), home[node := b]);
    }

    /** `storage_insert` at the level of the table. */
    method InsertInto(s: Sample)
      requires Valid()
      modifies this, heap, nodes, home.Keys
      ensures Valid() && fresh(home.Keys - old(home.Keys)) && nodes == old(nodes)
      ensures table == Put(old(table), s, place)
      ensures heap.tally == if Tables.Find(old(table), s.key, place).Some?
                            then Plus(old(heap.tally), 0, 0, 1, 1)
                            else Plus(old(heap.tally), 1, 0, 1, 0)
    {
      var b := place(s.key);
      var res := FindNode(nodes[b], bins[b], table[b], s.key);
      if res != null {
        Replace(b, res, s);
      } else {
        Extend(b, s);
      }
    }

    /** `storage_insert`: the last writer of a key wins. */
    method Insert(s: Sample)
      requires Valid()
      modifies this, heap, nodes, home.Keys
      ensures Valid() && fresh(home.Keys - old(home.Keys)) && nodes == old(nodes)
      ensures table == Put(old(table), s, place)
      ensures Contents(table, place) == old(Contents(table, place))[s.key := s]
    {
      PutWellFormed(table, s, place);
      PutContents(table, s, place);
      InsertInto(s);
    }

    /** `storage_remove` */
    method Remove(key: Key)
      requires Valid()
      modifies this, heap, nodes, home.Keys
      ensures Valid() && home == old(home) && nodes == old(nodes)
      ensures table == Delete(old(table), key, place)
      ensures Contents(table, place) == old(Contents(table, place)) - {key}
      ensures heap.tally == if key in old(Contents(table, place)) then Plus(old(heap.tally), 0, 1, 0, 1)
                            else old(heap.tally)
    {
      var b := place(key);
      var res := FindNode(nodes[b], bins[b], table[b], key);
      ContentsMeaning(table, key, place);
      DeleteWellFormed(table, key, place);
      DeleteContents(table, key, place);
      if res != null {
        Detach(b, key, res);
      }
    }

    /** The node of the key is unlinked, emptied and freed. */
    method Detach(b: nat, key: Key, res: Node)
      requires Valid() && b == place(key)
      requires Pos(table[b], key) < |table[b]| && res == bins[b][Pos(table[b], key)]
      modifies this, heap, nodes, home.Keys
      ensures Valid() && home == old(home) && nodes == old(nodes)
      ensures table == Delete(old(table), key, place) && res.Gone()
      ensures heap.tally == Plus(old(heap.tally), 0, 1, 0, 1)
    {
      ghost var k := Pos(table[b], key);
      AccountDelete(table, place, heap.tally, key);
      Shrink(heap, nodes, bins, table, home, b, k, res);
      Record(bins[b := Without(bins[b], k)], Delete(table, key, place), home);
    }

    // -------------------------------------------------------------- iteration

    /** The iterator stands at node `i` of its bin. */
    ghost predicate StandsAt(it: Iterator, i: nat)
      reads this
    {
      it.bin < |bins| && i < |bins[it.bin]| && it.node == bins[it.bin][i]
    }

    /** `_storage_first_non_empty_bin` */
    method FirstNonEmptyBin(start: nat) returns (it: Iterator)
      requires Valid() && start <= |bins|
      ensures start <= it.bin <= |bins| && (forall c | start <= c < it.bin :: bins[c] == [] && table[c] == [])
      ensures it.bin < |bins| ==> StandsAt(it, 0)
    {
      var b := start;
      while b < nodes.Length
        invariant start <= b <= |bins| && forall c | start <= c < b :: bins[c] == [] && table[c] == []
      {
        assert Chain(nodes[b], bins[b], table[b]);
        if nodes[b] != null { return Iterator(b, nodes[b]); }
        b := b + 1;
      }
      return Iterator(b, null);
    }

    /** `storage_begin` */
    method Begin() returns (it: Iterator)
      requires Valid()
      ensures it.bin <= |bins| && (it.bin < |bins| ==> StandsAt(it, 0))
      ensures [] == if it.bin < |bins| then Passed(bins, it.bin, 0) else Flatten(bins)
      ensures [] == if it.bin < |bins| then Passed(table, it.bin, 0) else Flatten(table)
    {
      it := FirstNonEmptyBin(0);
      PassStarts(bins, it.bin);
      PassStarts(table, it.bin);
    }

    /** `storage_iterator_next`: the pass has seen exactly one node more. */
    method Next(it: Iterator, ghost i: nat) returns (it': Iterator, ghost i': nat)
      requires Valid() && StandsAt(it, i)
      ensures it'.bin <= |bins| && (it'.bin < |bins| ==> StandsAt(it', i'))
      ensures it'.bin > it.bin || (it'.bin == it.bin && i' == i + 1)
      ensures Steps(bins, it.bin, i, it'.bin, i') && Steps(table, it.bin, i, it'.bin, i')
    {
      assert Chain(nodes[it.bin], bins[it.bin], table[it.bin]);
      if it.node.next.node != null {
        return Iterator(it.bin, it.node.next.node), i + 1;
      }
      i' := 0;
      it' := FirstNonEmptyBin(it.bin + 1);
      StepsOver(bins, it.bin, i, it'.bin);
      StepsOver(table, it.bin, i, it'.bin);
    }

    /** How far a pass has come: what it has visited and what it has replied. */
    ghost predicate Progress(it: Iterator, i: nat, visited: seq<Node>, replies: seq<Reply>, query: Key,
                             intersects: (Key, Key) -> bool)
      reads this
    {
      if it.bin < |bins| then
        && StandsAt(it, i) && it.bin < |table| && i < |table[it.bin]|
        && visited == Passed(bins, it.bin, i)
        && replies == Replies(Passed(table, it.bin, i), query, intersects)
      else visited == Flatten(bins) && replies == Replies(Flatten(table), query, intersects)
    }

    /** One round of the query loop. */
    method Visit(it: Iterator, ghost i: nat, ghost visited: seq<Node>, replies: seq<Reply>, query: Key,
                 intersects: (Key, Key) -> bool) returns (it': Iterator, ghost i': nat, replies': seq<Reply>)
      requires Valid() && it.bin < |bins| && Progress(it, i, visited, replies, query, intersects)
      ensures Progress(it', i', visited + [it.node], replies', query, intersects)
      ensures it.bin <= it'.bin <= |bins| && (it'.bin == it.bin ==> i' == i + 1)
    {
      assert Chain(nodes[it.bin], bins[it.bin], table[it.bin]);
      var sample := it.node.sample.value;
      PassedMore(bins, it.bin, i);
      PassedMore(table, it.bin, i);
      RepliesMore(Passed(table, it.bin, i), sample, query, intersects);
      replies' := replies;
      if intersects(query, sample.key) {
        replies' := replies + [Reply(sample.key, sample.payload)];
      }
      it', i' := Next(it, i);
      assert it'.bin < |bins| ==> Chain(nodes[it'.bin], bins[it'.bin], table[it'.bin]);
    }

    /** `query_handler`, between taking and releasing the lock: every stored sample is met once. */
    method QueryHandler(query: Key, intersects: (Key, Key) -> bool)
      returns (replies: seq<Reply>, ghost visited: seq<Node>)
      requires Valid()
      ensures visited == Flatten(bins) && NoRepeats(visited)
      ensures replies == Replies(Samples(table), query, intersects)
      ensures Answers(replies, Contents(table, place), query, intersects)
    {
      replies, visited := [], [];
      ghost var i := 0;
      var it := Begin();
      assert it.bin < |bins| ==> Chain(nodes[it.bin], bins[it.bin], table[it.bin]);
      while it.bin < nodes.Length
        invariant it.bin <= |bins| && Progress(it, i, visited, replies, query, intersects)
        decreases |bins| - it.bin, if it.bin < |bins| then |bins[it.bin]| - i else 0
      {
        ghost var node := it.node;
        it, i, replies := Visit(it, i, visited, replies, query, intersects);
        visited := visited + [node];
      }
      FullPass(query, intersects);
    }

    /** What a pass over all bins has seen and replied. */
    lemma FullPass(query: Key, intersects: (Key, Key) -> bool)
      requires Valid()
      ensures NoRepeats(Flatten(bins))
      ensures Answers(Replies(Samples(table), query, intersects), Contents(table, place), query, intersects)
    {
      assert forall c | 0 <= c < |bins| :: Chain(nodes[c], bins[c], table[c]);
      VisitedOnce(bins, home);
      PassAnswers(table, place, query, intersects);
    }

    /** `sub_handler`, between taking and releasing the lock. */
    method SubHandler(kind: SampleKind, s: Sample)
      requires Valid()
      modifies this, heap, nodes, home.Keys
      ensures Valid() && fresh(home.Keys - old(home.Keys)) && nodes == old(nodes)
      ensures Contents(table, place) ==
              if kind.SampleKindPut? then old(Contents(table, place))[s.key := s]
              else old(Contents(table, place)) - {s.key}
    {
      match kind
      case SampleKindPut => Insert(s);
      case SampleKindDelete => Remove(s.key);
    }

    /** `storage_drop`: every node is emptied and freed, then the array, and nothing is left outstanding. */
    method DropAll()
      requires Valid()
      modifies heap, home.Keys
      ensures forall b | 0 <= b < |bins| :: AllGone(bins[b])
      ensures Outstanding(heap.tally, 0, 0)
    {
      assert forall c | 0 <= c < |bins| :: Chain(nodes[c], bins[c], table[c]);
      SameSize(bins, table);
      DropBins(heap, nodes, bins, table, home);
      heap.FreeBins();
    }
  }

  /** Between operations the array and one node per entry of the map are allocated, and each node owns a clone. */
  lemma NothingLeaks(store: Store)
    requires store.Valid()
    ensures var n := |Contents(store.table, store.place)|; Outstanding(store.heap.tally, 1 + n, n)
  {
    ContentsSize(store.table, store.place);
  }

  lemma {:induction false} SameSize(bins: seq<seq<Node>>, table: Table)
    requires |bins| == |table| && forall c | 0 <= c < |bins| :: |bins[c]| == |table[c]|
    ensures |Flatten(bins)| == |Flatten(table)|
  {
    if bins != [] { SameSize(Init(bins), Init(table)); }
  }

  /** The first `c` bins have been freed, the others are chains still. */
  ghost predicate Draining(nodes: array<Node?>, bins: seq<seq<Node>>, table: Table, home: map<Node, nat>, c: nat)
    reads nodes, home.Keys
  {
    && c <= nodes.Length == |bins| == |table| && Housed(bins, home)
    && (forall b | 0 <= b < c :: AllGone(bins[b]))
    && (forall b | c <= b < |bins| :: Chain(nodes[b], bins[b], table[b]))
  }

  /** Empties and frees every node of one more bin. */
  method DropBin(heap: Heap, nodes: array<Node?>, ghost bins: seq<seq<Node>>, ghost table: Table,
                 ghost home: map<Node, nat>, c: nat)
    requires c < |bins| && Draining(nodes, bins, table, home, c)
    modifies heap, bins[c]
    ensures Draining(nodes, bins, table, home, c + 1)
    ensures heap.tally == Plus(old(heap.tally), 0, |bins[c]|, 0, |bins[c]|)
  {
    DropChain(heap, nodes[c], bins[c], table[c]);
    forall b | 0 <= b < c ensures AllGone(bins[b]) {
      assert old(AllGone(bins[b]));
    }
    forall b | c < b < |bins| ensures Chain(nodes[b], bins[b], table[b]) {
      assert old(Chain(nodes[b], bins[b], table[b]));
    }
  }

  /** Empties and frees every node of every bin. */
  method DropBins(heap: Heap, nodes: array<Node?>, ghost bins: seq<seq<Node>>, ghost table: Table,
                  ghost home: map<Node, nat>)
    requires Chains(nodes, bins, table, home)
    modifies heap, home.Keys
    ensures Draining(nodes, bins, table, home, |bins|)
    ensures heap.tally == Plus(old(heap.tally), 0, |Flatten(bins)|, 0, |Flatten(bins)|)
  {
    for c := 0 to nodes.Length
      invariant Draining(nodes, bins, table, home, c)
      invariant heap.tally == Plus(old(heap.tally), 0, |Flatten(bins[..c])|, 0, |Flatten(bins[..c])|)
    {
      PassedBin(bins, c);
      DropBin(heap, nodes, bins, table, home, c);
    }
    assert bins[..|bins|] == bins;
  }

  /** A pass over the bins meets no node twice. */
  lemma {:induction false} VisitedOnce(bins: seq<seq<Node>>, home: map<Node, nat>)
    requires Housed(bins, home) && forall c | 0 <= c < |bins| :: NoRepeats(bins[c])
    ensures NoRepeats(Flatten(bins))
    ensures forall x | x in Flatten(bins) :: x in home && home[x] < |bins|
  {
    if bins != [] {
      var front, last := Init(bins), Last(bins);
      assert forall c | 0 <= c < |front| :: front[c] == bins[c];
      VisitedOnce(front, home);
      forall i | 0 <= i < |last| ensures last[i] in home && home[last[i]] == |front| {
        assert last[i] == bins[|bins| - 1][i];
      }
      assert forall i | 0 <= i < |Flatten(front)| :: Flatten(front)[i] in Flatten(front);
    }
  }
}
