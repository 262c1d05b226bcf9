/** The LRU order as the cache keeps it: a doubly linked list between two sentinels, a key-to-node
    map, a byte counter, and the block data that evictions delete. */
module LruList {
  import opened Bytes
  import opened LogStore
  import opened Lru

  /** Cached blocks: per file, block id to bytes. */
  type Files = map<Uuid, map<nat, seq<byte>>>

  class CachingMap {
    var files: Files

    constructor ()
      ensures files == map[]
    {
      files := map[];
    }
  }

  /** Deletes one block; a file without blocks disappears. */
  function DropBlock(fs: Files, k: BlockId): Files {
    if k.uuid !in fs then fs else
    var blocks := fs[k.uuid] - {k.block};
    if blocks == map[] then fs - {k.uuid} else fs[k.uuid := blocks]
  }

  /** Deletes the blocks of the given entries, the last one first. */
  function DropAll(fs: Files, es: seq<Entry>): Files
    decreases |es|
  {
    if es == [] then fs else DropBlock(DropAll(fs, es[1..]), es[0].key)
  }

  class Node {
    const entry: Entry
    var prev: Node?
    var next: Node?

    constructor (entry: Entry)
      ensures this.entry == entry
    {
      this.entry, prev, next := entry, null, null;
    }
  }

  function Entries(ns: seq<Node>): seq<Entry> {
    seq(|ns|, i requires 0 <= i < |ns| => ns[i].entry)
  }

  /** The eviction test, in 32-bit unsigned arithmetic. */
  predicate MustEvict(cur: int, size: nat, cap: nat) { (cur + size) % 0x1_0000_0000 > cap }

  /** It compares what it means to compare, for every cache that keeps its budget, exactly when the
      capacity is below 2^31. */
  lemma EvictionTestExactIff(cap: uint32)
    ensures (forall cur, size: nat | 0 <= cur <= cap && size <= cap :: MustEvict(cur, size, cap) <==> cur + size > cap)
            <==> cap < 0x8000_0000
  {
    if cap >= 0x8000_0000 { assert !MustEvict(cap, cap, cap); }
  }

  /** The map holds exactly the listed keys, each with its own node. */
  ghost predicate Indexes(m: map<BlockId, Node>, ns: seq<Node>) {
    && DistinctKeys(Entries(ns))
    && (forall k | k in m :: m[k] in ns && m[k].entry.key == k)
    && (forall i | 0 <= i < |ns| :: ns[i].entry.key in m && m[ns[i].entry.key] == ns[i])
  }

  lemma IndexWithout(m: map<BlockId, Node>, ns: seq<Node>, i: nat)
    requires Indexes(m, ns) && i < |ns|
    ensures Indexes(m - {ns[i].entry.key}, ns[..i] + ns[i + 1..])
    ensures Entries(ns[..i] + ns[i + 1..]) == Entries(ns)[..i] + Entries(ns)[i + 1..]
  {
    var k, ns' := ns[i].entry.key, ns[..i] + ns[i + 1..];
    var es := Entries(ns);
    assert Entries(ns') == es[..i] + es[i + 1..];
    assert es[i].key == k;
    forall j | 0 <= j < |ns| && j != i ensures ns[j].entry.key != k { assert es[j].key == ns[j].entry.key; }
    forall k' | k' in m - {k} ensures m[k'] in ns' {
      var j :| 0 <= j < |ns| && ns[j] == m[k'];
      assert if j < i then ns'[j] == ns[j] else ns'[j - 1] == ns[j];
    }
  }

  lemma IndexWith(m: map<BlockId, Node>, ns: seq<Node>, n: Node)
    requires Indexes(m, ns) && n.entry.key !in m
    ensures Indexes(m[n.entry.key := n], [n] + ns)
    ensures Entries([n] + ns) == [n.entry] + Entries(ns)
  {
    var es := Entries(ns);
    forall i | 0 <= i < |ns| ensures es[i].key != n.entry.key { assert es[i].key == ns[i].entry.key; }
    assert Entries([n] + ns) == [n.entry] + es;
  }

  /** The nodes are distinct and linked to their neighbours, both ways. */
  ghost predicate Chain(s: seq<Node>)
    reads s
  {
    && (forall i, j | 0 <= i < j < |s| :: s[i] != s[j])
    && (forall i | 0 <= i < |s| - 1 :: s[i].next == s[i + 1])
    && (forall i | 0 < i < |s| :: s[i].prev == s[i - 1])
  }

  /** Takes a node out of a chain by linking its neighbours. */
  method Unlink(temp: Node, ghost s: seq<Node>, ghost i: nat)
    requires Chain(s) && 0 < i < |s| - 1 && s[i] == temp
    modifies s
    ensures Chain(s[..i] + s[i + 1..])
  {
    var delnext, delprev := temp.next, temp.prev;
    assert delnext == s[i + 1] && delprev == s[i - 1];
    delnext.prev := delprev;
    delprev.next := delnext;
  }

  /** Links a node in after the first one. */
  method LinkSecond(first: Node, temp: Node, ghost s: seq<Node>)
    requires Chain(s) && |s| > 1 && s[0] == first && temp !in s
    modifies s, temp
    ensures Chain([first, temp] + s[1..])
  {
    var dummy := first.next;
    assert dummy == s[1];
    first.next := temp;
    temp.prev := first;
    temp.next := dummy;
    dummy.prev := temp;
  }

  class LruCache {
    const head: Node
    const tail: Node
    const cap: nat
    const data: CachingMap
    var curSize: int
    var m: map<BlockId, Node>
    /** The nodes between the sentinels, in list order. */
    ghost var nodes: seq<Node>

    ghost function Spine(): seq<Node>
      reads this
    {
      [head] + nodes + [tail]
    }

    /** The list runs through exactly the spine, both ways. */
    ghost predicate Linked()
      reads this, head, tail, nodes
    {
      Chain(Spine())
    }

    ghost predicate Valid()
      reads this, head, tail, nodes
    {
      Linked() && Indexes(m, nodes) && curSize == Total(Entries(nodes)) && curSize <= cap < 0x8000_0000
    }

    constructor (cap: nat, data: CachingMap)
      requires cap < 0x8000_0000
      ensures Valid() && nodes == [] && this.cap == cap && this.data == data && fresh(head) && fresh(tail)
    {
      var sentinel := Entry(BlockId(seq(32, _ => 0), 0), 0);
      var h := new Node(sentinel);
      var t := new Node(sentinel);
      h.next := t;
      t.prev := h;
      head, tail, this.cap, this.data := h, t, cap, data;
      curSize, m, nodes := 0, map[], [];
    }

    /** deletenode */
    method DeleteNode(temp: Node, ghost i: nat)
      requires Linked() && i < |nodes| && nodes[i] == temp
      modifies this`curSize, this`nodes, nodes, head, tail
      ensures Linked() && nodes == old(nodes)[..i] + old(nodes)[i + 1..]
      ensures curSize == old(curSize) - temp.entry.size
    {
      hide Chain;
      ghost var s := Spine();
      assert s[i + 1] == temp;
      curSize := curSize - temp.entry.size;
      Unlink(temp, s, i + 1);
      nodes := nodes[..i] + nodes[i + 1..];
      assert Spine() == s[..i + 1] + s[i + 2..];
    }

    /** addnode */
    method AddNode(temp: Node)
      requires Linked() && temp !in Spine()
      modifies this`curSize, this`nodes, nodes, head, tail, temp
      ensures Linked() && nodes == [temp] + old(nodes)
      ensures curSize == old(curSize) + temp.entry.size
    {
      hide Chain;
      ghost var s := Spine();
      curSize := curSize + temp.entry.size;
      LinkSecond(head, temp, s);
      nodes := [temp] + nodes;
      assert Spine() == [head, temp] + s[1..];
    }

    /** Forgets the entry of k, if there is one; its block data stays. */
    method Remove(k: BlockId)
      requires Valid()
      modifies this`curSize, this`nodes, this`m, nodes, head, tail
      ensures Valid() && Entries(nodes) == Without(old(Entries(nodes)), k) && k !in m
      ensures forall i | 0 <= i < |nodes| :: nodes[i] in old(nodes)
    {
      hide Without, Total;
      ghost var es := Entries(nodes);
      if k in m {
        var exist := m[k];
        ghost var i: nat :| i < |nodes| && nodes[i] == exist;
        RemoveAt(es, i);
        IndexWithout(m, nodes, i);
        hide Indexes;
        m := m - {k};
        DeleteNode(exist, i);
      } else {
        assert forall i | 0 <= i < |es| :: es[i].key == nodes[i].entry.key;
        WithoutAbsent(es, k);
      }
    }

    /** The body of the eviction loop: the last entry goes, and so does its block. */
    method EvictLast()
      requires Valid() && nodes != []
      modifies this`curSize, this`nodes, this`m, nodes, head, tail, data
      ensures Valid() && nodes == old(nodes)[..|old(nodes)| - 1] && m.Keys <= old(m.Keys)
      ensures data.files == DropBlock(old(data.files), old(nodes)[|old(nodes)| - 1].entry.key)
    {
      hide Without, Total, Indexes;
      ghost var es, n := Entries(nodes), |nodes| - 1;
      assert Spine()[n + 1] == nodes[n] && Spine()[n + 2] == tail;
      assert DistinctKeys(es) by { IndexDistinct(m, nodes); }
      RemoveAt(es, n);
      IndexWithout(m, nodes, n);
      var last := tail.prev;
      data.files := DropBlock(data.files, last.entry.key);
      m := m - {last.entry.key};
      DeleteNode(last, n);
    }

    /** Evicts from the end until `size` more bytes fit.  The loop never reaches a sentinel. */
    method MakeRoom(size: nat)
      requires Valid() && size <= cap
      modifies this`curSize, this`nodes, this`m, nodes, head, tail, data
      ensures Valid() && curSize + size <= cap && m.Keys <= old(m.Keys)
      ensures Entries(nodes) == Fit(old(Entries(nodes)), cap - size)
      ensures |nodes| <= |old(nodes)| && nodes == old(nodes)[..|nodes|]
      ensures data.files == DropAll(old(data.files), old(Entries(nodes))[|nodes|..])
    {
      hide Linked, Indexes, DropBlock;
      ghost var all, fs := Entries(nodes), data.files;
      while MustEvict(curSize, size, cap)
        invariant Valid() && m.Keys <= old(m.Keys)
        invariant |nodes| <= |old(nodes)| && nodes == old(nodes)[..|nodes|]
        invariant Fit(Entries(nodes), cap - size) == Fit(all, cap - size)
        invariant DropAll(fs, all[|nodes|..]) == data.files
        decreases |nodes|
      {
        ghost var es, n := Entries(nodes), |nodes| - 1;
        assert all[n..][1..] == all[n + 1..] && all[n] == nodes[n].entry;
        EvictLast();
        assert Entries(nodes) == es[..n];
      }
    }

    /** Puts a new node in front. */
    method Insert(node: Node)
      requires Valid() && node.entry.key !in m && curSize + node.entry.size <= cap && node !in Spine()
      modifies this`curSize, this`nodes, this`m, nodes, head, tail, node
      ensures Valid() && nodes == [node] + old(nodes)
      ensures Entries(nodes) == [node.entry] + old(Entries(nodes))
    {
      hide Total, Indexes;
      TotalConcat([node.entry], Entries(nodes));
      TotalOne(node.entry);
      IndexWith(m, nodes, node);
      AddNode(node);
      assert Spine()[0] == head && Spine()[1] == node;
      m := m[node.entry.key := head.next];
    }

    /** Uses an entry: it moves to the front with its new size, and entries are evicted from the end
        until it fits. */
    method Set(e: Entry)
      requires Valid() && e.size <= cap
      modifies this`curSize, this`nodes, this`m, nodes, head, tail, data
      ensures Valid() && Entries(nodes) == Use(old(Entries(nodes)), e, cap)
      ensures data.files == DropAll(old(data.files), Evicted(old(Entries(nodes)), e, cap))
      ensures forall i | 0 <= i < |nodes| :: nodes[i] in old(nodes) || fresh(nodes[i])
    {
      hide Without, Linked, Indexes, Fit, DropAll, Total;
      Remove(e.key);
      ghost var rest := nodes;
      MakeRoom(e.size);
      assert forall n | n in nodes :: n in rest;
      var node := new Node(e);
      Insert(node);
    }
  }

  lemma IndexDistinct(m: map<BlockId, Node>, ns: seq<Node>)
    requires Indexes(m, ns)
    ensures DistinctKeys(Entries(ns))
  {
  }

  lemma TotalOne(e: Entry)
    ensures Total([e]) == e.size
  {
    assert [e][..0] == [];
  }

  lemma RemoveAt(es: seq<Entry>, i: nat)
    requires DistinctKeys(es) && i < |es|
    ensures Without(es, es[i].key) == es[..i] + es[i + 1..]
    ensures Total(es[..i] + es[i + 1..]) == Total(es) - es[i].size
  {
    hide Total, Without;
    WithoutAt(es, i);
    TotalConcat(es[..i], es[i + 1..]);
    TotalSplit(es, i);
  }

  lemma TotalSplit(es: seq<Entry>, i: nat)
    requires i < |es|
    ensures Total(es) == Total(es[..i]) + es[i].size + Total(es[i + 1..])
  {
    hide Total;
    assert es == es[..i] + es[i..] && es[i..] == [es[i]] + es[i + 1..];
    TotalConcat(es[..i], es[i..]);
    TotalConcat([es[i]], es[i + 1..]);
    TotalOne(es[i]);
  }
}
