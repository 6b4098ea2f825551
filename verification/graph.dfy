/** The derived link graph (src/graph.rs), rebuilt from scratch from a
    store snapshot in two passes. The petgraph graph is a sequence of vertex
    labels, vertex `i` being the `i`-th vertex added, and a sequence of
    directed edges between vertex indices (parallel edges allowed);
    `node_map` maps each store key to its vertex. */
module Graph {
  import opened Results
  import opened Store

  datatype Digraph = Digraph(labels: seq<string>, edges: seq<(nat, nat)>)

  datatype MyGraph = MyGraph(graph: Digraph, nodeMap: map<Key, nat>)

  /** Pass 1 (`create_nodes`): one vertex per entry, in store order, labelled
      with the note's title; the key is mapped to the new vertex. */
  function CreateNodes(st: Db): (r: (seq<string>, map<Key, nat>))
    decreases |st|
  {
    if st == [] then ([], map[])
    else
      var prev := CreateNodes(st[..|st| - 1]);
      var last := st[|st| - 1];
      (prev.0 + [last.node.title], prev.1[last.key := |prev.0|])
  }

  /** Edges from vertex `from` for each link whose target has a vertex. */
  function LinkEdges(from: nat, links: seq<Key>, nodeMap: map<Key, nat>): seq<(nat, nat)>
  {
    if links == [] then []
    else (if links[0] in nodeMap then [(from, nodeMap[links[0]])] else [])
         + LinkEdges(from, links[1..], nodeMap)
  }

  /** Pass 2 (`create_edges`): every entry's links, in store order. */
  function CreateEdges(st: Db, nodeMap: map<Key, nat>): seq<(nat, nat)>
  {
    if st == [] then []
    else
      (if st[0].key in nodeMap then LinkEdges(nodeMap[st[0].key], st[0].node.links, nodeMap) else [])
      + CreateEdges(st[1..], nodeMap)
  }

  /** `create_graph_from_db`: pass 1, then pass 2 against pass 1's map. */
  function CreateGraphFromDb(st: Db): MyGraph
  {
    var (labels, nodeMap) := CreateNodes(st);
    MyGraph(Digraph(labels, CreateEdges(st, nodeMap)), nodeMap)
  }

  /** `update`: a successful rebuild replaces graph and map wholesale, so
      nothing of the previous graph survives; a store failure while reading
      (two reads per entry) leaves the previous graph in place. */
  function Update(g: MyGraph, st: Db, fault: Fault): (r: (MyGraph, Result<()>))
    ensures Hits(fault, 2 * |st|) ==> r == (g, Err(StoreError))
    ensures !Hits(fault, 2 * |st|) ==>
              && r.1 == Ok(())
              && |r.0.graph.labels| == |st|
              && (forall i :: 0 <= i < |st| ==> r.0.graph.labels[i] == st[i].node.title)
              && (forall k :: k in r.0.nodeMap <==> k in Keys(st))
  {
    if Hits(fault, 2 * |st|) then (g, Err(StoreError))
    else
      CreateNodesShape(st);
      (CreateGraphFromDb(st), Ok(()))
  }

  /* ---------------- pass 1 ---------------- */

  /** Pass 1 creates exactly one vertex per entry, labelled with that
      entry's title, and maps exactly the stored keys. */
  lemma {:induction false} CreateNodesShape(st: Db)
    ensures |CreateNodes(st).0| == |st|
    ensures forall i :: 0 <= i < |st| ==> CreateNodes(st).0[i] == st[i].node.title
    ensures forall k :: k in CreateNodes(st).1 <==> k in Keys(st)
    decreases |st|
  {
    if st != [] {
      var init := st[..|st| - 1];
      var last := st[|st| - 1];
      CreateNodesShape(init);
      var prev := CreateNodes(init);
      assert CreateNodes(st) == (prev.0 + [last.node.title], prev.1[last.key := |prev.0|]);
      KeysSnoc(st);
      forall i | 0 <= i < |st| - 1 ensures CreateNodes(st).0[i] == st[i].node.title {
        assert init[i] == st[i];
      }
    }
  }

  /** The map sends each stored key to the vertex of its own entry. */
  ghost predicate IndexMap(st: Db, nodeMap: map<Key, nat>) {
    && (forall k :: k in nodeMap <==> k in Keys(st))
    && (forall i :: 0 <= i < |st| ==> st[i].key in nodeMap && nodeMap[st[i].key] == i)
  }

  /** With distinct keys, pass 1 maps the key of entry `i` to vertex `i`. */
  lemma {:induction false} CreateNodesIndex(st: Db)
    requires Distinct(st)
    ensures IndexMap(st, CreateNodes(st).1)
    decreases |st|
  {
    CreateNodesShape(st);
    if st != [] {
      var init := st[..|st| - 1];
      var last := st[|st| - 1];
      assert Distinct(init);
      CreateNodesIndex(init);
      CreateNodesShape(init);
      forall i | 0 <= i < |st|
        ensures CreateNodes(st).1[st[i].key] == i
      {
        if i < |st| - 1 {
          assert init[i] == st[i];
          assert st[i].key != last.key;
        }
      }
    }
  }

  /* ---------------- pass 2 ---------------- */

  /** All edge endpoints are vertices of an `n`-vertex graph. */
  predicate ValidEdges(n: nat, edges: seq<(nat, nat)>) {
    forall m :: 0 <= m < |edges| ==> edges[m].0 < n && edges[m].1 < n
  }

  /** An edge list read back as (source key, target key) pairs. */
  function ToKeys(st: Db, edges: seq<(nat, nat)>): (r: seq<(Key, Key)>)
    requires ValidEdges(|st|, edges)
    ensures |r| == |edges|
  {
    if edges == [] then []
    else [(st[edges[0].0].key, st[edges[0].1].key)] + ToKeys(st, edges[1..])
  }

  lemma {:induction false} ToKeysAppend(st: Db, a: seq<(nat, nat)>, b: seq<(nat, nat)>)
    requires ValidEdges(|st|, a) && ValidEdges(|st|, b)
    ensures ValidEdges(|st|, a + b)
    ensures ToKeys(st, a + b) == ToKeys(st, a) + ToKeys(st, b)
  {
    if a == [] {
      assert a + b == b;
    } else {
      assert (a + b)[1..] == a[1..] + b;
      ToKeysAppend(st, a[1..], b);
    }
  }

  /** Reference for pass 2, in key terms: one (source, target) pair per
      link entry whose target is a live key. */
  function LivePairs(source: Key, links: seq<Key>, live: seq<Key>): seq<(Key, Key)>
  {
    if links == [] then []
    else (if links[0] in live then [(source, links[0])] else []) + LivePairs(source, links[1..], live)
  }

  function LinkPairs(es: Db, live: seq<Key>): seq<(Key, Key)>
  {
    if es == [] then []
    else LivePairs(es[0].key, es[0].node.links, live) + LinkPairs(es[1..], live)
  }

  /** Number of entries of `links` that are live. */
  function LiveCount(links: seq<Key>, live: seq<Key>): nat
  {
    if links == [] then 0
    else (if links[0] in live then 1 else 0) + LiveCount(links[1..], live)
  }

  /** Number of link entries, over all entries, whose target is live. */
  function LiveLinkCount(es: Db, live: seq<Key>): nat
  {
    if es == [] then 0 else LiveCount(es[0].node.links, live) + LiveLinkCount(es[1..], live)
  }

  lemma IndexMapLookup(st: Db, nodeMap: map<Key, nat>, l: Key)
    requires IndexMap(st, nodeMap)
    ensures l in nodeMap <==> l in Keys(st)
    ensures l in nodeMap ==> nodeMap[l] < |st| && st[nodeMap[l]].key == l
  {
    if l in nodeMap {
      var i :| 0 <= i < |st| && Keys(st)[i] == l;
      assert nodeMap[st[i].key] == i;
    }
  }

  lemma {:induction false} LinkEdgesMatch(st: Db, nodeMap: map<Key, nat>, from: nat, links: seq<Key>)
    requires IndexMap(st, nodeMap) && from < |st|
    ensures ValidEdges(|st|, LinkEdges(from, links, nodeMap))
    ensures ToKeys(st, LinkEdges(from, links, nodeMap)) == LivePairs(st[from].key, links, Keys(st))
  {
    if links != [] {
      LinkEdgesMatch(st, nodeMap, from, links[1..]);
      var rest := LinkEdges(from, links[1..], nodeMap);
      var l := links[0];
      IndexMapLookup(st, nodeMap, l);
      var head := if l in nodeMap then [(from, nodeMap[l])] else [];
      assert LinkEdges(from, links, nodeMap) == head + rest;
      ToKeysAppend(st, head, rest);
      assert ToKeys(st, head) == if l in Keys(st) then [(st[from].key, l)] else [];
    }
  }

  lemma {:induction false} CreateEdgesMatch(st: Db, nodeMap: map<Key, nat>, es: Db)
    requires IndexMap(st, nodeMap)
    requires forall e :: e in es ==> e.key in Keys(st)
    ensures ValidEdges(|st|, CreateEdges(es, nodeMap))
    ensures ToKeys(st, CreateEdges(es, nodeMap)) == LinkPairs(es, Keys(st))
  {
    if es != [] {
      assert es[0] in es;
      CreateEdgesMatch(st, nodeMap, es[1..]);
      IndexMapLookup(st, nodeMap, es[0].key);
      var i := nodeMap[es[0].key];
      LinkEdgesMatch(st, nodeMap, i, es[0].node.links);
      ToKeysAppend(st, LinkEdges(i, es[0].node.links, nodeMap), CreateEdges(es[1..], nodeMap));
    }
  }

  /** The rebuilt graph, read back through store keys: vertex `i` is entry
      `i` under its title, `node_map` covers exactly the stored keys, and the
      edges are, in order, one (note, target) pair per link entry whose target
      is stored, so duplicate links give parallel edges and links to missing
      notes give none. */
  lemma GraphMatchesStore(st: Db)
    requires Distinct(st)
    ensures var g := CreateGraphFromDb(st);
            && |g.graph.labels| == |st|
            && (forall i :: 0 <= i < |st| ==> g.graph.labels[i] == st[i].node.title)
            && IndexMap(st, g.nodeMap)
            && ValidEdges(|st|, g.graph.edges)
            && ToKeys(st, g.graph.edges) == LinkPairs(st, Keys(st))
  {
    CreateNodesShape(st);
    CreateNodesIndex(st);
    assert forall e :: e in st ==> e.key in Keys(st);
    CreateEdgesMatch(st, CreateNodes(st).1, st);
  }

  lemma {:induction false} LivePairsCount(source: Key, links: seq<Key>, live: seq<Key>)
    ensures |LivePairs(source, links, live)| == LiveCount(links, live)
  {
    if links != [] {
      LivePairsCount(source, links[1..], live);
    }
  }

  /** The number of edges is the number of link entries, over all notes,
      whose target is a stored key. */
  lemma {:induction false} EdgeCount(st: Db)
    requires Distinct(st)
    ensures |CreateGraphFromDb(st).graph.edges| == LiveLinkCount(st, Keys(st))
  {
    GraphMatchesStore(st);
    LinkPairsCount(st, Keys(st));
  }

  lemma {:induction false} LinkPairsCount(es: Db, live: seq<Key>)
    ensures |LinkPairs(es, live)| == LiveLinkCount(es, live)
  {
    if es != [] {
      LivePairsCount(es[0].key, es[0].node.links, live);
      LinkPairsCount(es[1..], live);
    }
  }

  /** Each link entry gives its own edge: the pair (key of entry `i`, `l`)
      occurs once per occurrence of `l` in that note's links when `l` is live,
      and never otherwise. */
  lemma {:induction false} LinkPairsMultiplicity(es: Db, live: seq<Key>, i: nat, l: Key)
    requires Distinct(es)
    requires i < |es|
    ensures multiset(LinkPairs(es, live))[(es[i].key, l)] ==
              if l in live then multiset(es[i].node.links)[l] else 0
  {
    var t := es[1..];
    assert Distinct(t) by {
      forall a, b | 0 <= a < b < |t| ensures t[a].key != t[b].key {
        assert t[a] == es[a + 1] && t[b] == es[b + 1];
      }
    }
    if i == 0 {
      LivePairsMultiplicity(es[0].key, es[0].node.links, live, es[0].key, l);
      LinkPairsAbsent(t, live, es[0].key, l);
    } else {
      assert t[i - 1] == es[i];
      LinkPairsMultiplicity(t, live, i - 1, l);
      LivePairsMultiplicity(es[0].key, es[0].node.links, live, es[i].key, l);
    }
  }

  lemma {:induction false} LivePairsMultiplicity(source: Key, links: seq<Key>, live: seq<Key>, a: Key, l: Key)
    ensures multiset(LivePairs(source, links, live))[(a, l)] ==
              if a == source && l in live then multiset(links)[l] else 0
  {
    if links != [] {
      LivePairsMultiplicity(source, links[1..], live, a, l);
      assert links == [links[0]] + links[1..];
    }
  }

  lemma {:induction false} LinkPairsAbsent(es: Db, live: seq<Key>, a: Key, l: Key)
    requires forall e :: e in es ==> e.key != a
    ensures multiset(LinkPairs(es, live))[(a, l)] == 0
  {
    if es != [] {
      assert es[0] in es;
      LivePairsMultiplicity(es[0].key, es[0].node.links, live, a, l);
      LinkPairsAbsent(es[1..], live, a, l);
    }
  }

  /** A successful `update` installs a fresh build of the store: vertex `i`
      carries entry `i`'s title, `node_map` sends each key to its entry's
      vertex, and the edges read back as the live links of every note. The
      result does not depend on the graph held before. */
  lemma UpdateMatchesStore(g: MyGraph, st: Db, fault: Fault)
    requires Distinct(st)
    requires !Hits(fault, 2 * |st|)
    ensures var h := Update(g, st, fault).0;
            && (forall i :: 0 <= i < |st| ==> h.graph.labels[i] == st[i].node.title)
            && IndexMap(st, h.nodeMap)
            && ValidEdges(|st|, h.graph.edges)
            && ToKeys(st, h.graph.edges) == LinkPairs(st, Keys(st))
    ensures forall g' :: Update(g', st, fault) == Update(g, st, fault)
  {
    GraphMatchesStore(st);
  }

  /** Rebuilding from an unchanged store yields the same graph, whatever
      graph was held before. */
  lemma RebuildIdempotent(g: MyGraph, st: Db)
    ensures Update(Update(g, st, NoFault).0, st, NoFault) == Update(g, st, NoFault)
  {
  }
}
