/** The application state and the three store-mutating operations of
    src/app.rs: note creation, deletion with its link cascade, and link
    resolution. The store, the selected note and the held graph are values;
    each operation returns the next state with its result. */
module App {
  import opened Results
  import opened Nodes
  import opened Seqs
  import opened Store
  import opened Tokens
  import opened Resolve
  import opened Graph

  datatype AppState = AppState(store: Db, currentNode: Option<Key>, graph: MyGraph)

  datatype Step<T> = Step(state: AppState, result: Result<T>)

  /** Every record carries its own store key as its id (true of records
      written by `add_node` and kept by every rewrite). */
  predicate IdsMatchKeys(st: Db) {
    forall i :: 0 <= i < |st| ==> st[i].node.id == st[i].key
  }

  /** `AppState::new` over an opened store: nothing selected, and the graph
      built from the store. */
  function Init(st: Db): (app: AppState)
    ensures app.store == st
    ensures app.currentNode == None
    ensures |app.graph.graph.labels| == |st|
    ensures forall i :: 0 <= i < |st| ==> app.graph.graph.labels[i] == st[i].node.title
    ensures forall k :: k in app.graph.nodeMap <==> k in Keys(st)
    ensures forall g :: app.graph == Update(g, st, NoFault).0
  {
    CreateNodesShape(st);
    AppState(st, None, CreateGraphFromDb(st))
  }

  /* ---------------- add_node ---------------- */

  /** `add_node`: store a new note under the freshly generated `key` (one
      store write). Selecting the new note is left to the caller. */
  function AddNode(app: AppState, key: Key, title: string, content: string, fault: Fault): (r: Step<Key>)
    requires key !in Keys(app.store)
    ensures Hits(fault, 1) ==> r == Step(app, Err(StoreError))
    ensures !Hits(fault, 1) ==> r.result == Ok(key)
    ensures !Hits(fault, 1) ==> Get(r.state.store, key) == Some(Node(key, title, content, []))
    ensures forall k :: k != key ==> Get(r.state.store, k) == Get(app.store, k)
    ensures forall k :: k in Keys(r.state.store) <==> k in Keys(app.store) || (k == key && !Hits(fault, 1))
    ensures r.state.currentNode == app.currentNode && r.state.graph == app.graph
  {
    if Hits(fault, 1) then Step(app, Err(StoreError))
    else Step(app.(store := Put(app.store, key, New(key, title, content))), Ok(key))
  }

  /** A successful `add_node` inserts exactly one entry, holding the new
      note, and leaves every other entry unchanged and in order; the store
      stays sorted and every id still matches its key. */
  lemma AddNodeInsertsOne(app: AppState, key: Key, title: string, content: string)
    requires key !in Keys(app.store)
    requires Sorted(app.store) && IdsMatchKeys(app.store)
    ensures var st' := AddNode(app, key, title, content, NoFault).state.store;
            && (exists i :: 0 <= i <= |app.store| &&
                  st' == app.store[..i] + [Entry(key, Node(key, title, content, []))] + app.store[i..])
            && Sorted(st')
            && IdsMatchKeys(st')
  {
    var i := PutFresh(app.store, key, New(key, title, content));
    PutSorted(app.store, key, New(key, title, content));
    InsertIdsMatch(app.store, i, Entry(key, New(key, title, content)));
  }

  lemma InsertIdsMatch(st: Db, i: nat, e: Entry)
    requires IdsMatchKeys(st) && i <= |st| && e.node.id == e.key
    ensures IdsMatchKeys(st[..i] + [e] + st[i..])
  {
    var r := st[..i] + [e] + st[i..];
    forall j | 0 <= j < |r| ensures r[j].node.id == r[j].key {
      if j > i {
        assert r[j] == st[j - 1];
      } else if j < i {
        assert r[j] == st[j];
      }
    }
  }

  /* ---------------- delete_node ---------------- */

  /** The cascade after `count` successful rewrites: the first `count`
      entries have every link to `id` dropped; the others are untouched. */
  function PurgeFirst(st: Db, id: Key, count: nat): (r: Db)
    ensures Keys(r) == Keys(st)
    ensures |r| == |st|
    ensures forall i :: 0 <= i < |r| ==> r[i].key == st[i].key && r[i].node.id == st[i].node.id
    ensures forall i :: 0 <= i < |r| ==> r[i].node.title == st[i].node.title && r[i].node.content == st[i].node.content
    ensures forall i :: 0 <= i < |r| && i < count ==> r[i].node.links == Without(st[i].node.links, id)
    ensures forall i :: count <= i < |r| ==> r[i] == st[i]
    ensures count >= |st| ==> forall i :: 0 <= i < |r| ==> id !in r[i].node.links
  {
    var r := seq(|st|, i requires 0 <= i < |st| =>
               if i < count then Entry(st[i].key, st[i].node.(links := Without(st[i].node.links, id)))
               else st[i]);
    assert forall i :: 0 <= i < |st| ==> Keys(r)[i] == Keys(st)[i];
    r
  }

  /** How many of the `n` remaining entries `delete_node` rewrites once the
      removal has succeeded: all of them, or those before the entry whose
      read (access 1 + 2c) or write (access 2 + 2c) fails. */
  function Cleaned(fault: Fault, n: nat): (c: nat)
    requires !Hits(fault, 1)
    ensures c <= n
    ensures c == n <==> !Hits(fault, 1 + 2 * n)
    ensures c < n ==> fault.op == 1 + 2 * c || fault.op == 2 + 2 * c
  {
    if Hits(fault, 1 + 2 * n) then (fault.op - 1) / 2 else n
  }

  /** `delete_node`: remove `id` (store access 0), clear the selection if it
      was `id`, then read and rewrite every remaining entry in order (accesses
      1 + 2k and 2 + 2k for the k-th entry) with `id` dropped from its links.
      A failing access stops the operation where it is. The held graph is not
      refreshed. */
  function DeleteNode(app: AppState, id: Key, fault: Fault): (r: Step<()>)
    ensures Hits(fault, 1) ==> r == Step(app, Err(StoreError))
    ensures !Hits(fault, 1) ==> id !in Keys(r.state.store)
    ensures !Hits(fault, 1) ==> Keys(r.state.store) == Without(Keys(app.store), id)
    ensures !Hits(fault, 1) ==>
              r.state.currentNode == (if app.currentNode == Some(id) then None else app.currentNode)
    ensures r.result.Ok? ==> forall i :: 0 <= i < |r.state.store| ==> id !in r.state.store[i].node.links
    ensures Hits(fault, 1 + 2 * |Remove(app.store, id)|) ==> r.result == Err(StoreError)
    ensures !Hits(fault, 1 + 2 * |Remove(app.store, id)|) ==> r.result == Ok(())
    ensures r.state.graph == app.graph
  {
    if Hits(fault, 1) then Step(app, Err(StoreError))
    else
      var rest := Remove(app.store, id);
      var current := if app.currentNode == Some(id) then None else app.currentNode;
      if Hits(fault, 1 + 2 * |rest|) then
        Step(AppState(PurgeFirst(rest, id, Cleaned(fault, |rest|)), current, app.graph), Err(StoreError))
      else
        Step(AppState(PurgeFirst(rest, id, |rest|), current, app.graph), Ok(()))
  }

  /** After a successful delete, every surviving note keeps its title,
      content and id, and its links lose exactly the entries equal to `id`,
      the others keeping their order and multiplicity. */
  lemma DeleteNodeRewritesLinks(app: AppState, id: Key, fault: Fault, k: Key)
    requires DeleteNode(app, id, fault).result.Ok?
    requires k != id
    ensures var after := Get(DeleteNode(app, id, fault).state.store, k);
            match Get(app.store, k)
            case None => after == None
            case Some(n) => after == Some(n.(links := Without(n.links, id)))
  {
    var rest := Remove(app.store, id);
    var st' := DeleteNode(app, id, fault).state.store;
    RemoveGet(app.store, id, k);
    IndexOfSameKeys(st', rest, k);
  }

  /** A delete that gets past the removal has removed `id` for good; the
      first `Cleaned` remaining entries lost their links to `id` and the rest
      are untouched, so links to `id` may survive there when a later access
      failed. No entry changes its key, id, title or content. */
  lemma DeleteNodePartial(app: AppState, id: Key, fault: Fault)
    requires !Hits(fault, 1)
    ensures var rest := Remove(app.store, id);
            var st' := DeleteNode(app, id, fault).state.store;
            && |st'| == |rest|
            && forall i :: 0 <= i < |rest| ==>
                 && st'[i].key == rest[i].key
                 && st'[i].node.id == rest[i].node.id
                 && st'[i].node.title == rest[i].node.title
                 && st'[i].node.content == rest[i].node.content
                 && st'[i].node.links ==
                      (if i < Cleaned(fault, |rest|) then Without(rest[i].node.links, id) else rest[i].node.links)
  {
    var rest := Remove(app.store, id);
    assert DeleteNode(app, id, fault).state.store == PurgeFirst(rest, id, Cleaned(fault, |rest|));
  }

  /** A note that does not link to `id` comes out of a delete that gets
      past the removal unchanged, whether or not the cascade reached it. */
  lemma DeleteNodeSparesUnlinked(app: AppState, id: Key, fault: Fault, k: Key)
    requires !Hits(fault, 1)
    requires k != id
    requires Get(app.store, k).Some? && id !in Get(app.store, k).value.links
    ensures Get(DeleteNode(app, id, fault).state.store, k) == Get(app.store, k)
  {
    var rest := Remove(app.store, id);
    var st' := DeleteNode(app, id, fault).state.store;
    RemoveGet(app.store, id, k);
    IndexOfSameKeys(st', rest, k);
    DeleteNodePartial(app, id, fault);
    var j := IndexOf(rest, k).value;
    WithoutAbsent(rest[j].node.links, id);
    assert st'[j].node == rest[j].node;
  }

  /** Deleting keeps the store sorted and every id matching its key. */
  lemma DeleteNodeKeepsInvariants(app: AppState, id: Key, fault: Fault)
    requires Sorted(app.store) && IdsMatchKeys(app.store)
    ensures Sorted(DeleteNode(app, id, fault).state.store)
    ensures IdsMatchKeys(DeleteNode(app, id, fault).state.store)
  {
    if !Hits(fault, 1) {
      var rest := Remove(app.store, id);
      RemoveSorted(app.store, id);
      DeleteNodePartial(app, id, fault);
      var st' := DeleteNode(app, id, fault).state.store;
      forall i | 0 <= i < |st'| ensures st'[i].node.id == st'[i].key {
        assert rest[i] in rest;
        var j :| 0 <= j < |app.store| && app.store[j] == rest[i];
      }
    }
  }

  /** After a delete that gets past the removal, and a rebuild through
      `update`, the graph has no vertex for `id` and no edge touching it.
      This holds even when the cascade stopped early and some notes still
      link to `id`: pass 2 skips links whose target has no vertex. */
  lemma DeleteThenRebuild(app: AppState, id: Key, fault: Fault)
    requires Sorted(app.store)
    requires !Hits(fault, 1)
    ensures var st' := DeleteNode(app, id, fault).state.store;
            var g := Update(app.graph, st', NoFault).0;
            && id !in g.nodeMap
            && ValidEdges(|st'|, g.graph.edges)
            && forall m :: 0 <= m < |g.graph.edges| ==>
                 st'[g.graph.edges[m].0].key != id && st'[g.graph.edges[m].1].key != id
  {
    var st' := DeleteNode(app, id, fault).state.store;
    WithoutIncreasing(Keys(app.store), id);
    SortedDistinct(st');
    GraphMatchesStore(st');
    CreateNodesShape(st');
    var g := Update(app.graph, st', NoFault).0;
    forall m | 0 <= m < |g.graph.edges|
      ensures st'[g.graph.edges[m].0].key != id && st'[g.graph.edges[m].1].key != id
    {
      assert Keys(st')[g.graph.edges[m].0] == st'[g.graph.edges[m].0].key;
      assert Keys(st')[g.graph.edges[m].1] == st'[g.graph.edges[m].1].key;
    }
  }

  /* ---------------- update_links ---------------- */

  /** Store accesses issued by `update_links`: a full scan per token, the
      read of the target, and its write when it exists. */
  function UpdateLinksOps(st: Db, nodeId: Key, content: string): nat
  {
    |Extract(content)| * |st| + 1 + (if nodeId in Keys(st) then 1 else 0)
  }

  /** `update_links`: resolve the tokens of `content` against the store and
      overwrite the links of `nodeId` with the result; title and content of
      the stored note are left as they are. A missing `nodeId` writes
      nothing and still succeeds. Any failing store access aborts before the
      write. */
  function UpdateLinks(app: AppState, nodeId: Key, content: string, fault: Fault): (r: Step<()>)
    ensures Hits(fault, UpdateLinksOps(app.store, nodeId, content)) ==> r == Step(app, Err(StoreError))
    ensures !Hits(fault, UpdateLinksOps(app.store, nodeId, content)) ==> r.result == Ok(())
    ensures nodeId !in Keys(app.store) ==> r.state == app
    ensures forall k :: k in Keys(r.state.store) <==> k in Keys(app.store)
    ensures forall k :: k != nodeId ==> Get(r.state.store, k) == Get(app.store, k)
    ensures r.result.Ok? && nodeId in Keys(app.store) ==>
              var n := Get(app.store, nodeId).value;
              Get(r.state.store, nodeId) == Some(n.(links := ResolveTokens(app.store, Extract(content))))
    ensures r.state.currentNode == app.currentNode && r.state.graph == app.graph
  {
    if Hits(fault, UpdateLinksOps(app.store, nodeId, content)) then Step(app, Err(StoreError))
    else
      match Get(app.store, nodeId)
      case None => Step(app, Ok(()))
      case Some(n) =>
        var links := ResolveTokens(app.store, Extract(content));
        Step(app.(store := Put(app.store, nodeId, n.(links := links))), Ok(()))
  }

  /** Every id written by `update_links` is the key of a stored note. */
  lemma UpdateLinksTargetsExist(app: AppState, nodeId: Key, content: string)
    requires nodeId in Keys(app.store)
    ensures var st' := UpdateLinks(app, nodeId, content, NoFault).state.store;
            forall k :: k in Get(st', nodeId).value.links ==> k in Keys(st')
  {
    ResolveInStore(app.store, Extract(content));
  }

  /** The rewrite is in place: only the links field of the target's entry
      changes, and the store stays sorted with ids matching keys. */
  lemma UpdateLinksInPlace(app: AppState, nodeId: Key, content: string, fault: Fault)
    requires Sorted(app.store) && IdsMatchKeys(app.store)
    ensures var st' := UpdateLinks(app, nodeId, content, fault).state.store;
            && Sorted(st')
            && IdsMatchKeys(st')
            && SameTitles(app.store, st')
            && forall i :: 0 <= i < |st'| ==>
                 && st'[i].node.id == app.store[i].node.id
                 && st'[i].node.content == app.store[i].node.content
                 && (st'[i].key != nodeId ==> st'[i] == app.store[i])
  {
    if nodeId in Keys(app.store) && !Hits(fault, UpdateLinksOps(app.store, nodeId, content)) {
      var n := Get(app.store, nodeId).value;
      var links := ResolveTokens(app.store, Extract(content));
      PutExisting(app.store, nodeId, n.(links := links));
      PutSorted(app.store, nodeId, n.(links := links));
      SetLinksInPlace(app.store, IndexOf(app.store, nodeId).value, links);
    }
  }

  /** Overwriting the links of entry `i` keeps every key, id, title and
      content, and leaves the other entries as they were. */
  lemma SetLinksInPlace(st: Db, i: nat, links: seq<Key>)
    requires IdsMatchKeys(st) && i < |st|
    ensures var st' := st[i := Entry(st[i].key, st[i].node.(links := links))];
            && IdsMatchKeys(st')
            && SameTitles(st, st')
            && forall j :: 0 <= j < |st'| ==>
                 && st'[j].node.id == st[j].node.id
                 && st'[j].node.content == st[j].node.content
                 && (j != i ==> st'[j] == st[j])
  {
  }

  /** Resolving the same content twice in a row gives the same store as
      resolving it once: the write replaces the list rather than adding to it,
      and it changes no title, so the second resolution finds the same ids. */
  lemma UpdateLinksIdempotent(app: AppState, nodeId: Key, content: string)
    requires Sorted(app.store) && IdsMatchKeys(app.store)
    ensures var once := UpdateLinks(app, nodeId, content, NoFault).state;
            UpdateLinks(once, nodeId, content, NoFault).state == once
  {
    var once := UpdateLinks(app, nodeId, content, NoFault).state;
    if nodeId in Keys(app.store) {
      UpdateLinksInPlace(app, nodeId, content, NoFault);
      ResolveReadsTitlesOnly(app.store, once.store, Extract(content));
      var n := Get(once.store, nodeId).value;
      assert n.(links := ResolveTokens(once.store, Extract(content))) == n;
      PutUnchanged(once.store, nodeId);
    }
  }
}
