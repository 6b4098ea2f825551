# BrainBox link-resolution and graph engine, in Dafny

BrainBox is a note-taking app. Notes live in an ordered key-value store (sled). Each note has an
id, a title, a content text and a list of resolved `links`. A note's content refers to other notes
by title with `[[Title]]` tokens. This project models the engine behind that:

- **Note creation** (`AppState::add_node`, `Node::new`). A new note is stored under a fresh key with
  empty links.
- **Link resolution** (`AppState::update_links`). The tokens matching `\[\[(.+?)]]` are extracted
  from the content. Each token is resolved by a full store scan to the keys of *all* notes with that
  title. The target note's `links` field is then overwritten.
- **Deletion cascade** (`AppState::delete_node`). The note is removed, and every remaining note is
  rewritten with the removed key dropped from its links.
- **Graph rebuild** (`MyGraph::update` / `create_graph_from_db` / `create_nodes` / `create_edges`).
  Pass 1 adds one vertex per stored note, labelled with its title. Pass 2 adds one directed edge per
  link whose target is stored.

Modules, one per concern:

| file | module | models |
|---|---|---|
| `results.dfy` | `Results` | `Option`, `Result`, the single `StoreError`, and `Fault`, an abstract store failure |
| `seqs.dfy` | `Seqs` | `Without`, which is `Vec::retain(\|l\| l != id)` |
| `node.dfy` | `Nodes` | the `Node` record and `Node::new` |
| `store.dfy` | `Store` | the sled tree: entries sorted by key, plus `get`, `insert` (`Put`) and `remove` |
| `tokens.dfy` | `Tokens` | the regex `\[\[(.+?)]]` scanned with `captures_iter` |
| `resolve.dfy` | `Resolve` | the nested token × store scan inside `update_links` |
| `graph.dfy` | `Graph` | `MyGraph`, its two build passes, and `update` |
| `app.dfy` | `App` | `AppState` with `new`, `add_node`, `delete_node` and `update_links` |
| `scenarios.dfy` | `Scenarios` | worked examples |

Modelling choices:

- **The store** is a sequence of `Entry(key, node)` values. Its keys strictly increase under
  character-wise lexicographic order (`Store.Sorted`). Sled iterates keys in byte order, and for
  UTF-8 strings byte order equals code-point order. Inserting an existing key overwrites it in place.
  Inserting a new key puts it at its sorted position. Every record is assumed well-formed: serde
  never fails, and keys are valid UTF-8, so `String::from_utf8` always succeeds.
- **Identity** is the store key, as in the source. `App.IdsMatchKeys` states that each record's
  `id` equals its key. Every operation preserves it.
- **Store failures** are a parameter `Fault = NoFault | FailAt(op)`, where `op` numbers the store
  accesses of one operation from 0 in program order. A failed access performs no write, and the `?`
  returns at once.
  - `add_node` makes one write.
  - `delete_node` makes the remove (access 0), then a read and a write for each remaining entry.
  - `update_links` makes one full scan per token, one `get`, and one write if the note exists.
  - A graph rebuild makes two scans.
- **The graph** is a sequence of vertex labels and a sequence of `(source, target)` vertex-index
  pairs, with parallel edges kept. Vertex `i` is the `i`-th vertex added to a fresh `StableGraph`.
  `node_map` is a `map<Key, nat>`. `Graph.ToKeys` reads edges back as key pairs. `Graph.LinkPairs`
  is the reference definition that the edges are proved equal to.
- **Token extraction** is a scanner (`MatchAt`, `Scan`) that is proved equal to a declarative
  definition (`Leftmost`). Scanning proceeds from left to right. A match needs `[[`, one or more
  characters, none of them a line feed, then `]]`. The shortest such body is taken. The search resumes
  right after each match.

Behaviour worth knowing:

- `update_links` on a key that is not stored writes nothing and returns `Ok` (src/app.rs:77, :84).
- A token resolves to every note with that title, in store order (src/app.rs:63-74).
- `[[]]` yields no token, because the body needs at least one character (src/app.rs:60). For the
  same reason, `[[]]]` yields the token `]`.
- `delete_node` leaves the held graph as it is (src/app.rs:42-56). `App.DeleteNode` states that
  the graph is unchanged.
- A failed read or write during the deletion cascade stops the remaining rewrites, because of the
  `?` at src/app.rs:49 and :53.

## Model

| member | source | states |
|---|---|---|
| Nodes.New | src/node.rs:12-19 | a new note stores id, title and content verbatim and has empty links |
| Store.Put | src/app.rs:38 | sled `insert`: afterwards the key is stored and reads back the new note, the stored key set gains only that key, and every other key reads back as before |
| Store.Get | src/app.rs:77 | sled `get`: finds a note exactly when the key is stored, and in a store with distinct keys the note found is the one stored under that key |
| Store.PutFresh | src/app.rs:38 | inserting a fresh key adds exactly one entry at some position and shifts every other entry unchanged |
| Store.PutExisting | src/app.rs:81 | in a sorted store, inserting an existing key rewrites that entry in place |
| Store.PutSorted | src/app.rs:38 | insertion keeps the store's keys strictly increasing |
| Store.RemoveGet | src/app.rs:43 | removing a key leaves what every other key looks up to unchanged |
| Store.Remove | src/app.rs:43 | sled `remove`: the keys are the old keys without the removed one, in order, and the entries are exactly the old entries under other keys |
| Seqs.Without | src/app.rs:51 | `retain` keeping the links that differ from the id: the result holds no copy of the id, only elements of the input, and is no longer than it; Seqs.WithoutMultiplicity and Seqs.WithoutAppend characterise it fully |
| Seqs.WithoutMultiplicity | src/app.rs:51 | `retain` drops every copy of the id and keeps the multiplicity of every other link |
| Seqs.WithoutAppend | src/app.rs:51 | `retain` distributes over concatenation, so surviving links keep their relative order |
| Tokens.MatchAt | src/app.rs:60 | one attempt of the pattern at a position: a found `]]` lies after a body of at least one character and inside the text; characterised by Tokens.MatchAtSpec |
| Tokens.FindClose | src/app.rs:60 | the lazy search for `]]` after the body read so far: a found position lies at or after the start and leaves room for `]]`; characterised by Tokens.FindCloseShortest |
| Tokens.Scan | src/app.rs:61 | the successive matches from a position: every span lies inside the text and after that position, and the spans are in order without overlap; characterised by Tokens.ExtractSpans |
| Tokens.Extract | src/app.rs:60-62 | definition: capture group 1 of each match found by `captures_iter`; characterised by Tokens.ExtractSpans and Tokens.ExtractTokens |
| Tokens.MatchAtSpec | src/app.rs:60 | the scanner finds a match at a position exactly when the pattern matches there, and it returns the shortest body |
| Tokens.ExtractSpans | src/app.rs:60-62 | the extracted spans are the successive leftmost, non-overlapping, shortest matches, and no other span sequence has that property |
| Tokens.ExtractTokens | src/app.rs:60-62 | each token is non-empty, contains no line feed, and is the text between `[[` and `]]` at its span |
| Tokens.ScanSkip | src/app.rs:60 | a stretch of text without `[` holds no match start, so the search passes over it |
| Resolve.KeysWithTitle | src/app.rs:63-74 | definition: one token's full store scan; characterised by Resolve.KeysWithTitleSpec and Resolve.KeysWithTitleSorted |
| Resolve.ResolveTokens | src/app.rs:61-76 | definition: the token-by-token concatenation of those scans; characterised by Resolve.ResolveMultiplicity, Resolve.ResolveAppend and Resolve.ResolveInStore |
| Resolve.KeysWithTitleSpec | src/app.rs:63-74 | one token's scan yields exactly the keys of the notes carrying that title |
| Resolve.KeysWithTitleSorted | src/app.rs:63-74 | in a sorted store that scan lists those keys in store order |
| Resolve.ResolveInStore | src/app.rs:63-71 | every resolved id is a key of the store |
| Resolve.ResolveMultiplicity | src/app.rs:61-76 | a stored key occurs once per token equal to its note's title; unresolved tokens contribute nothing; unknown keys never occur |
| Resolve.ResolveAppend | src/app.rs:61-76 | resolving concatenated token lists concatenates the results, preserving encounter order |
| Resolve.ResolveReadsTitlesOnly | src/app.rs:63-73 | resolution depends only on keys and titles, not on links or content |
| App.Init | src/app.rs:20-33 | a new state has no selection; its graph has vertex i labelled with entry i's title, a node_map covering exactly the stored keys, and equals what a fault-free `update` builds from the store, so the facts of Graph.UpdateMatchesStore apply to it |
| App.AddNode | src/app.rs:34-40 | returns the key and stores New(key, title, content) under it; other lookups are unchanged; a failed write changes nothing |
| App.AddNodeInsertsOne | src/app.rs:34-40 | exactly one entry is added, holding the new note; the others are unchanged and in order; the invariants are kept |
| App.DeleteNode | src/app.rs:42-56 | after the remove, the id is no longer a key and the other keys keep their order; the selection is cleared exactly when it was the id; on success no note links to the id; success exactly when no access fails; the graph is untouched |
| App.PurgeFirst | src/app.rs:48-54 | the cascade after a given number of rewrites: keys, ids, titles and contents are kept; the first entries have every link to the id dropped and the rest are untouched; after all rewrites no entry links to the id |
| App.DeleteNodeRewritesLinks | src/app.rs:48-54 | after a successful delete, every other note keeps its id, title and content, and its links equal the old links without the id |
| App.DeleteNodeSparesUnlinked | src/app.rs:48-54 | a note that does not link to the id reads back unchanged after any delete that gets past the remove, whether or not the cascade reached it |
| App.Cleaned | src/app.rs:48-54 | the number of rewritten entries is at most the number remaining and equals it exactly when no read or write of the cascade fails; otherwise the failing access is the read or the write of the first entry not rewritten |
| App.DeleteNodePartial | src/app.rs:48-54 | a delete that gets past the remove leaves a cleaned prefix and an untouched suffix; keys, ids, titles and contents never change |
| App.DeleteNodeKeepsInvariants | src/app.rs:42-56 | delete keeps the store sorted and every id equal to its key |
| App.DeleteThenRebuild | src/app.rs:42-56 | after a delete that gets past the remove, even one whose cascade stopped early, the graph built by `update` maps no vertex from the id and has no edge with it as an endpoint |
| App.UpdateLinks | src/app.rs:58-85 | the target's links become the resolution of the content's tokens and its other fields are kept; other notes are unchanged; a missing target gives Ok with no write; a failed access gives Err with no write |
| App.UpdateLinksTargetsExist | src/app.rs:63-71 | every id written into the target's links is a stored key |
| App.UpdateLinksInPlace | src/app.rs:77-83 | the write changes only the target entry's links, in place, and keeps the invariants |
| App.UpdateLinksIdempotent | src/app.rs:77-84 | running update_links twice with the same content gives the same state as running it once |
| Graph.CreateNodes | src/graph.rs:54-67 | definition: pass 1; characterised by Graph.CreateNodesShape and Graph.CreateNodesIndex |
| Graph.CreateEdges | src/graph.rs:69-87 | definition: pass 2; characterised by Graph.GraphMatchesStore, Graph.EdgeCount and Graph.LinkPairsMultiplicity |
| Graph.LinkEdges | src/graph.rs:79-83 | definition: one note's links in order, an edge for each target that has a vertex; characterised by Graph.LinkEdgesMatch and Graph.LinkPairsMultiplicity |
| Graph.CreateGraphFromDb | src/graph.rs:40-52 | definition: pass 1 then pass 2 against pass 1's map; characterised by Graph.GraphMatchesStore |
| Graph.CreateNodesShape | src/graph.rs:54-67 | pass 1 makes one vertex per entry, labelled with that entry's title; node_map's domain is exactly the stored keys |
| Graph.CreateNodesIndex | src/graph.rs:54-67 | with distinct keys, node_map sends entry i's key to vertex i |
| Graph.GraphMatchesStore | src/graph.rs:40-52 | every edge joins two stored notes' vertices; read as key pairs, the edges are the live links of every note, in order |
| Graph.EdgeCount | src/graph.rs:69-87 | the edge count equals the number of link entries, over all notes, whose target is stored |
| Graph.LinkPairsMultiplicity | src/graph.rs:79-82 | a pair (note, target) occurs once per occurrence of the target in the note's links if the target is stored, else never (parallel edges; dangling links skipped) |
| Graph.Update | src/graph.rs:32-37 | a successful rebuild gives one vertex per entry labelled with its title and a node_map covering exactly the stored keys; a failure keeps the old graph |
| Graph.UpdateMatchesStore | src/graph.rs:32-37 | a successful rebuild is a fresh build of the store: vertex i carries entry i's title, node_map sends each key to its entry's vertex, the edges read back as every note's live links, and the result does not depend on the graph held before |
| Graph.RebuildIdempotent | src/graph.rs:32-37 | rebuilding twice from an unchanged store gives the same graph |
| Scenarios.EmptyBrackets | src/app.rs:60 | `[[]]` yields no token |
| Scenarios.Unclosed | src/app.rs:60 | an unclosed `[[abc` yields no token |
| Scenarios.LineFeedInBody | src/app.rs:60 | a body containing a line feed does not match |
| Scenarios.BracketBody | src/app.rs:60 | `[[]]]` yields the token `]` |
| Scenarios.RepeatedReference | src/app.rs:61-62 | `[[Beta]] and [[Beta]]` yields `Beta` twice |
| Scenarios.ResolveExamples | src/app.rs:61-76 | a duplicate reference repeats the id; an unknown title resolves to nothing |
| Scenarios.UnknownReference | src/app.rs:60-76 | `[[Unknown Title]]` is extracted as the token `Unknown Title`, which resolves to no key |
| Scenarios.DuplicateTitles | src/app.rs:63-74 | two notes with the same title both receive the reference, in store order |
| Scenarios.ScenarioResolve | src/app.rs:58-85 | resolving A's `see [[Beta]]` sets A's links to [B] |
| Scenarios.ScenarioGraph | src/graph.rs:40-52 | the rebuilt graph then has the single edge A → B |
| Scenarios.ScenarioDelete | src/app.rs:42-56 | deleting B leaves A with no links, and the graph `update` then builds has no edges |

## Left out

- src/ui.rs, the egui panels and rendering. This includes the search filter and its Unicode
  lower-casing. It also includes the per-frame write-back of the edited node, which re-inserts the
  pre-edit `links` after `update_links` has run.
- src/md-parser.rs: it is not a module of the crate and does not compile.
- src/main.rs: eframe start-up.
- `MyGraph::show`, the petgraph `StableGraph` and the `egui_graphs` conversion. The graph is plain
  data.
- Opening the sled database in `AppState::new`, and the panic of `MyGraph::new(&db).unwrap()` when
  the first build fails. `App.Init` assumes the first build succeeds.
- The fields `search_query`, `markdown_cache` and `show_graph` of `AppState`: they are UI state.
- UUID generation in `add_node`. The key is a parameter, and the model requires it to be fresh.
- serde_json encoding and decoding and their `unwrap` panics: every record is well-formed.
  `String::from_utf8` on keys always succeeds.
- Sled's own error causes. A failure is only an abstract `Fault` on one store access.
- `println!` logging in `update_links`.
