/** The persisted note record (src/node.rs). */
module Nodes {

  /** A note: its identity, title, content and resolved outbound links
      (store keys of other notes, in resolution order). */
  datatype Node = Node(id: string, title: string, content: string, links: seq<string>)

  /** `Node::new`: every field but `links` is taken verbatim; a new note links nowhere. */
  function New(id: string, title: string, content: string): (n: Node)
    ensures n.id == id
    ensures n.title == title
    ensures n.content == content
    ensures n.links == []
  {
    Node(id, title, content, [])
  }
}
