/** Worked examples: the token grammar's edge cases and the two-note
    scenario of resolve, rebuild, delete and rebuild. */
module Scenarios {
  import opened Results
  import opened Nodes
  import opened Store
  import opened Tokens
  import opened Resolve
  import opened Graph
  import opened App
  import Seqs

  /** `[[]]` has no body of at least one character, so it yields no token. */
  lemma EmptyBrackets()
    ensures Extract("[[]]") == []
  {
    var s := "[[]]";
    assert MatchAt(s, 0) == None;
    assert MatchAt(s, 1) == None;
    assert Scan(s, 2) == [];
  }

  /** An unclosed `[[` yields nothing. */
  lemma Unclosed()
    ensures Extract("[[abc") == []
  {
    var s := "[[abc";
    assert MatchAt(s, 0) == None;
    assert Scan(s, 3) == [];
  }

  /** A line feed cannot be part of a token. */
  lemma LineFeedInBody()
    ensures Extract("[[a\nb]]") == []
  {
    var s := "[[a\nb]]";
    assert FindClose(s, 3) == None;
    assert MatchAt(s, 0) == None;
    assert Scan(s, 2) == [];
  }

  /** The shortest body may itself be `]`: `[[]]]` yields the token `]`. */
  lemma BracketBody()
    ensures Extract("[[]]]") == ["]"]
  {
    var s := "[[]]]";
    assert MatchAt(s, 0) == Some(3);
    assert Scan(s, 5) == [];
    assert Scan(s, 0) == [Span(0, 3)];
    assert s[2..3] == "]";
  }

  function TwoRefs(): string { "[[Beta]] and [[Beta]]" }

  lemma TwoRefsMatches()
    ensures MatchAt(TwoRefs(), 0) == Some(6)
    ensures MatchAt(TwoRefs(), 13) == Some(19)
  {
    FirstRef();
    var s := TwoRefs();
    assert FindClose(s, 19) == Some(19);
    assert FindClose(s, 18) == Some(19);
    assert FindClose(s, 17) == Some(19);
    assert FindClose(s, 16) == Some(19);
  }

  lemma TwoRefsScan()
    ensures Scan(TwoRefs(), 0) == [Span(0, 6), Span(13, 19)]
  {
    TwoRefsMatches();
    TwoRefsGap();
    TwoRefsTail();
  }

  lemma FirstRef()
    ensures MatchAt(TwoRefs(), 0) == Some(6)
  {
    var s := TwoRefs();
    assert FindClose(s, 6) == Some(6);
    assert FindClose(s, 5) == Some(6);
    assert FindClose(s, 4) == Some(6);
    assert FindClose(s, 3) == Some(6);
  }

  lemma TwoRefsTail()
    ensures Scan(TwoRefs(), 13) == [Span(13, 19)]
  {
    TwoRefsMatches();
    assert Scan(TwoRefs(), 21) == [];
  }

  /** No match starts in ` and `. */
  lemma TwoRefsGap()
    ensures Scan(TwoRefs(), 8) == Scan(TwoRefs(), 13)
  {
    var s := TwoRefs();
    assert s[8..13] == " and ";
    forall p | 8 <= p < 13 ensures s[p] != '[' {
      assert s[p] == s[8..13][p - 8];
    }
    ScanSkip(s, 8, 13);
  }

  /** Extraction of a text whose scan finds two matches. */
  lemma ExtractTwo(s: string)
    requires |Scan(s, 0)| == 2
    ensures var sp := Scan(s, 0);
            Extract(s) == [s[sp[0].open + 2 .. sp[0].close], s[sp[1].open + 2 .. sp[1].close]]
  {
  }

  /** A repeated reference yields the token twice, in order. */
  lemma RepeatedReference()
    ensures Extract("[[Beta]] and [[Beta]]") == ["Beta", "Beta"]
  {
    TwoRefsTokens();
    TwoRefsSlices();
  }

  lemma TwoRefsTokens()
    ensures Extract(TwoRefs()) == [TwoRefs()[2..6], TwoRefs()[15..19]]
  {
    TwoRefsScan();
    ExtractTwo(TwoRefs());
  }

  lemma TwoRefsSlices()
    ensures TwoRefs()[2..6] == "Beta" && TwoRefs()[15..19] == "Beta"
  {
  }

  function Alpha(): Entry { Entry("a", Node("a", "Alpha", "see [[Beta]]", [])) }
  function Beta(): Entry { Entry("b", Node("b", "Beta", "", [])) }

  /** Resolving A's content links A to B, once per reference; an unknown
      title resolves to nothing. */
  lemma ResolveExamples()
    ensures ResolveTokens([Alpha(), Beta()], ["Beta"]) == ["b"]
    ensures ResolveTokens([Alpha(), Beta()], ["Beta", "Beta"]) == ["b", "b"]
    ensures ResolveTokens([Alpha(), Beta()], ["Unknown Title"]) == []
  {
  }

  /** A reference to a title no note carries is extracted, then resolves to
      nothing. */
  lemma UnknownReference()
    ensures Extract("[[Unknown Title]]") == ["Unknown Title"]
    ensures ResolveTokens([Alpha(), Beta()], Extract("[[Unknown Title]]")) == []
  {
    UnknownExtract();
    ResolveExamples();
  }

  function UnknownText(): string { "[[Unknown Title]]" }

  lemma UnknownExtract()
    ensures Extract("[[Unknown Title]]") == ["Unknown Title"]
  {
    UnknownScan();
    ExtractOne(UnknownText());
    assert UnknownText()[2..15] == "Unknown Title";
  }

  lemma UnknownScan()
    ensures Scan(UnknownText(), 0) == [Span(0, 15)]
  {
    UnknownMatch();
    assert Scan(UnknownText(), 17) == [];
  }

  lemma UnknownMatch()
    ensures MatchAt(UnknownText(), 0) == Some(15)
  {
    var s := UnknownText();
    assert FindClose(s, 15) == Some(15);
    assert FindClose(s, 3) == Some(15);
  }

  /** Extraction of a text whose scan finds one match. */
  lemma ExtractOne(s: string)
    requires |Scan(s, 0)| == 1
    ensures Extract(s) == [s[Scan(s, 0)[0].open + 2 .. Scan(s, 0)[0].close]]
  {
  }

  /** Two notes with the same title both receive the reference. */
  lemma DuplicateTitles()
    ensures ResolveTokens([Entry("a", Node("a", "Beta", "", [])), Beta()], ["Beta"]) == ["a", "b"]
  {
  }

  function Linked(): Entry { Entry("a", Node("a", "Alpha", "see [[Beta]]", ["b"])) }

  lemma SeeBeta()
    ensures Extract("see [[Beta]]") == ["Beta"]
  {
    var s := "see [[Beta]]";
    SeeBetaMatch();
    forall p | 0 <= p < 4 ensures s[p] != '[' {
      assert s[..4] == "see ";
      assert s[p] == s[..4][p];
    }
    ScanSkip(s, 0, 4);
    assert Scan(s, 12) == [];
    assert Scan(s, 0) == [Span(4, 10)];
    assert s[6..10] == "Beta";
  }

  lemma SeeBetaMatch()
    ensures MatchAt("see [[Beta]]", 4) == Some(10)
  {
    var s := "see [[Beta]]";
    assert FindClose(s, 10) == Some(10);
    assert FindClose(s, 9) == Some(10);
    assert FindClose(s, 8) == Some(10);
    assert FindClose(s, 7) == Some(10);
  }

  /** Store A("Alpha", "see [[Beta]]"), B("Beta"): resolving A's content
      gives A the link list [B] and leaves B alone. */
  lemma ScenarioResolve()
    ensures UpdateLinks(Init([Alpha(), Beta()]), "a", "see [[Beta]]", NoFault).state.store == [Linked(), Beta()]
  {
    SeeBeta();
    ResolveExamples();
    ScenarioWrite();
    var app := Init([Alpha(), Beta()]);
    assert Get(app.store, "a") == Some(Alpha().node);
  }

  lemma ScenarioWrite()
    ensures Put([Alpha(), Beta()], "a", Linked().node) == [Linked(), Beta()]
  {
  }

  /** The rebuilt graph then has the single edge A -> B. */
  lemma ScenarioGraph()
    ensures CreateGraphFromDb([Linked(), Beta()]).graph.edges == [(0, 1)]
  {
    var st := [Linked(), Beta()];
    assert st[..1] == [Linked()];
    assert CreateNodes([Linked()]).1 == map["a" := 0];
    var nm := map["a" := 0, "b" := 1];
    assert CreateNodes(st).1 == nm;
    assert LinkEdges(0, ["b"], nm) == [(0, 1)];
    assert st[1..] == [Beta()];
    assert CreateEdges([Beta()], nm) == [];
    assert CreateEdges(st, nm) == [(0, 1)];
  }

  /** Deleting B empties A's links, and the rebuilt graph has no edge. */
  lemma ScenarioDelete(app: AppState)
    requires app.store == [Linked(), Beta()]
    ensures DeleteNode(app, "b", NoFault).state.store == [Alpha()]
    ensures Update(app.graph, DeleteNode(app, "b", NoFault).state.store, NoFault).0.graph.edges == []
  {
    assert Remove(app.store, "b") == [Linked()];
    assert Seqs.Without(["b"], "b") == [];
    assert CreateNodes([Alpha()]).1 == map["a" := 0];
    assert CreateEdges([Alpha()], map["a" := 0]) == [];
  }
}
