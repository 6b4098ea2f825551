/** Reference-token extraction: the matches of the pattern `\[\[(.+?)]]`
    over a note's content, as found one after another by a leftmost-first
    regex search. A token is the text of the capture group. `.` matches any
    character except a line feed, and `+?` takes as few characters as
    possible (at least one). */
module Tokens {
  import opened Results

  /** One match: `[[` starts at `open`, `]]` starts at `close`; the token is
      the text strictly between them. */
  datatype Span = Span(open: nat, close: nat)

  /** `s[p..j+2]` matches the pattern, with body `s[p+2..j]`. */
  ghost predicate IsMatch(s: string, p: nat, j: nat) {
    && p + 2 < j
    && j + 2 <= |s|
    && s[p] == '[' && s[p + 1] == '['
    && s[j] == ']' && s[j + 1] == ']'
    && forall k :: p + 2 <= k < j ==> s[k] != '\n'
  }

  /** The match at `p` that the lazy body selects: no shorter body works. */
  ghost predicate IsShortestMatch(s: string, p: nat, j: nat) {
    IsMatch(s, p, j) && forall j' :: p + 2 < j' < j ==> !IsMatch(s, p, j')
  }

  ghost predicate MatchesAt(s: string, p: nat) {
    exists j :: IsMatch(s, p, j)
  }

  ghost predicate NoMatchIn(s: string, lo: nat, hi: nat) {
    forall q :: lo <= q < hi ==> !MatchesAt(s, q)
  }

  /** Lazy search for the closing `]]`: candidate body end `j`, the body
      `s[..j]` read so far holding no line feed. */
  function FindClose(s: string, j: nat): (r: Option<nat>)
    ensures r.Some? ==> j <= r.value && r.value + 2 <= |s|
    decreases |s| - j
  {
    if j + 2 > |s| then None
    else if s[j] == ']' && s[j + 1] == ']' then Some(j)
    else if s[j] == '\n' then None
    else FindClose(s, j + 1)
  }

  /** Try the pattern at position `p`; the result is where `]]` starts. */
  function MatchAt(s: string, p: nat): (r: Option<nat>)
    ensures r.Some? ==> p + 3 <= r.value && r.value + 2 <= |s|
  {
    if p + 3 <= |s| && s[p] == '[' && s[p + 1] == '[' && s[p + 2] != '\n' then
      FindClose(s, p + 3)
    else None
  }

  /** All matches from position `p` on, leftmost first, each search resuming
      right after the previous match. */
  function Scan(s: string, p: nat): (r: seq<Span>)
    ensures forall i :: 0 <= i < |r| ==> p <= r[i].open && r[i].open + 2 < r[i].close && r[i].close + 2 <= |s|
    ensures forall i :: 0 < i < |r| ==> r[i - 1].close + 2 <= r[i].open
    decreases |s| - p
  {
    if p >= |s| then []
    else match MatchAt(s, p)
      case Some(j) =>
        var rest := Scan(s, j + 2);
        assert forall i :: 0 < i < |[Span(p, j)] + rest| ==> ([Span(p, j)] + rest)[i] == rest[i - 1];
        [Span(p, j)] + rest
      case None => Scan(s, p + 1)
  }

  /** A stretch without `[` holds no match start: the search skips it. */
  lemma {:induction false} ScanSkip(s: string, lo: nat, hi: nat)
    requires lo <= hi <= |s|
    requires forall p :: lo <= p < hi ==> s[p] != '['
    ensures Scan(s, lo) == Scan(s, hi)
    decreases hi - lo
  {
    if lo < hi {
      assert MatchAt(s, lo) == None;
      ScanSkip(s, lo + 1, hi);
    }
  }

  /** `captures_iter` over the content, keeping capture group 1 of each match. */
  function Extract(s: string): (tokens: seq<string>)
  {
    var spans := Scan(s, 0);
    seq(|spans|, i requires 0 <= i < |spans| => s[spans[i].open + 2 .. spans[i].close])
  }

  lemma {:induction false} FindCloseShortest(s: string, p: nat, j: nat)
    requires p + 2 < j <= |s|
    requires s[p] == '[' && s[p + 1] == '['
    requires forall k :: p + 2 <= k < j ==> s[k] != '\n'
    requires forall j' :: p + 2 < j' < j ==> !IsMatch(s, p, j')
    ensures FindClose(s, j).Some? ==> IsShortestMatch(s, p, FindClose(s, j).value)
    ensures FindClose(s, j).None? ==> !MatchesAt(s, p)
    decreases |s| - j
  {
    if j + 2 > |s| {
      assert forall j' :: !IsMatch(s, p, j');
    } else if s[j] == ']' && s[j + 1] == ']' {
      assert IsMatch(s, p, j);
    } else if s[j] == '\n' {
      assert forall j': nat :: IsMatch(s, p, j') ==> j' < j || s[j] != '\n';
    } else {
      assert !IsMatch(s, p, j);
      FindCloseShortest(s, p, j + 1);
    }
  }

  /** The scanner's step agrees with the pattern: it finds the shortest match
      at `p` exactly when one exists. */
  lemma MatchAtSpec(s: string, p: nat)
    ensures forall j: nat :: MatchAt(s, p) == Some(j) <==> IsShortestMatch(s, p, j)
    ensures MatchAt(s, p).None? <==> !MatchesAt(s, p)
  {
    if p + 3 <= |s| && s[p] == '[' && s[p + 1] == '[' && s[p + 2] != '\n' {
      FindCloseShortest(s, p, p + 3);
    }
    forall j: nat | IsShortestMatch(s, p, j)
      ensures MatchAt(s, p) == Some(j)
    {
      assert MatchesAt(s, p);
    }
  }

  /** The declarative reading of the search: `spans` are the successive
      leftmost shortest matches from `from` on, and no match starts in the
      gaps between them. */
  ghost predicate Leftmost(s: string, from: nat, spans: seq<Span>)
    decreases |spans|
  {
    if spans == [] then NoMatchIn(s, from, |s|)
    else
      && from <= spans[0].open
      && NoMatchIn(s, from, spans[0].open)
      && IsShortestMatch(s, spans[0].open, spans[0].close)
      && Leftmost(s, spans[0].close + 2, spans[1..])
  }

  lemma LeftmostWiden(s: string, p: nat, spans: seq<Span>)
    requires !MatchesAt(s, p)
    requires Leftmost(s, p + 1, spans)
    ensures Leftmost(s, p, spans)
  {
  }

  lemma {:induction false} ScanIsLeftmost(s: string, p: nat)
    ensures Leftmost(s, p, Scan(s, p))
    decreases |s| - p
  {
    MatchAtSpec(s, p);
    if p < |s| {
      match MatchAt(s, p)
      case Some(j) =>
        ScanIsLeftmost(s, j + 2);
        assert ([Span(p, j)] + Scan(s, j + 2))[1..] == Scan(s, j + 2);
      case None =>
        ScanIsLeftmost(s, p + 1);
        LeftmostWiden(s, p, Scan(s, p + 1));
    }
  }

  lemma {:induction false} LeftmostUnique(s: string, from: nat, a: seq<Span>, b: seq<Span>)
    requires Leftmost(s, from, a) && Leftmost(s, from, b)
    ensures a == b
    decreases |a|
  {
    if a == [] && b != [] {
      assert IsMatch(s, b[0].open, b[0].close);
      assert MatchesAt(s, b[0].open);
      assert false;
    } else if a != [] && b == [] {
      assert IsMatch(s, a[0].open, a[0].close);
      assert MatchesAt(s, a[0].open);
      assert false;
    } else if a != [] {
      assert IsMatch(s, a[0].open, a[0].close);
      assert IsMatch(s, b[0].open, b[0].close);
      assert MatchesAt(s, a[0].open) && MatchesAt(s, b[0].open);
      assert a[0].open == b[0].open;
      assert a[0].close == b[0].close;
      LeftmostUnique(s, a[0].close + 2, a[1..], b[1..]);
      assert a == [a[0]] + a[1..];
      assert b == [b[0]] + b[1..];
    }
  }

  /** Extraction reads exactly the successive leftmost, non-overlapping,
      shortest matches, in order: no other sequence of spans has that
      property. */
  lemma ExtractSpans(s: string)
    ensures Leftmost(s, 0, Scan(s, 0))
    ensures forall spans :: Leftmost(s, 0, spans) ==> spans == Scan(s, 0)
  {
    ScanIsLeftmost(s, 0);
    forall spans | Leftmost(s, 0, spans)
      ensures spans == Scan(s, 0)
    {
      LeftmostUnique(s, 0, spans, Scan(s, 0));
    }
  }

  /** Each extracted token is the non-empty, line-feed-free text that sits
      between `[[` and `]]` at its span. */
  lemma ExtractTokens(s: string)
    ensures |Extract(s)| == |Scan(s, 0)|
    ensures forall i :: 0 <= i < |Extract(s)| ==>
              && s[Scan(s, 0)[i].open .. Scan(s, 0)[i].close + 2] == "[[" + Extract(s)[i] + "]]"
              && |Extract(s)[i]| >= 1
              && '\n' !in Extract(s)[i]
  {
    ScanIsLeftmost(s, 0);
    forall i | 0 <= i < |Extract(s)|
      ensures && s[Scan(s, 0)[i].open .. Scan(s, 0)[i].close + 2] == "[[" + Extract(s)[i] + "]]"
              && |Extract(s)[i]| >= 1
              && '\n' !in Extract(s)[i]
    {
      TokenAt(s, Scan(s, 0), i);
    }
  }

  lemma TokenAt(s: string, sps: seq<Span>, i: nat)
    requires Leftmost(s, 0, sps)
    requires sps == Scan(s, 0)
    requires i < |sps|
    ensures && s[sps[i].open .. sps[i].close + 2] == "[[" + Extract(s)[i] + "]]"
            && |Extract(s)[i]| >= 1
            && '\n' !in Extract(s)[i]
  {
    SpanInLeftmost(s, 0, sps, i);
    MatchText(s, sps[i].open, sps[i].close);
  }

  /** The text of a match is `[[`, a non-empty body free of line feeds, and
      `]]`. */
  lemma MatchText(s: string, p: nat, j: nat)
    requires IsMatch(s, p, j)
    ensures && s[p .. j + 2] == "[[" + s[p + 2 .. j] + "]]"
            && |s[p + 2 .. j]| >= 1
            && '\n' !in s[p + 2 .. j]
  {
    var t := s[p + 2 .. j];
    assert s[p .. j + 2] == s[p .. p + 2] + t + s[j .. j + 2];
    assert s[p .. p + 2] == "[[";
    assert s[j .. j + 2] == "]]";
    forall c | 0 <= c < |t| ensures t[c] != '\n' {
      assert t[c] == s[p + 2 + c];
    }
  }

  lemma {:induction false} SpanInLeftmost(s: string, from: nat, spans: seq<Span>, i: nat)
    requires Leftmost(s, from, spans)
    requires i < |spans|
    ensures IsShortestMatch(s, spans[i].open, spans[i].close)
    decreases i
  {
    if i > 0 {
      SpanInLeftmost(s, spans[0].close + 2, spans[1..], i - 1);
    }
  }
}
