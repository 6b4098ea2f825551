/** Link resolution inside `update_links` (src/app.rs): every extracted
    token is looked up by a full scan of the store, and the key of every note
    whose title equals the token is appended, in store order. */
module Resolve {
  import opened Store

  /** The inner scan for one token: keys of all notes titled `title`. */
  function KeysWithTitle(st: Db, title: string): (r: seq<Key>)
  {
    if st == [] then []
    else (if st[0].node.title == title then [st[0].key] else []) + KeysWithTitle(st[1..], title)
  }

  /** The outer loop over tokens, in encounter order. */
  function ResolveTokens(st: Db, tokens: seq<string>): (r: seq<Key>)
  {
    if tokens == [] then []
    else KeysWithTitle(st, tokens[0]) + ResolveTokens(st, tokens[1..])
  }

  /** The scan for one title finds exactly the keys of notes with that title. */
  lemma {:induction false} KeysWithTitleSpec(st: Db, title: string)
    ensures forall k :: k in KeysWithTitle(st, title) <==>
              exists i :: 0 <= i < |st| && st[i].key == k && st[i].node.title == title
  {
    if st != [] {
      KeysWithTitleSpec(st[1..], title);
      forall k | (exists i :: 0 <= i < |st| && st[i].key == k && st[i].node.title == title)
        ensures k in KeysWithTitle(st, title)
      {
        var i :| 0 <= i < |st| && st[i].key == k && st[i].node.title == title;
        if i > 0 {
          assert st[1..][i - 1] == st[i];
        }
      }
    }
  }

  /** In a sorted store the scan lists those keys in increasing order; with
      the membership fact above this determines the list completely. */
  lemma {:induction false} KeysWithTitleSorted(st: Db, title: string)
    requires Sorted(st)
    ensures Increasing(KeysWithTitle(st, title))
  {
    if st != [] {
      SortedTail(st);
      KeysWithTitleSorted(st[1..], title);
      var rest := KeysWithTitle(st[1..], title);
      if st[0].node.title == title {
        KeysWithTitleSpec(st[1..], title);
        forall y | y in rest
          ensures Less(st[0].key, y)
        {
          var i :| 0 <= i < |st[1..]| && st[1..][i].key == y && st[1..][i].node.title == title;
          assert Keys(st[1..])[i] == y;
        }
        IncreasingCons(st[0].key, rest);
      }
    }
  }

  /** With distinct keys, the scan for one title lists each note's key once
      if the note carries that title and not at all otherwise. */
  lemma {:induction false} KeysWithTitleCount(st: Db, title: string)
    requires Distinct(st)
    ensures forall i :: 0 <= i < |st| ==>
              multiset(KeysWithTitle(st, title))[st[i].key] == if st[i].node.title == title then 1 else 0
    ensures forall k :: k !in Keys(st) ==> multiset(KeysWithTitle(st, title))[k] == 0
  {
    if st != [] {
      var t := st[1..];
      assert Distinct(t) by {
        forall i, j | 0 <= i < j < |t| ensures t[i].key != t[j].key {
          assert t[i] == st[i + 1] && t[j] == st[j + 1];
        }
      }
      KeysWithTitleCount(t, title);
      KeysWithTitleSpec(t, title);
      assert Keys(st) == [st[0].key] + Keys(t);
      forall i | 0 <= i < |st|
        ensures multiset(KeysWithTitle(st, title))[st[i].key] == if st[i].node.title == title then 1 else 0
      {
        if i == 0 {
          assert st[0].key !in KeysWithTitle(t, title);
        } else {
          assert st[i] == t[i - 1];
        }
      }
      forall k | k !in Keys(st)
        ensures multiset(KeysWithTitle(st, title))[k] == 0
      {
        assert k !in Keys(t);
      }
    }
  }

  /** Every resolved id is the key of a note in the store. */
  lemma {:induction false} ResolveInStore(st: Db, tokens: seq<string>)
    ensures forall k :: k in ResolveTokens(st, tokens) ==> k in Keys(st)
  {
    if tokens != [] {
      ResolveInStore(st, tokens[1..]);
      KeysWithTitleSpec(st, tokens[0]);
      forall k | k in KeysWithTitle(st, tokens[0]) ensures k in Keys(st) {
        var i :| 0 <= i < |st| && st[i].key == k && st[i].node.title == tokens[0];
        assert Keys(st)[i] == k;
      }
    }
  }

  /** The key of a stored note appears in the resolved list once per token
      equal to its title: repeated references repeat the id, and tokens that
      name no note contribute nothing. Keys not in the store never appear. */
  lemma {:induction false} ResolveMultiplicity(st: Db, tokens: seq<string>)
    requires Distinct(st)
    ensures forall i :: 0 <= i < |st| ==>
              multiset(ResolveTokens(st, tokens))[st[i].key] == multiset(tokens)[st[i].node.title]
    ensures forall k :: k !in Keys(st) ==> multiset(ResolveTokens(st, tokens))[k] == 0
  {
    if tokens != [] {
      ResolveMultiplicity(st, tokens[1..]);
      KeysWithTitleCount(st, tokens[0]);
      assert tokens == [tokens[0]] + tokens[1..];
    }
  }

  /** Resolution works token by token: resolving a concatenation of token
      lists concatenates the results, so encounter order is kept. */
  lemma {:induction false} ResolveAppend(st: Db, a: seq<string>, b: seq<string>)
    ensures ResolveTokens(st, a + b) == ResolveTokens(st, a) + ResolveTokens(st, b)
  {
    if a == [] {
      assert a + b == b;
    } else {
      assert (a + b)[0] == a[0];
      assert (a + b)[1..] == a[1..] + b;
      ResolveAppend(st, a[1..], b);
    }
  }

  /** Two stores with the same keys and titles, entry by entry. */
  predicate SameTitles(a: Db, b: Db) {
    |a| == |b| && forall i :: 0 <= i < |a| ==> a[i].key == b[i].key && a[i].node.title == b[i].node.title
  }

  /** Resolution reads only keys and titles: rewriting links or content
      elsewhere in the store does not change what a token resolves to. */
  lemma {:induction false} ResolveReadsTitlesOnly(a: Db, b: Db, tokens: seq<string>)
    requires SameTitles(a, b)
    ensures ResolveTokens(a, tokens) == ResolveTokens(b, tokens)
  {
    if tokens != [] {
      KeysWithTitleSameTitles(a, b, tokens[0]);
      ResolveReadsTitlesOnly(a, b, tokens[1..]);
    }
  }

  lemma {:induction false} KeysWithTitleSameTitles(a: Db, b: Db, title: string)
    requires SameTitles(a, b)
    ensures KeysWithTitle(a, title) == KeysWithTitle(b, title)
  {
    if a != [] {
      assert SameTitles(a[1..], b[1..]) by {
        forall i | 0 <= i < |a[1..]|
          ensures a[1..][i].key == b[1..][i].key && a[1..][i].node.title == b[1..][i].node.title
        {
          assert a[1..][i] == a[i + 1] && b[1..][i] == b[i + 1];
        }
      }
      KeysWithTitleSameTitles(a[1..], b[1..], title);
    }
  }
}
