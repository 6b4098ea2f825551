/** The ordered key-value store the notes live in (a sled tree), as a
    sequence of entries whose keys strictly increase. Iteration visits the
    entries in sequence order; insertion puts a new key at its sorted place
    and overwrites the value of an existing key in place. */
module Store {
  import opened Results
  import opened Nodes
  import opened Seqs

  type Key = string

  datatype Entry = Entry(key: Key, node: Node)

  type Db = seq<Entry>

  /** Lexicographic order on keys, character by character; for UTF-8 keys
      this is the byte order the store iterates in. */
  predicate Less(a: Key, b: Key)
    decreases |a|
  {
    if |a| == 0 then |b| > 0
    else if |b| == 0 then false
    else if a[0] == b[0] then Less(a[1..], b[1..])
    else a[0] < b[0]
  }

  lemma {:induction false} LessIrreflexive(a: Key)
    ensures !Less(a, a)
    decreases |a|
  {
    if |a| > 0 {
      LessIrreflexive(a[1..]);
    }
  }

  lemma {:induction false} LessTransitive(a: Key, b: Key, c: Key)
    requires Less(a, b) && Less(b, c)
    ensures Less(a, c)
    decreases |a|
  {
    if |a| > 0 && a[0] == b[0] && b[0] == c[0] {
      LessTransitive(a[1..], b[1..], c[1..]);
    }
  }

  lemma {:induction false} LessTotal(a: Key, b: Key)
    requires a != b
    ensures Less(a, b) || Less(b, a)
    decreases |a|
  {
    if |a| > 0 && |b| > 0 && a[0] == b[0] {
      assert a == [a[0]] + a[1..];
      assert b == [b[0]] + b[1..];
      LessTotal(a[1..], b[1..]);
    }
  }

  lemma LessAsymmetric(a: Key, b: Key)
    requires Less(a, b)
    ensures !Less(b, a)
  {
    if Less(b, a) {
      LessTransitive(a, b, a);
      LessIrreflexive(a);
    }
  }

  /** The keys of the store in iteration order. */
  function Keys(st: Db): (ks: seq<Key>)
    ensures |ks| == |st|
    ensures forall i :: 0 <= i < |st| ==> ks[i] == st[i].key
  {
    if st == [] then [] else [st[0].key] + Keys(st[1..])
  }

  /** The keys of a non-empty store are those of all but its last entry,
      then the last entry's key. */
  lemma KeysSnoc(st: Db)
    requires st != []
    ensures Keys(st) == Keys(st[..|st| - 1]) + [st[|st| - 1].key]
  {
    var ks := Keys(st[..|st| - 1]) + [st[|st| - 1].key];
    assert |ks| == |Keys(st)|;
    forall i | 0 <= i < |ks| ensures ks[i] == Keys(st)[i] {
      if i < |st| - 1 {
        assert ks[i] == Keys(st[..|st| - 1])[i] == st[..|st| - 1][i].key;
      }
    }
  }

  predicate Increasing(ks: seq<Key>) {
    forall i, j :: 0 <= i < j < |ks| ==> Less(ks[i], ks[j])
  }

  /** The store invariant: keys strictly increase in iteration order. */
  predicate Sorted(st: Db) {
    Increasing(Keys(st))
  }

  predicate Distinct(st: Db) {
    forall i, j :: 0 <= i < j < |st| ==> st[i].key != st[j].key
  }

  lemma SortedDistinct(st: Db)
    requires Sorted(st)
    ensures Distinct(st)
  {
    forall i, j | 0 <= i < j < |st|
      ensures st[i].key != st[j].key
    {
      assert Less(Keys(st)[i], Keys(st)[j]);
      LessIrreflexive(st[i].key);
    }
  }

  lemma IncreasingCons(a: Key, w: seq<Key>)
    requires Increasing(w)
    requires forall y :: y in w ==> Less(a, y)
    ensures Increasing([a] + w)
  {
    var r := [a] + w;
    forall i, j | 0 <= i < j < |r|
      ensures Less(r[i], r[j])
    {
      assert r[j] == w[j - 1];
      if i > 0 {
        assert r[i] == w[i - 1];
      }
    }
  }

  lemma SortedTail(st: Db)
    requires Sorted(st) && st != []
    ensures Sorted(st[1..])
    ensures forall y :: y in Keys(st[1..]) ==> Less(st[0].key, y)
  {
    var ks := Keys(st);
    assert ks == [st[0].key] + Keys(st[1..]);
    forall y | y in Keys(st[1..])
      ensures Less(st[0].key, y)
    {
      var j :| 0 <= j < |Keys(st[1..])| && Keys(st[1..])[j] == y;
      assert ks[j + 1] == y;
    }
    forall i, j | 0 <= i < j < |Keys(st[1..])|
      ensures Less(Keys(st[1..])[i], Keys(st[1..])[j])
    {
      assert ks[i + 1] == Keys(st[1..])[i];
      assert ks[j + 1] == Keys(st[1..])[j];
    }
  }

  /** Position of the first entry with key `k`. */
  function IndexOf(st: Db, k: Key): (r: Option<nat>)
    ensures r.Some? ==> r.value < |st| && st[r.value].key == k
    ensures r.Some? ==> forall j :: 0 <= j < r.value ==> st[j].key != k
    ensures r.None? <==> k !in Keys(st)
  {
    if st == [] then None
    else if st[0].key == k then Some(0)
    else
      assert Keys(st) == [st[0].key] + Keys(st[1..]);
      match IndexOf(st[1..], k)
      case None => None
      case Some(i) => Some(i + 1)
  }

  /** `get`: the note stored under `k`, if any. */
  function Get(st: Db, k: Key): (r: Option<Node>)
    ensures r.Some? <==> k in Keys(st)
    ensures Distinct(st) ==> forall i :: 0 <= i < |st| && st[i].key == k ==> r == Some(st[i].node)
  {
    match IndexOf(st, k)
    case None => None
    case Some(i) => Some(st[i].node)
  }

  lemma GetCons(e: Entry, rest: Db)
    ensures forall k :: Get([e] + rest, k) == if e.key == k then Some(e.node) else Get(rest, k)
  {
    assert ([e] + rest)[0] == e;
    assert ([e] + rest)[1..] == rest;
  }

  /** `insert`: overwrite the value of an existing key in place, otherwise
      add the key at its place in key order. */
  function Put(st: Db, k: Key, n: Node): (r: Db)
    ensures forall k' :: k' in Keys(r) <==> k' in Keys(st) || k' == k
    ensures Get(r, k) == Some(n)
    ensures forall k' :: k' != k ==> Get(r, k') == Get(st, k')
  {
    if st == [] then
      GetCons(Entry(k, n), []);
      assert [Entry(k, n)] + [] == [Entry(k, n)];
      [Entry(k, n)]
    else
      assert Keys(st) == [st[0].key] + Keys(st[1..]);
      assert st == [st[0]] + st[1..];
      GetCons(st[0], st[1..]);
      if st[0].key == k then
        assert Keys([Entry(k, n)] + st[1..]) == [k] + Keys(st[1..]);
        GetCons(Entry(k, n), st[1..]);
        [Entry(k, n)] + st[1..]
      else if Less(k, st[0].key) then
        assert Keys([Entry(k, n)] + st) == [k] + Keys(st);
        GetCons(Entry(k, n), st);
        [Entry(k, n)] + st
      else
        var rest := Put(st[1..], k, n);
        assert Keys([st[0]] + rest) == [st[0].key] + Keys(rest);
        GetCons(st[0], rest);
        [st[0]] + rest
  }

  /** `remove`: drop the entry under `k`, if any. */
  function Remove(st: Db, k: Key): (r: Db)
    ensures Keys(r) == Without(Keys(st), k)
    ensures forall e :: e in r <==> e in st && e.key != k
  {
    if st == [] then []
    else
      assert Keys(st) == [st[0].key] + Keys(st[1..]);
      assert st == [st[0]] + st[1..];
      if st[0].key == k then Remove(st[1..], k)
      else
        var rest := Remove(st[1..], k);
        assert Keys([st[0]] + rest) == [st[0].key] + Keys(rest);
        [st[0]] + rest
  }

  lemma {:induction false} PutSorted(st: Db, k: Key, n: Node)
    requires Sorted(st)
    ensures Sorted(Put(st, k, n))
  {
    if st == [] {
    } else if st[0].key == k {
      assert Keys(Put(st, k, n)) == Keys(st);
    } else if Less(k, st[0].key) {
      SortedTail(st);
      assert Keys(st) == [st[0].key] + Keys(st[1..]);
      forall y | y in Keys(st)
        ensures Less(k, y)
      {
        if y != st[0].key {
          LessTransitive(k, st[0].key, y);
        }
      }
      assert Keys(Put(st, k, n)) == [k] + Keys(st);
      IncreasingCons(k, Keys(st));
    } else {
      LessTotal(k, st[0].key);
      SortedTail(st);
      PutSorted(st[1..], k, n);
      var rest := Put(st[1..], k, n);
      assert Keys(Put(st, k, n)) == [st[0].key] + Keys(rest);
      IncreasingCons(st[0].key, Keys(rest));
    }
  }

  /** Inserting under an existing key rewrites that entry in place. */
  lemma {:induction false} PutExisting(st: Db, k: Key, n: Node)
    requires Sorted(st)
    requires k in Keys(st)
    ensures IndexOf(st, k).Some?
    ensures Put(st, k, n) == st[IndexOf(st, k).value := Entry(k, n)]
  {
    if st[0].key != k {
      SortedTail(st);
      assert Keys(st) == [st[0].key] + Keys(st[1..]);
      assert k in Keys(st[1..]);
      LessAsymmetric(st[0].key, k);
      PutExisting(st[1..], k, n);
      var j := IndexOf(st[1..], k).value;
      assert IndexOf(st, k) == Some(j + 1);
      assert Put(st, k, n) == [st[0]] + st[1..][j := Entry(k, n)];
      ConsUpdate(st, j, Entry(k, n));
    } else {
      assert Put(st, k, n) == [Entry(k, n)] + st[1..];
      ConsUpdate(st, 0, Entry(k, n));
    }
  }

  lemma ConsUpdate(st: Db, j: nat, e: Entry)
    requires j < |st|
    ensures j + 1 < |st| ==> [st[0]] + st[1..][j := e] == st[j + 1 := e]
    ensures [e] + st[1..] == st[0 := e]
  {
    if j + 1 < |st| {
      var a := [st[0]] + st[1..][j := e];
      assert forall m :: 0 <= m < |a| ==> a[m] == st[j + 1 := e][m];
    }
    var b := [e] + st[1..];
    assert forall m :: 0 <= m < |b| ==> b[m] == st[0 := e][m];
  }

  /** Writing back the note a sorted store already holds changes nothing. */
  lemma PutUnchanged(st: Db, k: Key)
    requires Sorted(st)
    requires k in Keys(st)
    ensures Put(st, k, Get(st, k).value) == st
  {
    PutExisting(st, k, Get(st, k).value);
    var i := IndexOf(st, k).value;
    var same := st[i := Entry(k, Get(st, k).value)];
    assert forall j :: 0 <= j < |same| ==> same[j] == st[j];
  }

  lemma ShiftInsert(st: Db, j: nat, e: Entry)
    requires st != [] && j < |st|
    ensures [st[0]] + (st[1..][..j] + [e] + st[1..][j..]) == st[..j + 1] + [e] + st[j + 1..]
  {
    assert [st[0]] + st[1..][..j] == st[..j + 1];
    assert st[1..][j..] == st[j + 1..];
  }

  /** Inserting a fresh key adds exactly one entry, at position `i`, and
      shifts nothing else. */
  lemma {:induction false} PutFresh(st: Db, k: Key, n: Node) returns (i: nat)
    requires k !in Keys(st)
    ensures i <= |st|
    ensures Put(st, k, n) == st[..i] + [Entry(k, n)] + st[i..]
  {
    if st == [] {
      i := 0;
      assert Put(st, k, n) == [Entry(k, n)];
    } else {
      assert Keys(st)[0] == st[0].key;
      assert st[0].key != k;
      if Less(k, st[0].key) {
        i := 0;
        assert Put(st, k, n) == [Entry(k, n)] + st;
        assert st[..0] + [Entry(k, n)] + st[0..] == [Entry(k, n)] + st;
      } else {
        var t := st[1..];
        assert Keys(st) == [st[0].key] + Keys(t);
        assert k !in Keys(t);
        var j := PutFresh(t, k, n);
        i := j + 1;
        calc {
          Put(st, k, n);
          [st[0]] + Put(t, k, n);
          [st[0]] + (t[..j] + [Entry(k, n)] + t[j..]);
          { ShiftInsert(st, j, Entry(k, n)); }
          st[..i] + [Entry(k, n)] + st[i..];
        }
      }
    }
  }

  lemma {:induction false} WithoutIncreasing(ks: seq<Key>, x: Key)
    requires Increasing(ks)
    ensures Increasing(Without(ks, x))
  {
    if ks != [] {
      var t := ks[1..];
      assert Increasing(t) by {
        forall i, j | 0 <= i < j < |t| ensures Less(t[i], t[j]) {
          assert t[i] == ks[i + 1] && t[j] == ks[j + 1];
        }
      }
      WithoutIncreasing(t, x);
      if ks[0] != x {
        forall y | y in Without(t, x)
          ensures Less(ks[0], y)
        {
          var j :| 0 <= j < |t| && t[j] == y;
          assert ks[j + 1] == y;
        }
        IncreasingCons(ks[0], Without(t, x));
      }
    }
  }

  lemma RemoveSorted(st: Db, k: Key)
    requires Sorted(st)
    ensures Sorted(Remove(st, k))
  {
    WithoutIncreasing(Keys(st), k);
  }

  /** Removing `k` leaves every other key's note where lookup finds it. */
  lemma {:induction false} RemoveGet(st: Db, k: Key, x: Key)
    requires x != k
    ensures Get(Remove(st, k), x) == Get(st, x)
  {
    if st != [] {
      RemoveGet(st[1..], k, x);
      GetCons(st[0], st[1..]);
      assert st == [st[0]] + st[1..];
      if st[0].key != k {
        GetCons(st[0], Remove(st[1..], k));
      }
    }
  }

  /** Lookup positions depend only on the key sequence. */
  lemma {:induction false} IndexOfSameKeys(a: Db, b: Db, k: Key)
    requires Keys(a) == Keys(b)
    ensures IndexOf(a, k) == IndexOf(b, k)
  {
    if a != [] {
      assert Keys(a) == [a[0].key] + Keys(a[1..]);
      assert Keys(b) == [b[0].key] + Keys(b[1..]);
      assert Keys(a[1..]) == Keys(a)[1..] == Keys(b)[1..] == Keys(b[1..]);
      IndexOfSameKeys(a[1..], b[1..], k);
    }
  }
}
