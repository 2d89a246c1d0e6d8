/** `BTreeMap<String, V>`, the map a dictionary visitor builds: its entries
    in strictly increasing key order, so that iterating it visits the keys
    sorted. */
module Dict {
  import opened Errors
  import opened Ordering

  /** One key and its value, as `BTreeMap::iter` yields them. */
  datatype Entry<V> = Entry(key: string, value: V)

  type Dict<V> = seq<Entry<V>>

  /** The keys strictly increase along the entries. */
  predicate Sorted<V>(m: Dict<V>) {
    forall i, j :: 0 <= i < j < |m| ==> StrLess(m[i].key, m[j].key)
  }

  function Keys<V>(m: Dict<V>): set<string> {
    set i | 0 <= i < |m| :: m[i].key
  }

  /** `BTreeMap::get`. */
  function Get<V>(m: Dict<V>, k: string): Option<V> {
    if |m| == 0 then None
    else if m[0].key == k then Some(m[0].value)
    else Get(m[1..], k)
  }

  /** `BTreeMap::insert`: the entry for `k` now holds `v`, replacing an
      earlier value; every other entry stays as it was. */
  function Insert<V>(m: Dict<V>, k: string, v: V): (r: Dict<V>)
    requires Sorted(m)
    ensures Sorted(r)
    ensures Get(r, k) == Some(v)
    ensures forall k' :: k' != k ==> Get(r, k') == Get(m, k')
    ensures Keys(r) == Keys(m) + {k}
    ensures forall i :: 0 <= i < |r| ==> r[i] == Entry(k, v) || r[i] in m
  {
    if |m| == 0 then [Entry(k, v)]
    else if m[0].key == k then
      HeadFirst(m, k, v);
      [Entry(k, v)] + m[1..]
    else if StrLess(k, m[0].key) then
      HeadFirst(m, k, v);
      [Entry(k, v)] + m
    else
      var rest := Insert(m[1..], k, v);
      StrTrichotomy(k, m[0].key);
      AfterHead(m, rest, k);
      [m[0]] + rest
  }

  /** The keys of a suffix of a sorted map. */
  lemma SuffixKeys<V>(m: Dict<V>)
    requires |m| > 0
    ensures Keys(m) == {m[0].key} + Keys(m[1..])
  {
    forall x | x in Keys(m)
      ensures x in {m[0].key} + Keys(m[1..])
    {
      var i :| 0 <= i < |m| && m[i].key == x;
      if i > 0 {
        assert m[1..][i - 1].key == x;
      }
    }
    forall x | x in Keys(m[1..])
      ensures x in Keys(m)
    {
      var i :| 0 <= i < |m[1..]| && m[1..][i].key == x;
      assert m[i + 1].key == x;
    }
  }

  /** Inserting in front of, or over, the first entry. */
  lemma HeadFirst<V>(m: Dict<V>, k: string, v: V)
    requires Sorted(m) && |m| > 0 && (k == m[0].key || StrLess(k, m[0].key))
    ensures var r := if k == m[0].key then [Entry(k, v)] + m[1..] else [Entry(k, v)] + m;
      Sorted(r) && Get(r, k) == Some(v) &&
      (forall k' :: k' != k ==> Get(r, k') == Get(m, k')) &&
      Keys(r) == Keys(m) + {k}
  {
    var r := if k == m[0].key then [Entry(k, v)] + m[1..] else [Entry(k, v)] + m;
    SuffixKeys(m);
    SuffixKeys(r);
    assert r[1..] == if k == m[0].key then m[1..] else m;
    forall i, j | 0 <= i < j < |r|
      ensures StrLess(r[i].key, r[j].key)
    {
      if i == 0 && k != m[0].key && j > 1 {
        StrLessTransitive(k, m[0].key, r[j].key);
      } else if i == 0 && k == m[0].key {
        assert r[j] == m[j];
      }
    }
    forall k' | k' != k
      ensures Get(r, k') == Get(m, k')
    {
      if k == m[0].key {
        assert Get(r, k') == Get(m[1..], k');
      } else {
        assert Get(r, k') == Get(m, k');
      }
    }
  }

  /** Inserting after the first entry keeps it first. */
  lemma AfterHead<V>(m: Dict<V>, rest: Dict<V>, k: string)
    requires Sorted(m) && |m| > 0 && StrLess(m[0].key, k)
    requires Sorted(rest) && Keys(rest) == Keys(m[1..]) + {k}
    ensures Sorted([m[0]] + rest)
    ensures Keys([m[0]] + rest) == Keys(m) + {k}
  {
    var r := [m[0]] + rest;
    SuffixKeys(m);
    SuffixKeys(r);
    assert r[1..] == rest;
    forall i, j | 0 <= i < j < |r|
      ensures StrLess(r[i].key, r[j].key)
    {
      if i == 0 {
        assert r[j].key == rest[j - 1].key && rest[j - 1].key in Keys(rest);
        if rest[j - 1].key != k {
          var t :| 1 <= t < |m| && m[t].key == rest[j - 1].key by {
            var u :| 0 <= u < |m[1..]| && m[1..][u].key == rest[j - 1].key;
            assert m[u + 1].key == rest[j - 1].key;
          }
        }
      } else {
        assert r[i] == rest[i - 1] && r[j] == rest[j - 1];
      }
    }
  }

  /** The map that inserting the entries `es` one after another into an
      empty map builds. */
  function FromEntries<V>(es: seq<Entry<V>>): (m: Dict<V>)
    ensures Sorted(m)
    decreases |es|
  {
    if |es| == 0 then []
    else
      var last := es[|es| - 1];
      Insert(FromEntries(es[..|es| - 1]), last.key, last.value)
  }

  /** Reading one more entry inserts it. */
  lemma FromEntriesSnoc<V>(es: seq<Entry<V>>, i: nat)
    requires i < |es|
    ensures FromEntries(es[..i + 1]) == Insert(FromEntries(es[..i]), es[i].key, es[i].value)
  {
    assert es[..i + 1][..i] == es[..i];
  }

  /** The map built from `es` is sorted, holds exactly the keys read, and
      for each the value read last. */
  lemma FromEntriesMeaning<V>(es: seq<Entry<V>>)
    ensures Sorted(FromEntries(es)) && Keys(FromEntries(es)) == KeysRead(es)
    ensures forall k :: Get(FromEntries(es), k) == LastValue(es, k)
  {
    FromEntriesKeys(es);
    forall k | true
      ensures Get(FromEntries(es), k) == LastValue(es, k)
    {
      FromEntriesLastWins(es, k);
    }
  }

  /** A property every value read has, every value in the map has. */
  lemma {:induction false} FromEntriesKeepsAll<V>(es: seq<Entry<V>>, P: V -> bool)
    requires forall i :: 0 <= i < |es| ==> P(es[i].value)
    ensures forall i :: 0 <= i < |FromEntries(es)| ==> P(FromEntries(es)[i].value)
    decreases |es|
  {
    if |es| > 0 {
      FromEntriesKeepsAll(es[..|es| - 1], P);
    }
  }

  /** The value of the last entry for `k` in `es`, if there is one. */
  function LastValue<V>(es: seq<Entry<V>>, k: string): Option<V>
    decreases |es|
  {
    if |es| == 0 then None
    else if es[|es| - 1].key == k then Some(es[|es| - 1].value)
    else LastValue(es[..|es| - 1], k)
  }

  /** The keys that occur in `es`. */
  function KeysRead<V>(es: seq<Entry<V>>): set<string> {
    set i | 0 <= i < |es| :: es[i].key
  }

  /** For a repeated key the last value read wins. */
  lemma {:induction false} FromEntriesLastWins<V>(es: seq<Entry<V>>, k: string)
    ensures Get(FromEntries(es), k) == LastValue(es, k)
    decreases |es|
  {
    if |es| > 0 {
      FromEntriesLastWins(es[..|es| - 1], k);
    }
  }

  /** Every key read, and no other, is in the map. */
  lemma {:induction false} FromEntriesKeys<V>(es: seq<Entry<V>>)
    ensures Keys(FromEntries(es)) == KeysRead(es)
    decreases |es|
  {
    if |es| > 0 {
      var init := es[..|es| - 1];
      FromEntriesKeys(init);
      assert KeysRead(es) == KeysRead(init) + {es[|es| - 1].key} by {
        forall x | x in KeysRead(es)
          ensures x in KeysRead(init) + {es[|es| - 1].key}
        {
          var i :| 0 <= i < |es| && es[i].key == x;
          if i < |es| - 1 {
            assert init[i].key == x;
          }
        }
        forall x | x in KeysRead(init)
          ensures x in KeysRead(es)
        {
          var i :| 0 <= i < |init| && init[i].key == x;
          assert es[i].key == x;
        }
      }
    }
  }
}
