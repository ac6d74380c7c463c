/**
 * An insertion-ordered dictionary with text keys, as a Python `dict` is: a sequence of
 * key/value entries whose keys are distinct. Assigning to an existing key
 * keeps its position, assigning to a new key appends it, and `del` removes
 * the entry and keeps the order of the others.
 */
module OrderedMap {
  import opened Wrappers

  type Entries<V> = seq<(string, V)>

  /** The keys in iteration order (`d.keys()`). */
  function Keys<V>(e: Entries<V>): (ks: seq<string>)
    ensures |ks| == |e| && forall i :: 0 <= i < |e| ==> ks[i] == e[i].0
  {
    seq(|e|, i requires 0 <= i < |e| => e[i].0)
  }

  predicate Distinct(ks: seq<string>) {
    forall i, j :: 0 <= i < j < |ks| ==> ks[i] != ks[j]
  }

  /** The entries form a dictionary: no key occurs twice. */
  predicate IsMap<V>(e: Entries<V>) {
    Distinct(Keys(e))
  }

  /** Where `k` first occurs in `ks`. */
  function IndexOf(ks: seq<string>, k: string): (i: nat)
    requires k in ks
    ensures i < |ks| && ks[i] == k
    ensures forall j :: 0 <= j < i ==> ks[j] != k
  {
    if ks[0] == k then 0 else 1 + IndexOf(ks[1..], k)
  }

  /** `d.get(k)`. */
  function Lookup<V>(e: Entries<V>, k: string): Option<V> {
    if k in Keys(e) then Some(e[IndexOf(Keys(e), k)].1) else None
  }

  /** In a dictionary every entry is what a lookup of its key finds. */
  lemma LookupAt<V>(e: Entries<V>, i: nat)
    requires IsMap(e) && i < |e|
    ensures Lookup(e, e[i].0) == Some(e[i].1)
  {
    assert Keys(e)[i] == e[i].0;
  }

  /** `d[k] = v`. */
  function Put<V>(e: Entries<V>, k: string, v: V): (r: Entries<V>)
    ensures Keys(r) == if k in Keys(e) then Keys(e) else Keys(e) + [k]
    ensures IsMap(e) ==> IsMap(r)
    ensures IsMap(e) ==> Lookup(r, k) == Some(v)
    ensures IsMap(e) ==> forall k' :: k' != k ==> Lookup(r, k') == Lookup(e, k')
  {
    if k in Keys(e) then
      var r := seq(|e|, i requires 0 <= i < |e| => if e[i].0 == k then (k, v) else e[i]);
      assert Keys(r) == Keys(e);
      assert IsMap(e) ==> Lookup(r, k) == Some(v) by {
        if IsMap(e) {
          LookupAt(r, IndexOf(Keys(e), k));
        }
      }
      assert IsMap(e) ==> forall k' :: k' != k ==> Lookup(r, k') == Lookup(e, k') by {
        if IsMap(e) {
          forall k' | k' != k ensures Lookup(r, k') == Lookup(e, k') {
            if k' in Keys(e) {
              var j := IndexOf(Keys(e), k');
              LookupAt(r, j);
              LookupAt(e, j);
            }
          }
        }
      }
      r
    else
      var r := e + [(k, v)];
      assert Keys(r) == Keys(e) + [k];
      assert IsMap(e) ==> Lookup(r, k) == Some(v) by {
        if IsMap(e) {
          LookupAt(r, |e|);
        }
      }
      assert IsMap(e) ==> forall k' :: k' != k ==> Lookup(r, k') == Lookup(e, k') by {
        if IsMap(e) {
          forall k' | k' != k ensures Lookup(r, k') == Lookup(e, k') {
            if k' in Keys(e) {
              var j := IndexOf(Keys(e), k');
              LookupAt(r, j);
              LookupAt(e, j);
            }
          }
        }
      }
      r
  }

  /** `del d[k]` when `k` is present; the entries are returned unchanged otherwise. */
  function Remove<V>(e: Entries<V>, k: string): (r: Entries<V>)
    ensures k !in Keys(e) ==> r == e
    ensures k in Keys(e) ==> |r| == |e| - 1
    ensures k in Keys(e) ==>
      var i := IndexOf(Keys(e), k); Keys(r) == Keys(e)[..i] + Keys(e)[i + 1..]
    ensures IsMap(e) ==> IsMap(r) && Lookup(r, k) == None
    ensures IsMap(e) ==> forall k' :: k' != k ==> Lookup(r, k') == Lookup(e, k')
  {
    if k in Keys(e) then
      var i := IndexOf(Keys(e), k);
      var r := e[..i] + e[i + 1..];
      assert Keys(r) == Keys(e)[..i] + Keys(e)[i + 1..];
      if IsMap(e) then
        RemoveAt(e, i);
        r
      else
        r
    else
      e
  }

  /** Cutting out the entry at `i` removes its key and keeps every other lookup. */
  lemma RemoveAt<V>(e: Entries<V>, i: nat)
    requires IsMap(e) && i < |e|
    ensures var r := e[..i] + e[i + 1..];
      && IsMap(r) && Lookup(r, e[i].0) == None
      && forall k' :: k' != e[i].0 ==> Lookup(r, k') == Lookup(e, k')
  {
    RemoveAtKeys(e, i);
    forall k' | k' != e[i].0 ensures Lookup(e[..i] + e[i + 1..], k') == Lookup(e, k') {
      RemoveAtLookup(e, i, k');
    }
  }

  /** After the cut, the entries before `i` keep their place and the later ones move down by one. */
  lemma RemoveAtKeys<V>(e: Entries<V>, i: nat)
    requires IsMap(e) && i < |e|
    ensures var r := e[..i] + e[i + 1..];
      && (forall j :: 0 <= j < |r| ==> r[j] == e[if j < i then j else j + 1])
      && IsMap(r) && e[i].0 !in Keys(r)
  {
    var r := e[..i] + e[i + 1..];
    assert forall j :: 0 <= j < |r| ==> r[j] == e[if j < i then j else j + 1];
    assert forall j :: 0 <= j < |r| ==> Keys(r)[j] == Keys(e)[if j < i then j else j + 1];
  }

  lemma RemoveAtLookup<V>(e: Entries<V>, i: nat, k': string)
    requires IsMap(e) && i < |e| && k' != e[i].0
    ensures Lookup(e[..i] + e[i + 1..], k') == Lookup(e, k')
  {
    var r := e[..i] + e[i + 1..];
    RemoveAtKeys(e, i);
    if k' in Keys(e) {
      var j := IndexOf(Keys(e), k');
      var j' := if j < i then j else j - 1;
      assert r[j'] == e[j];
      LookupAt(r, j');
      LookupAt(e, j);
    } else {
      assert k' !in Keys(r);
    }
  }

  /** Removing a key that was just appended gives back the entries before the append. */
  lemma RemoveAppended<V>(e: Entries<V>, k: string, v: V)
    requires k !in Keys(e)
    ensures Remove(e + [(k, v)], k) == e
  {
    var r := e + [(k, v)];
    assert Keys(r) == Keys(e) + [k];
    assert IndexOf(Keys(r), k) == |e|;
    assert r[..|e|] == e;
  }

  /** The keys of `ks` in order of first occurrence. */
  function Dedup(ks: seq<string>): (d: seq<string>)
    ensures Distinct(d)
    ensures forall k :: k in d <==> k in ks
  {
    if ks == [] then []
    else
      var d := Dedup(ks[..|ks| - 1]);
      assert forall k :: k in ks <==> k in ks[..|ks| - 1] || k == ks[|ks| - 1] by {
        assert ks == ks[..|ks| - 1] + [ks[|ks| - 1]];
      }
      if ks[|ks| - 1] in d then d else d + [ks[|ks| - 1]]
  }

  /** Removing repeats from a sequence without repeats changes nothing. */
  lemma {:induction false} DedupDistinct(ks: seq<string>)
    requires Distinct(ks)
    ensures Dedup(ks) == ks
  {
    if ks != [] {
      var init := ks[..|ks| - 1];
      DedupDistinct(init);
      assert ks[|ks| - 1] !in init;
      assert init + [ks[|ks| - 1]] == ks;
    }
  }

  /** The first element always survives: it is the first occurrence of itself. */
  lemma {:induction false} DedupFirst(ks: seq<string>)
    requires |ks| >= 1
    ensures |Dedup(ks)| >= 1 && Dedup(ks)[0] == ks[0]
  {
    if |ks| > 1 {
      DedupFirst(ks[..|ks| - 1]);
    }
  }

  /** Assigning the entries of `ps` into `e`, one after another, in order. */
  function PutAll<V>(e: Entries<V>, ps: Entries<V>): Entries<V> {
    if ps == [] then e
    else
      var last := ps[|ps| - 1];
      Put(PutAll(e, ps[..|ps| - 1]), last.0, last.1)
  }

  /** The value of the last entry of `ps` whose key is `k`. */
  function LastValue<V>(ps: Entries<V>, k: string): Option<V> {
    if ps == [] then None
    else if ps[|ps| - 1].0 == k then Some(ps[|ps| - 1].1)
    else LastValue(ps[..|ps| - 1], k)
  }

  /**
   * After a run of assignments the dictionary's keys are its old keys followed by
   * the new keys in order of first assignment; a reassigned key keeps its place.
   */
  lemma {:induction false} PutAllKeys<V>(e: Entries<V>, ps: Entries<V>)
    requires IsMap(e)
    ensures IsMap(PutAll(e, ps))
    ensures Keys(PutAll(e, ps)) == Dedup(Keys(e) + Keys(ps))
  {
    if ps == [] {
      assert Keys(e) + Keys(ps) == Keys(e);
      DedupDistinct(Keys(e));
    } else {
      PutAllKeys(e, ps[..|ps| - 1]);
      PutAllKeysLast(e, ps);
    }
  }

  /** The step of `PutAllKeys`: the last assignment extends the keys of the others. */
  lemma PutAllKeysLast<V>(e: Entries<V>, ps: Entries<V>)
    requires ps != []
    requires var acc := PutAll(e, ps[..|ps| - 1]);
      IsMap(acc) && Keys(acc) == Dedup(Keys(e) + Keys(ps[..|ps| - 1]))
    ensures IsMap(PutAll(e, ps)) && Keys(PutAll(e, ps)) == Dedup(Keys(e) + Keys(ps))
  {
    var init := ps[..|ps| - 1];
    var last := ps[|ps| - 1];
    assert Keys(e) + Keys(ps) == (Keys(e) + Keys(init)) + [last.0] by {
      assert ps == init + [last];
      KeysSnoc(init, last);
    }
    PutKeysStep(PutAll(e, init), Keys(e) + Keys(init), last.0, last.1);
  }

  /** One assignment extends the first-occurrence order of the keys by the assigned key. */
  lemma PutKeysStep<V>(acc: Entries<V>, ks: seq<string>, k: string, v: V)
    requires IsMap(acc) && Keys(acc) == Dedup(ks)
    ensures IsMap(Put(acc, k, v)) && Keys(Put(acc, k, v)) == Dedup(ks + [k])
  {
    DedupSnoc(ks, k);
  }

  lemma KeysSnoc<V>(e: Entries<V>, entry: (string, V))
    ensures Keys(e + [entry]) == Keys(e) + [entry.0]
  {
  }

  /** One more key is dropped when already seen, and appended otherwise. */
  lemma DedupSnoc(ks: seq<string>, k: string)
    ensures Dedup(ks + [k]) == if k in Dedup(ks) then Dedup(ks) else Dedup(ks) + [k]
  {
    var all := ks + [k];
    assert all[..|all| - 1] == ks;
  }

  /** After a run of assignments a key holds the last value assigned to it, or its old value. */
  lemma {:induction false} PutAllLookup<V>(e: Entries<V>, ps: Entries<V>, k: string)
    requires IsMap(e)
    ensures Lookup(PutAll(e, ps), k) == if LastValue(ps, k).Some? then LastValue(ps, k) else Lookup(e, k)
  {
    if ps != [] {
      var init := ps[..|ps| - 1];
      PutAllKeys(e, init);
      PutAllLookup(e, init, k);
    }
  }

  /** Every value stored in the entries belongs to `vs`. */
  ghost predicate ValuesIn<V>(e: Entries<V>, vs: set<V>) {
    forall i :: 0 <= i < |e| ==> e[i].1 in vs
  }

  /** Assigning values drawn from `vs` keeps every stored value in `vs`. */
  lemma {:induction false} PutAllValuesIn<V>(e: Entries<V>, ps: Entries<V>, vs: set<V>)
    requires ValuesIn(e, vs) && ValuesIn(ps, vs)
    ensures ValuesIn(PutAll(e, ps), vs)
  {
    if ps != [] {
      var init := ps[..|ps| - 1];
      var last := ps[|ps| - 1];
      PutAllValuesIn(e, init, vs);
      var acc := PutAll(e, init);
      var r := Put(acc, last.0, last.1);
      assert PutAll(e, ps) == r;
      forall i | 0 <= i < |r| ensures r[i].1 in vs {
        if i < |acc| {
          assert r[i] == acc[i] || r[i] == (last.0, last.1);
        }
      }
    }
  }

  /** The entries `entryOf` gives for `items`, when it gives one for each. */
  function EntriesOf<X, V, E>(items: seq<X>, entryOf: X -> Result<(string, V), E>): (ps: Entries<V>)
    requires forall i :: 0 <= i < |items| ==> entryOf(items[i]).Ok?
    ensures |ps| == |items|
  {
    seq(|items|, i requires 0 <= i < |items| => entryOf(items[i]).value)
  }

  /**
   * Turning each item into an entry and assigning it, stopping at the first item
   * that cannot be turned into one; `e` is the dictionary the run starts from.
   */
  function TryPutAll<X, V, E>(e: Entries<V>, items: seq<X>, entryOf: X -> Result<(string, V), E>): Result<Entries<V>, E> {
    if items == [] then Ok(e)
    else
      match TryPutAll(e, items[..|items| - 1], entryOf)
      case Err(err) => Err(err)
      case Ok(acc) =>
        match entryOf(items[|items| - 1])
        case Err(err) => Err(err)
        case Ok(kv) => Ok(Put(acc, kv.0, kv.1))
  }

  /** When every item gives an entry, the run is the assignment of all those entries. */
  lemma {:induction false} TryPutAllOk<X, V, E>(e: Entries<V>, items: seq<X>, entryOf: X -> Result<(string, V), E>)
    requires forall i :: 0 <= i < |items| ==> entryOf(items[i]).Ok?
    ensures TryPutAll(e, items, entryOf) == Ok(PutAll(e, EntriesOf(items, entryOf)))
  {
    if items != [] {
      var init := items[..|items| - 1];
      var ps := EntriesOf(items, entryOf);
      TryPutAllOk(e, init, entryOf);
      assert ps[..|ps| - 1] == EntriesOf(init, entryOf);
      assert entryOf(items[|items| - 1]) == Ok(ps[|ps| - 1]);
    }
  }

  /** Otherwise the run fails with the error of the first item that gives none. */
  lemma {:induction false} TryPutAllFirstError<X, V, E>(e: Entries<V>, items: seq<X>, entryOf: X -> Result<(string, V), E>, i: nat)
    requires i < |items| && entryOf(items[i]).Err?
    requires forall j :: 0 <= j < i ==> entryOf(items[j]).Ok?
    ensures TryPutAll(e, items, entryOf) == Err(entryOf(items[i]).error)
  {
    var init := items[..|items| - 1];
    if i == |items| - 1 {
      TryPutAllOk(e, init, entryOf);
    } else {
      TryPutAllFirstError(e, init, entryOf, i);
    }
  }

  /** A run that has failed on a prefix of the items fails the same way on all of them. */
  lemma {:induction false} TryPutAllErrPrefix<X, V, E>(e: Entries<V>, items: seq<X>, entryOf: X -> Result<(string, V), E>, n: nat)
    requires n <= |items| && TryPutAll(e, items[..n], entryOf).Err?
    ensures TryPutAll(e, items, entryOf) == TryPutAll(e, items[..n], entryOf)
  {
    if n < |items| {
      var init := items[..|items| - 1];
      assert init[..n] == items[..n];
      TryPutAllErrPrefix(e, init, entryOf, n);
    } else {
      assert items[..n] == items;
    }
  }

  /** One more item: the run so far with that item's entry assigned, or that item's error. */
  lemma TryPutAllNext<X, V, E>(e: Entries<V>, items: seq<X>, entryOf: X -> Result<(string, V), E>, n: nat)
    requires n < |items| && TryPutAll(e, items[..n], entryOf).Ok?
    ensures TryPutAll(e, items[..n + 1], entryOf)
         == match entryOf(items[n])
            case Err(err) => Err(err)
            case Ok(kv) => Ok(Put(TryPutAll(e, items[..n], entryOf).value, kv.0, kv.1))
  {
    assert items[..n + 1][..n] == items[..n];
  }

  /**
   * A failed run fails with the error of one of its items, and a successful run
   * from a dictionary gives a dictionary.
   */
  lemma {:induction false} TryPutAllOutcome<X, V, E>(e: Entries<V>, items: seq<X>, entryOf: X -> Result<(string, V), E>)
    ensures var r := TryPutAll(e, items, entryOf);
      r.Err? ==> exists i :: 0 <= i < |items| && entryOf(items[i]) == Err(r.error)
    ensures var r := TryPutAll(e, items, entryOf);
      IsMap(e) && r.Ok? ==> IsMap(r.value)
  {
    if items != [] {
      var init := items[..|items| - 1];
      TryPutAllOutcome(e, init, entryOf);
      var r := TryPutAll(e, items, entryOf);
      if TryPutAll(e, init, entryOf).Err? {
        var i :| 0 <= i < |init| && entryOf(init[i]) == Err(TryPutAll(e, init, entryOf).error);
        assert items[i] == init[i];
      } else if r.Err? {
        assert entryOf(items[|items| - 1]) == Err(r.error);
      }
    }
  }
}
