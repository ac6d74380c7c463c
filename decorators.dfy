/**
 * Two of the command decorators: the confirmation gate in front of dangerous
 * commands, with the user's answer passed in, and the get-or-compute memo
 * table made by `create_cacher`.
 */
module Decorators {
  import opened Wrappers
  import opened Text

  // ----- confirm_action -----

  /** The answer, stripped and lower-cased, is `y`. */
  predicate Confirmed(answer: string) {
    Lower(Strip(answer)) == "y"
  }

  /** Runs the guarded command only on a confirming answer; `None` stands for the cancelled call. */
  function ConfirmAction<T>(answer: string, action: () -> T): (r: Option<T>)
    ensures r.Some? <==> Confirmed(answer)
    ensures r.Some? ==> r.value == action()
  {
    if Confirmed(answer) then Some(action()) else None
  }

  /** An answer confirms exactly when, once stripped, it is a lone `y` or `Y`. */
  lemma ConfirmedIff(answer: string)
    ensures Confirmed(answer) <==> Strip(answer) == "y" || Strip(answer) == "Y"
  {
    var t := Strip(answer);
    if Lower(t) == "y" {
      assert |t| == 1 && LowerChar(t[0]) == 'y';
      assert t == [t[0]];
    }
    if t == "Y" {
      assert Lower(t)[0] == 'y';
    }
    if t == "y" {
      assert Lower(t)[0] == 'y';
    }
  }

  /** A `y` or `Y` surrounded by whitespace runs the command and returns its result. */
  lemma ConfirmPadded<T>(pre: string, c: char, post: string, action: () -> T)
    requires AllSpace(pre) && AllSpace(post) && (c == 'y' || c == 'Y')
    ensures ConfirmAction(pre + [c] + post, action) == Some(action())
  {
    assert Unpadded([c]);
    StripPadded(pre, [c], post);
    ConfirmedIff(pre + [c] + post);
  }

  /** Any other answer, `yes` and the empty answer among them, cancels the command. */
  lemma ConfirmRefused<T>(answer: string, action: () -> T)
    requires Strip(answer) != "y" && Strip(answer) != "Y"
    ensures ConfirmAction(answer, action) == None
  {
    ConfirmedIff(answer);
  }

  // ----- create_cacher / cache_result -----

  /** The outcome of one lookup: the answer, whether the value function ran, and the cache after it. */
  datatype Served<V> = Served(answer: V, computed: bool, cache: map<string, V>)

  /** One `cache_result` call against a cache. */
  function Serve<V>(cache: map<string, V>, key: string, valueFunc: () -> V): (s: Served<V>)
    ensures key in s.cache && s.cache[key] == s.answer
    ensures s.computed <==> key !in cache
    ensures s.computed ==> s.answer == valueFunc()
    ensures !s.computed ==> s.answer == cache[key] && s.cache == cache
    ensures forall k :: k in cache ==> k in s.cache && s.cache[k] == cache[k]
    ensures forall k :: k != key ==> (k in s.cache <==> k in cache)
  {
    if key in cache then Served(cache[key], false, cache)
    else
      var v := valueFunc();
      Served(v, true, cache[key := v])
  }

  /** The memo table one `create_cacher` call closes over. */
  class Cacher<V> {
    var cache: map<string, V>

    constructor()
      ensures cache == map[]
    {
      cache := map[];
    }

    /** `cache_result`: the stored value for `key`, or the value function's result, stored first. */
    method CacheResult(key: string, valueFunc: () -> V) returns (result: V, computed: bool)
      modifies this
      ensures Served(result, computed, cache) == Serve(old(cache), key, valueFunc)
    {
      if key in cache {
        return cache[key], false;
      }
      result := valueFunc();
      cache := cache[key := result];
      computed := true;
    }
  }

  /** A run of calls, each a key and its value function, and the answers they get. */
  function ServeAll<V>(cache: map<string, V>, calls: seq<(string, () -> V)>): (r: (seq<V>, map<string, V>))
    ensures |r.0| == |calls|
    decreases |calls|
  {
    if calls == [] then ([], cache)
    else
      var s := Serve(cache, calls[0].0, calls[0].1);
      var rest := ServeAll(s.cache, calls[1..]);
      ([s.answer] + rest.0, rest.1)
  }

  /** The value computed by the first call for `k`, if any call asks for it. */
  function FirstComputed<V>(calls: seq<(string, () -> V)>, k: string): Option<V> {
    if calls == [] then None
    else if calls[0].0 == k then Some(calls[0].1())
    else FirstComputed(calls[1..], k)
  }

  /** What a cache that has seen `calls` holds for `k`: its earlier value, or the first one computed. */
  function Remembered<V>(cache: map<string, V>, calls: seq<(string, () -> V)>, k: string): Option<V> {
    if k in cache then Some(cache[k]) else FirstComputed(calls, k)
  }

  /** `d.get(k)`. */
  function Get<V>(cache: map<string, V>, k: string): Option<V> {
    if k in cache then Some(cache[k]) else None
  }

  /** After a run of calls the cache holds, for every key, its earlier value or the first value computed for it. */
  lemma {:induction false} ServeAllCache<V>(cache: map<string, V>, calls: seq<(string, () -> V)>, k: string)
    ensures Get(ServeAll(cache, calls).1, k) == Remembered(cache, calls, k)
    decreases |calls|
  {
    if calls != [] {
      var s := Serve(cache, calls[0].0, calls[0].1);
      ServeAllCache(s.cache, calls[1..], k);
    }
  }

  /** Each call is answered with its key's earlier value, or the value computed by the first call for that key. */
  lemma {:induction false} ServeAllAnswers<V>(cache: map<string, V>, calls: seq<(string, () -> V)>, i: nat)
    requires i < |calls|
    ensures Some(ServeAll(cache, calls).0[i]) == Remembered(cache, calls[..i + 1], calls[i].0)
    decreases i
  {
    var s := Serve(cache, calls[0].0, calls[0].1);
    if i > 0 {
      ServeAllAnswers(s.cache, calls[1..], i - 1);
      assert calls[..i + 1][1..] == calls[1..][..i];
    }
  }

  /** Once a first call for `k` appears in a prefix, longer prefixes agree on it. */
  lemma {:induction false} FirstComputedPrefix<V>(calls: seq<(string, () -> V)>, n: nat, k: string)
    requires n <= |calls| && FirstComputed(calls[..n], k).Some?
    ensures FirstComputed(calls, k) == FirstComputed(calls[..n], k)
  {
    if calls[0].0 != k {
      assert calls[..n][1..] == calls[1..][..n - 1];
      FirstComputedPrefix(calls[1..], n - 1, k);
    }
  }

  /** A prefix that ends with a call for `k` has a first call for `k`. */
  lemma {:induction false} FirstComputedReached<V>(calls: seq<(string, () -> V)>, k: string)
    requires |calls| >= 1 && calls[|calls| - 1].0 == k
    ensures FirstComputed(calls, k).Some?
  {
    if calls[0].0 != k {
      FirstComputedReached(calls[1..], k);
    }
  }

  /** A stored value never changes: two calls for the same key get the same answer. */
  lemma ServeAllConsistent<V>(cache: map<string, V>, calls: seq<(string, () -> V)>, i: nat, j: nat)
    requires i < j < |calls| && calls[i].0 == calls[j].0
    ensures ServeAll(cache, calls).0[i] == ServeAll(cache, calls).0[j]
  {
    var k := calls[i].0;
    ServeAllAnswers(cache, calls, i);
    ServeAllAnswers(cache, calls, j);
    if k !in cache {
      FirstComputedReached(calls[..i + 1], k);
      assert calls[..j + 1][..i + 1] == calls[..i + 1];
      FirstComputedPrefix(calls[..j + 1], i + 1, k);
    }
  }
}
