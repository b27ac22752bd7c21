/** The memoizing cache of hcv_genotyper/cache.py.

    A `HomogeneousCache` maps the digest of a call's stringified arguments to
    the value the computing function returned for them. Entries are written
    once, on a miss, and never changed or removed. The digest (MD5 in the
    source) is kept abstract: it is the `digest` function the cache is opened
    with, applied to the concatenation of the arguments. The arguments are
    modelled already stringified, as a `seq<string>`. */
module Cache {
  import opened Wrappers

  /** All arguments run together, with no separator between them: the bytes
      `hash_args` feeds into one digest. */
  function Concat(args: seq<string>): (s: string)
  {
    if args == [] then "" else Concat(args[..|args| - 1]) + args[|args| - 1]
  }

  /** Concatenation of a split argument list is the concatenation of the parts. */
  lemma {:induction false} ConcatAppend(a: seq<string>, b: seq<string>)
    ensures Concat(a + b) == Concat(a) + Concat(b)
    decreases |b|
  {
    if b == [] {
      assert a + b == a;
    } else {
      var b' := b[..|b| - 1];
      assert (a + b)[..|a + b| - 1] == a + b';
      ConcatAppend(a, b');
    }
  }

  /** The key under which a call with `args` is stored. */
  function ArgsKey(digest: string -> string, args: seq<string>): string
  {
    digest(Concat(args))
  }

  /** `hash_args`: feeds every argument, in order, into one running digest
      and returns the final digest. */
  method HashArgs(digest: string -> string, args: seq<string>) returns (key: string)
    ensures key == digest(Concat(args))
  {
    var fed := "";
    for i := 0 to |args|
      invariant fed == Concat(args[..i])
    {
      assert args[..i + 1][..i] == args[..i];
      fed := fed + args[i];
    }
    assert args[..|args|] == args;
    key := digest(fed);
  }

  /** Argument lists with the same concatenation get the same key, whatever
      the digest: ("ab", "c") and ("a", "bc") collide. */
  lemma SplitArgumentsCollide(digest: string -> string)
    ensures ArgsKey(digest, ["ab", "c"]) == ArgsKey(digest, ["a", "bc"])
  {
    assert ["ab", "c"][..1] == ["ab"] && ["a", "bc"][..1] == ["a"];
    assert ["ab"][..0] == [] && ["a"][..0] == [];
    assert Concat(["ab", "c"]) == "abc" == Concat(["a", "bc"]);
  }

  /** One invocation of a computing function: the arguments, the key they
      hash to, and whether its value was stored (false when it raised). */
  datatype Invocation = Invocation(args: seq<string>, key: string, stored: bool)

  /** The keys of the calls whose value was stored. */
  ghost function StoredKeys(calls: seq<Invocation>): set<string>
  {
    set i | 0 <= i < |calls| && calls[i].stored :: calls[i].key
  }

  lemma StoredKeysAppend(calls: seq<Invocation>, c: Invocation)
    ensures StoredKeys(calls + [c]) == StoredKeys(calls) + (if c.stored then {c.key} else {})
  {
    var calls' := calls + [c];
    forall k | k in StoredKeys(calls')
      ensures k in StoredKeys(calls) + (if c.stored then {c.key} else {})
    {
      var i :| 0 <= i < |calls'| && calls'[i].stored && calls'[i].key == k;
      if i < |calls| {
        assert calls[i] == calls'[i];
      }
    }
    forall k | k in StoredKeys(calls)
      ensures k in StoredKeys(calls')
    {
      var i :| 0 <= i < |calls| && calls[i].stored && calls[i].key == k;
      assert calls'[i] == calls[i];
    }
    if c.stored {
      assert calls'[|calls|] == c;
    }
  }

  /** `after` keeps every entry of `before` unchanged. */
  ghost predicate Extends<V>(before: map<string, V>, after: map<string, V>)
  {
    forall k | k in before :: k in after && after[k] == before[k]
  }

  /** What one `get(args, fn)` does, for key `key == hash_args(args)`: on a
      hit it returns the stored value and calls nothing; on a miss it calls
      `fn(args)` once, stores a returned value under `key` (a raised error
      propagates and stores nothing) and returns it. */
  ghost predicate Memoizes<V, E>(key: string, args: seq<string>, fn: seq<string> -> Result<V, E>,
                                 before: map<string, V>, after: map<string, V>,
                                 callsBefore: seq<Invocation>, callsAfter: seq<Invocation>, r: Result<V, E>)
  {
    if key in before then
      r == Ok(before[key]) && after == before && callsAfter == callsBefore
    else
      && r == fn(args)
      && callsAfter == callsBefore + [Invocation(args, key, r.Ok?)]
      && after == (if r.Ok? then before[key := r.value] else before)
  }

  /** For a run of calls with keys `keys` whose computations would give
      `results`: `k` is one of the keys, and `v` is what the first call with
      that key computes. */
  ghost predicate FirstWithKey<V, E>(keys: seq<string>, results: seq<Result<V, E>>, k: string, v: V)
  {
    exists j | 0 <= j < |keys| && j < |results| ::
      && keys[j] == k
      && results[j] == Ok(v)
      && forall i | 0 <= i < j :: keys[i] != k
  }

  /** Every key in `after` that is not in `before` holds what the first call
      of the run with that key computes. */
  ghost predicate FirstReached<V, E>(keys: seq<string>, results: seq<Result<V, E>>,
                                     before: map<string, V>, after: map<string, V>)
  {
    forall k | k in after && k !in before :: FirstWithKey(keys, results, k, after[k])
  }

  lemma FirstWithKeyAppend<V, E>(keys: seq<string>, results: seq<Result<V, E>>, k': string, r': Result<V, E>,
                                 k: string, v: V)
    requires FirstWithKey(keys, results, k, v)
    ensures FirstWithKey(keys + [k'], results + [r'], k, v)
  {
    var j :| 0 <= j < |keys| && j < |results| && keys[j] == k && results[j] == Ok(v)
             && forall i | 0 <= i < j :: keys[i] != k;
    assert (keys + [k'])[j] == k && (results + [r'])[j] == Ok(v);
    forall i | 0 <= i < j ensures (keys + [k'])[i] != k {
      assert (keys + [k'])[i] == keys[i];
    }
  }

  /** A call whose key no earlier call has is the first with it. */
  lemma FirstWithKeyNew<V, E>(keys: seq<string>, results: seq<Result<V, E>>, k: string, v: V)
    requires |keys| == |results| && k !in keys
    ensures FirstWithKey(keys + [k], results + [Ok(v)], k, v)
  {
    var j := |keys|;
    assert (keys + [k])[j] == k && (results + [Ok(v)])[j] == Ok(v);
    forall i | 0 <= i < j ensures (keys + [k])[i] != k {
      assert (keys + [k])[i] == keys[i];
    }
  }

  /** One more call with key `k`, computing `r` on a miss and taking the
      store from `mid` to `after`, extends the fact to the longer run. */
  lemma FirstReachedStep<V, E>(keys: seq<string>, results: seq<Result<V, E>>, k: string, r: Result<V, E>,
                               before: map<string, V>, mid: map<string, V>, after: map<string, V>)
    requires |keys| == |results| && FirstReached(keys, results, before, mid)
    requires forall k' | k' in keys :: k' in mid
    requires Extends(mid, after) && after.Keys <= mid.Keys + {k}
    requires k in after && k !in mid ==> r == Ok(after[k])
    ensures FirstReached(keys + [k], results + [r], before, after)
  {
    forall k' | k' in after && k' !in before ensures FirstWithKey(keys + [k], results + [r], k', after[k']) {
      if k' in mid {
        FirstWithKeyAppend(keys, results, k, r, k', after[k']);
      } else {
        FirstWithKeyNew(keys, results, k', after[k']);
      }
    }
  }

  /** When every computation of the run gives `v`, every key the run added
      holds `v`. */
  lemma FirstReachedUniform<V, E>(keys: seq<string>, results: seq<Result<V, E>>,
                                  before: map<string, V>, after: map<string, V>, v: V)
    requires FirstReached(keys, results, before, after)
    requires forall j | 0 <= j < |results| :: results[j] == Ok(v)
    ensures forall k | k in after && k !in before :: after[k] == v
  {
    forall k | k in after && k !in before ensures after[k] == v {
      var j :| 0 <= j < |keys| && j < |results| && keys[j] == k && results[j] == Ok(after[k])
               && forall i | 0 <= i < j :: keys[i] != k;
    }
  }

  /** `HomogeneousCache`: the store opened from a file, updated in place. */
  class HomogeneousCache<V> {
    /** The digest `hash_args` applies (MD5 in the source). */
    const digest: string -> string
    /** The shelve store: hex digest to cached value. */
    var store: map<string, V>
    /** Keys that were in the file when it was opened. */
    ghost const loaded: set<string>
    /** Every invocation of a computing function so far, in order. */
    ghost var calls: seq<Invocation>

    /** The store holds exactly the opened entries and the values computed
        since; no function is called for a key that is present, so a
        computed key is computed once and a loaded key never. */
    ghost predicate Valid()
      reads this
    {
      && store.Keys == loaded + StoredKeys(calls)
      && (forall i | 0 <= i < |calls| :: calls[i].key == ArgsKey(digest, calls[i].args))
      && (forall i | 0 <= i < |calls| :: calls[i].key !in loaded)
      && (forall i, j | 0 <= i < j < |calls| && calls[i].stored :: calls[j].key != calls[i].key)
    }

    /** `__init__`: opens the store; `persisted` is what the file holds. */
    constructor (digest: string -> string, persisted: map<string, V>)
      ensures Valid()
      ensures this.digest == digest && store == persisted && loaded == persisted.Keys && calls == []
    {
      this.digest := digest;
      store := persisted;
      loaded := persisted.Keys;
      calls := [];
    }

    /** `get`: look `args` up by their hash, computing and storing on a miss. */
    method Get<E>(args: seq<string>, fn: seq<string> -> Result<V, E>) returns (r: Result<V, E>)
      requires Valid()
      modifies this
      ensures Valid()
      ensures Memoizes(ArgsKey(digest, args), args, fn, old(store), store, old(calls), calls, r)
      ensures r.Ok? ==> ArgsKey(digest, args) in store && store[ArgsKey(digest, args)] == r.value
    {
      var key := HashArgs(digest, args);
      if key !in store {
        var obj := fn(args);
        StoredKeysAppend(calls, Invocation(args, key, obj.Ok?));
        calls := calls + [Invocation(args, key, obj.Ok?)];
        if obj.Err? {
          return obj;
        }
        store := store[key := obj.value];
      }
      r := Ok(store[key]);
    }
  }

  /** Every `get` keeps the entries that were there: the store only grows,
      and by at most the one key `args` hash to. */
  lemma GetOnlyGrows<V, E>(key: string, args: seq<string>, fn: seq<string> -> Result<V, E>,
                           before: map<string, V>, after: map<string, V>,
                           callsBefore: seq<Invocation>, callsAfter: seq<Invocation>, r: Result<V, E>)
    requires Memoizes(key, args, fn, before, after, callsBefore, callsAfter, r)
    ensures Extends(before, after)
    ensures after.Keys <= before.Keys + {key}
    ensures |callsAfter| <= |callsBefore| + 1
  {
  }

  /** Two `get`s with the same arguments: if the first returns a value, the
      second returns the same value and the function runs at most once
      across both. */
  method GetTwice<V, E>(c: HomogeneousCache<V>, args: seq<string>, fn: seq<string> -> Result<V, E>)
    returns (r1: Result<V, E>, r2: Result<V, E>)
    requires c.Valid()
    modifies c
    ensures c.Valid()
    ensures r1.Ok? ==> r2 == r1 && |c.calls| <= |old(c.calls)| + 1
  {
    r1 := c.Get(args, fn);
    r2 := c.Get(args, fn);
  }

  /** The function `persistent_cache(filename)(fn)` returns: each call goes
      through `get` of the cache shared by the decorator. */
  class Wrapped<V, E> {
    const cache: HomogeneousCache<V>
    const fn: seq<string> -> Result<V, E>

    constructor (cache: HomogeneousCache<V>, fn: seq<string> -> Result<V, E>)
      ensures this.cache == cache && this.fn == fn
    {
      this.cache := cache;
      this.fn := fn;
    }

    /** `wrapped(*args) == cache.get(args, fn)`. */
    method Call(args: seq<string>) returns (r: Result<V, E>)
      requires cache.Valid()
      modifies cache
      ensures cache.Valid()
      ensures Memoizes(ArgsKey(cache.digest, args), args, fn,
                       old(cache.store), cache.store, old(cache.calls), cache.calls, r)
      ensures r.Ok? ==> ArgsKey(cache.digest, args) in cache.store && cache.store[ArgsKey(cache.digest, args)] == r.value
    {
      r := cache.Get(args, fn);
    }
  }

  /** `persistent_cache(filename)`: opens one cache and returns a decorator;
      every function it decorates shares that cache. */
  class PersistentCache<V> {
    const cache: HomogeneousCache<V>

    constructor (digest: string -> string, persisted: map<string, V>)
      ensures fresh(cache) && cache.Valid()
      ensures cache.digest == digest && cache.store == persisted && cache.calls == []
    {
      cache := new HomogeneousCache(digest, persisted);
    }

    /** `decorator(fn)`. */
    method Decorate<E>(fn: seq<string> -> Result<V, E>) returns (w: Wrapped<V, E>)
      ensures fresh(w) && w.cache == cache && w.fn == fn
    {
      w := new Wrapped(cache, fn);
    }
  }
}
