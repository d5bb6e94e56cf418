/** The chained hash map, usable as a map or (through APPEND) as a multimap. */
module HashMaps {
  import opened Basics

  datatype Entry<K, V> = Entry(key: K, value: V)

  datatype Strategy = Add | Set | Update | Append

  datatype Status = Ok | Exists | NoEntry | NoMemory

  const MIN_CAP_BITS: nat := 2

  /** 64-bit size_t, and a pointer per bucket: an array of 2^61 pointers does
      not fit the address space, so allocating it fails. */
  const MAX_CAP_BITS: nat := 60

  lemma Pow2Split(bits: nat)
    requires bits <= 64
    ensures Pow2(64 - bits) * Pow2(bits) == WORD
  {
    Pow2Word();
    Pow2Adds(64 - bits, bits);
  }

  function Shuffle(h: nat): (r: nat)
    ensures r < WORD
  {
    h * 11400714819323198485 % WORD
  }

  /** The upper `bits` bits of the multiplicative shuffle of `h`. */
  function HashBits(h: nat, bits: nat): (r: nat)
    requires 0 < bits <= 64
    ensures r < Pow2(bits)
  {
    UpperBits(Shuffle(h), bits)
  }

  function UpperBits(x: nat, bits: nat): (r: nat)
    requires x < WORD && 0 < bits <= 64
    ensures r < Pow2(bits)
  {
    Pow2Split(bits);
    QuotientBound(x, Pow2(64 - bits), Pow2(bits));
    x / Pow2(64 - bits)
  }

  lemma QuotientBound(x: nat, d: nat, q: nat)
    requires 0 < d && x < d * q
    ensures x / d < q
  {
    var r := x / d;
    assert d * r <= x;
    if q <= r {
      MulMono(d, q, r);
      assert false;
    }
  }

  lemma MulMono(d: nat, a: nat, b: nat)
    requires a <= b
    ensures d * a <= d * b
  {
  }

  /** The hash and equality the caller supplies. */
  datatype Hashing<!K> = Hashing(hash: K -> nat, equal: (K, K) -> bool)

  /** Equality is an equivalence and equal keys hash alike. */
  ghost predicate Respectful<K(!new)>(f: Hashing<K>) {
    && (forall a :: f.equal(a, a))
    && (forall a, b :: f.equal(a, b) ==> f.equal(b, a) && f.hash(a) == f.hash(b))
    && (forall a, b, c :: f.equal(a, b) && f.equal(b, c) ==> f.equal(a, c))
  }

  type Buckets<K, V> = seq<seq<Entry<K, V>>>

  /** All entries, with multiplicity. */
  ghost function All<K, V>(bs: Buckets<K, V>): multiset<Entry<K, V>> {
    if bs == [] then multiset{} else All(bs[..|bs| - 1]) + multiset(bs[|bs| - 1])
  }

  lemma {:induction false} AllUpdate<K, V>(bs: Buckets<K, V>, b: nat, chain: seq<Entry<K, V>>, e: Entry<K, V>)
    requires b < |bs|
    ensures All(bs[b := chain])[e] + multiset(bs[b])[e] == All(bs)[e] + multiset(chain)[e]
  {
    var init := bs[..|bs| - 1];
    if b < |bs| - 1 {
      assert bs[b := chain][..|bs| - 1] == init[b := chain];
      AllUpdate(init, b, chain, e);
    } else {
      assert bs[b := chain][..|bs| - 1] == init;
    }
  }

  /** Every entry sits in the bucket its key hashes to. */
  ghost predicate Placed<K, V>(f: Hashing<K>, bs: Buckets<K, V>, bits: nat) {
    && 0 < bits <= 64
    && forall b, j :: 0 <= b < |bs| && 0 <= j < |bs[b]| ==> HashBits(f.hash(bs[b][j].key), bits) == b
  }

  lemma {:induction false} AllCount<K, V>(f: Hashing<K>, bs: Buckets<K, V>, bits: nat, e: Entry<K, V>)
    requires Placed(f, bs, bits)
    ensures var b := HashBits(f.hash(e.key), bits);
      All(bs)[e] == if b < |bs| then multiset(bs[b])[e] else 0
    decreases |bs|
  {
    if bs != [] {
      var init := bs[..|bs| - 1];
      assert Placed(f, init, bits);
      AllCount(f, init, bits, e);
      var last := bs[|bs| - 1];
      if multiset(last)[e] > 0 {
        assert e in last;
        var j :| 0 <= j < |last| && last[j] == e;
        assert HashBits(f.hash(bs[|bs| - 1][j].key), bits) == |bs| - 1;
      }
    }
  }

  /** The entries of a chain whose key equals `key`, in chain order. */
  function Matching<K, V>(f: Hashing<K>, chain: seq<Entry<K, V>>, key: K): seq<Entry<K, V>> {
    if chain == [] then []
    else (if f.equal(chain[0].key, key) then [chain[0]] else []) + Matching(f, chain[1..], key)
  }

  lemma {:induction false} MatchingCount<K, V>(f: Hashing<K>, chain: seq<Entry<K, V>>, key: K, e: Entry<K, V>)
    ensures multiset(Matching(f, chain, key))[e] == if f.equal(e.key, key) then multiset(chain)[e] else 0
  {
    if chain != [] {
      assert chain == [chain[0]] + chain[1..];
      MatchingCount(f, chain[1..], key, e);
    }
  }

  lemma {:induction false} FirstMatch<K, V>(f: Hashing<K>, chain: seq<Entry<K, V>>, key: K, i: nat)
    requires i <= |chain|
    requires forall j :: 0 <= j < i ==> !f.equal(chain[j].key, key)
    ensures Matching(f, chain, key) == Matching(f, chain[i..], key)
  {
    if i > 0 {
      FirstMatch(f, chain[1..], key, i - 1);
      assert chain[1..][i - 1..] == chain[i..];
    } else {
      assert chain[0..] == chain;
    }
  }

  ghost predicate Shaped<K, V>(f: Hashing<K>, bs: Buckets<K, V>, cap: nat, capBits: nat) {
    && |bs| == cap
    && if cap == 0 then capBits == 0
       else MIN_CAP_BITS <= capBits <= MAX_CAP_BITS && cap == Pow2(capBits) && Placed(f, bs, capBits)
  }

  // ----- the order in which the entries of one key are met -----

  function Reversed<T>(s: seq<T>): (r: seq<T>)
    ensures |r| == |s|
  {
    if s == [] then [] else Reversed(s[1..]) + [s[0]]
  }

  lemma {:induction false} ReversedLast<T>(s: seq<T>, x: T)
    ensures Reversed(s + [x]) == [x] + Reversed(s)
  {
    if s != [] {
      assert (s + [x])[1..] == s[1..] + [x];
      ReversedLast(s[1..], x);
    }
  }

  lemma {:induction false} MatchingLast<K, V>(f: Hashing<K>, chain: seq<Entry<K, V>>, e: Entry<K, V>, key: K)
    ensures Matching(f, chain + [e], key) == Matching(f, chain, key) + (if f.equal(e.key, key) then [e] else [])
  {
    if chain != [] {
      assert (chain + [e])[1..] == chain[1..] + [e];
      MatchingLast(f, chain[1..], e, key);
    }
  }

  /** The entries of `key` in its bucket, in chain order. */
  function OfKey<K, V>(f: Hashing<K>, bs: Buckets<K, V>, bits: nat, key: K): seq<Entry<K, V>> {
    if 0 < bits <= 64 && HashBits(f.hash(key), bits) < |bs| then Matching(f, bs[HashBits(f.hash(key), bits)], key)
    else []
  }

  function One<K, V>(f: Hashing<K>, e: Entry<K, V>, key: K): seq<Entry<K, V>> {
    if f.equal(e.key, key) then [e] else []
  }

  lemma HeadFirst<K(!new), V>(f: Hashing<K>, bs: Buckets<K, V>, bits: nat, e: Entry<K, V>)
    requires Respectful(f) && 0 < bits <= 64 && HashBits(f.hash(e.key), bits) < |bs|
    ensures var h := HashBits(f.hash(e.key), bits);
      forall key :: OfKey(f, bs[h := [e] + bs[h]], bits, key) == One(f, e, key) + OfKey(f, bs, bits, key)
  {
    hide HashBits;
    var h := HashBits(f.hash(e.key), bits);
    assert ([e] + bs[h])[1..] == bs[h];
  }

  /** The entries of a chain pushed one by one: each key's in reverse before the others. */
  ghost predicate ChainPushed<K(!new), V>(f: Hashing<K>, chain: seq<Entry<K, V>>, bs: Buckets<K, V>, bits: nat,
                                          now: Buckets<K, V>) {
    forall key :: OfKey(f, now, bits, key) == Reversed(Matching(f, chain, key)) + OfKey(f, bs, bits, key)
  }

  lemma PushedNone<K(!new), V>(f: Hashing<K>, bs: Buckets<K, V>, bits: nat)
    ensures ChainPushed(f, [], bs, bits, bs)
  {
  }

  lemma PushedNext<K(!new), V>(f: Hashing<K>, chain: seq<Entry<K, V>>, i: nat, bs: Buckets<K, V>, bits: nat,
                               now: Buckets<K, V>)
    requires Respectful(f) && 0 < bits <= 64 && i < |chain| && ChainPushed(f, chain[..i], bs, bits, now)
    requires HashBits(f.hash(chain[i].key), bits) < |now|
    ensures var h := HashBits(f.hash(chain[i].key), bits);
      ChainPushed(f, chain[..i + 1], bs, bits, now[h := [chain[i]] + now[h]])
  {
    hide OfKey, HashBits;
    var e, h := chain[i], HashBits(f.hash(chain[i].key), bits);
    HeadFirst(f, now, bits, e);
    var r := now[h := [e] + now[h]];
    assert chain[..i + 1] == chain[..i] + [e];
    forall key ensures OfKey(f, r, bits, key) == Reversed(Matching(f, chain[..i + 1], key)) + OfKey(f, bs, bits, key) {
      MatchingLast(f, chain[..i], e, key);
      ReversedLast(Matching(f, chain[..i], key), e);
      assert OfKey(f, now, bits, key) == Reversed(Matching(f, chain[..i], key)) + OfKey(f, bs, bits, key);
      assert OfKey(f, r, bits, key) == One(f, e, key) + OfKey(f, now, bits, key);
      var m := Matching(f, chain[..i], key);
      assert m + [] == m;
      Associative(One(f, e, key), Reversed(m), OfKey(f, bs, bits, key));
    }
  }

  /** Keys whose bucket is among the first `n` are met in reverse, others not at all. */
  ghost predicate Turned<K(!new), V>(f: Hashing<K>, bs: Buckets<K, V>, bits: nat, n: nat, now: Buckets<K, V>,
                                     newBits: nat) {
    forall key :: OfKey(f, now, newBits, key) ==
      if 0 < bits <= 64 && HashBits(f.hash(key), bits) < n then Reversed(OfKey(f, bs, bits, key)) else []
  }

  lemma TurnedNext<K(!new), V>(f: Hashing<K>, bs: Buckets<K, V>, bits: nat, n: nat, was: Buckets<K, V>, newBits: nat,
                               now: Buckets<K, V>)
    requires Respectful(f) && Placed(f, bs, bits) && n < |bs| && Turned(f, bs, bits, n, was, newBits)
    requires ChainPushed(f, bs[n], was, newBits, now)
    ensures Turned(f, bs, bits, n + 1, now, newBits)
  {
    hide HashBits, Reversed;
    var next := n + 1;
    forall key ensures OfKey(f, now, newBits, key) ==
      if HashBits(f.hash(key), bits) < next then Reversed(OfKey(f, bs, bits, key)) else []
    {
      if HashBits(f.hash(key), bits) != n { NoneElsewhere(f, bs, bits, n, |bs[n]|, key); }
      assert bs[n][..|bs[n]|] == bs[n];
      assert OfKey(f, now, newBits, key) == Reversed(Matching(f, bs[n], key)) + OfKey(f, was, newBits, key);
    }
  }

  lemma {:induction false} NoneElsewhere<K(!new), V>(f: Hashing<K>, bs: Buckets<K, V>, bits: nat, b: nat, n: nat,
                                                     key: K)
    requires Respectful(f) && Placed(f, bs, bits) && b < |bs| && n <= |bs[b]| && HashBits(f.hash(key), bits) != b
    ensures Matching(f, bs[b][..n], key) == []
  {
    if n > 0 {
      NoneElsewhere(f, bs, bits, b, n - 1, key);
      MatchingLast(f, bs[b][..n - 1], bs[b][n - 1], key);
      assert bs[b][..n] == bs[b][..n - 1] + [bs[b][n - 1]];
    }
  }

  lemma StartsEmpty<K(!new), V>(f: Hashing<K>, bs: Buckets<K, V>, bits: nat, cap: nat, newBits: nat)
    requires 0 < newBits <= 64
    ensures Turned(f, bs, bits, 0, seq<seq<Entry<K, V>>>(cap, _ => []), newBits)
    ensures Placed(f, seq<seq<Entry<K, V>>>(cap, _ => []), newBits)
  {
  }

  lemma ShapedPlaced<K, V>(f: Hashing<K>, bs: Buckets<K, V>, bits: nat)
    requires Shaped(f, bs, |bs|, bits) && bs != []
    ensures Placed(f, bs, bits)
  {
  }

  /** What linking a new entry does to the order: it comes first, and if the
      buckets had to grow, the older entries of every key are turned round. */
  ghost predicate NewestFirst<K(!new), V>(f: Hashing<K>, bs: Buckets<K, V>, bits: nat, grew: bool, e: Entry<K, V>,
                                          now: Buckets<K, V>, newBits: nat) {
    forall key :: OfKey(f, now, newBits, key) == LinkedBefore(f, e, key, grew, OfKey(f, bs, bits, key))
  }

  function LinkedBefore<K, V>(f: Hashing<K>, e: Entry<K, V>, key: K, grew: bool,
                              s: seq<Entry<K, V>>): seq<Entry<K, V>> {
    One(f, e, key) + if grew then Reversed(s) else s
  }

  lemma LinkedFirst<K(!new), V>(f: Hashing<K>, bs: Buckets<K, V>, bits: nat, grew: bool, grown: Buckets<K, V>,
                                newBits: nat, e: Entry<K, V>)
    requires Respectful(f) && 0 < newBits <= 64 && HashBits(f.hash(e.key), newBits) < |grown|
    requires grew ==> Shaped(f, bs, |bs|, bits) && Turned(f, bs, bits, |bs|, grown, newBits)
    requires !grew ==> grown == bs && newBits == bits
    ensures var h := HashBits(f.hash(e.key), newBits);
      NewestFirst(f, bs, bits, grew, e, grown[h := [e] + grown[h]], newBits)
  {
    hide HashBits;
    HeadFirst(f, grown, newBits, e);
  }

  lemma {:induction false} ReversedFirst<T>(s: seq<T>)
    requires s != []
    ensures Reversed(s)[0] == s[|s| - 1]
  {
    assert s == s[..|s| - 1] + [s[|s| - 1]];
    ReversedLast(s[..|s| - 1], s[|s| - 1]);
  }

  /** hashmap.h says that a find returns the entry of a key inserted last, the
      first in its chain. Whether linking an entry of another key leaves the
      entry found: exactly if the buckets do not grow, or the entries of the key
      begin and end alike. */
  ghost predicate FoundStays<K(!new), V>(f: Hashing<K>, bs: Buckets<K, V>, bits: nat, grew: bool, other: K,
                                         now: Buckets<K, V>, newBits: nat) {
    forall key :: !f.equal(other, key) && OfKey(f, bs, bits, key) != [] ==>
      FoundStaysAt(OfKey(f, bs, bits, key), grew, OfKey(f, now, newBits, key))
  }

  predicate FoundStaysAt<K(==), V(==)>(s: seq<Entry<K, V>>, grew: bool, now: seq<Entry<K, V>>)
    requires s != []
  {
    now != [] && (now[0] == s[0] <==> !grew || s[0] == s[|s| - 1])
  }

  lemma FoundStaysIff<K(!new), V>(f: Hashing<K>, bs: Buckets<K, V>, bits: nat, grew: bool, e: Entry<K, V>,
                                  now: Buckets<K, V>, newBits: nat)
    requires NewestFirst(f, bs, bits, grew, e, now, newBits)
    ensures FoundStays(f, bs, bits, grew, e.key, now, newBits)
  {
    hide OfKey;
    forall key | !f.equal(e.key, key) && OfKey(f, bs, bits, key) != []
      ensures FoundStaysAt(OfKey(f, bs, bits, key), grew, OfKey(f, now, newBits, key))
    {
      var s := OfKey(f, bs, bits, key);
      ReversedFirst(s);
      assert OfKey(f, now, newBits, key) == One(f, e, key) + if grew then Reversed(s) else s;
    }
  }

  lemma ChainUpdateAll<K, V>(bs: Buckets<K, V>, h: nat, chain: seq<Entry<K, V>>)
    requires h < |bs|
    ensures All(bs[h := chain]) == All(bs) - multiset(bs[h]) + multiset(chain)
    ensures multiset(bs[h]) <= All(bs)
  {
    forall e ensures All(bs[h := chain])[e] + multiset(bs[h])[e] == All(bs)[e] + multiset(chain)[e] {
      AllUpdate(bs, h, chain, e);
    }
    forall e ensures multiset(bs[h])[e] <= All(bs)[e] {
      AllUpdate(bs, h, [], e);
    }
    Exchange(All(bs[h := chain]), multiset(bs[h]), All(bs), multiset(chain));
  }

  lemma Exchange<T>(a: multiset<T>, m: multiset<T>, b: multiset<T>, n: multiset<T>)
    requires forall e :: a[e] + m[e] == b[e] + n[e]
    requires m <= b
    ensures a == b - m + n
  {
    forall e ensures a[e] == (b - m + n)[e] {
      assert a[e] + m[e] == b[e] + n[e] && m[e] <= b[e];
    }
  }

  /** Changing one chain to entries that belong there changes the multiset accordingly. */
  lemma ChainUpdate<K, V>(f: Hashing<K>, bs: Buckets<K, V>, cap: nat, capBits: nat, h: nat, chain: seq<Entry<K, V>>)
    requires Shaped(f, bs, cap, capBits) && h < cap
    requires forall j :: 0 <= j < |chain| ==> HashBits(f.hash(chain[j].key), capBits) == h
    ensures Shaped(f, bs[h := chain], cap, capBits)
    ensures All(bs[h := chain]) == All(bs) - multiset(bs[h]) + multiset(chain)
    ensures multiset(bs[h]) <= All(bs)
  {
    ChainUpdateAll(bs, h, chain);
  }

  lemma ChainInsert<K, V>(f: Hashing<K>, bs: Buckets<K, V>, cap: nat, capBits: nat, e: Entry<K, V>)
    requires Shaped(f, bs, cap, capBits) && cap > 0
    ensures var h := HashBits(f.hash(e.key), capBits);
      && Shaped(f, bs[h := [e] + bs[h]], cap, capBits)
      && All(bs[h := [e] + bs[h]]) == All(bs) + multiset{e}
  {
    var h := HashBits(f.hash(e.key), capBits);
    ChainUpdate(f, bs, cap, capBits, h, [e] + bs[h]);
  }

  lemma ChainReplace<K, V>(f: Hashing<K>, bs: Buckets<K, V>, cap: nat, capBits: nat, h: nat, i: nat, e: Entry<K, V>)
    requires Shaped(f, bs, cap, capBits) && h < cap && i < |bs[h]| && HashBits(f.hash(e.key), capBits) == h
    ensures bs[h][i] in All(bs)
    ensures Shaped(f, bs[h := bs[h][i := e]], cap, capBits)
    ensures All(bs[h := bs[h][i := e]]) == All(bs) - multiset{bs[h][i]} + multiset{e}
  {
    ReplaceCounts(bs[h], i, e);
    ChainUpdate(f, bs, cap, capBits, h, bs[h][i := e]);
  }

  lemma ChainRemove<K, V>(f: Hashing<K>, bs: Buckets<K, V>, cap: nat, capBits: nat, h: nat, i: nat)
    requires Shaped(f, bs, cap, capBits) && h < cap && i < |bs[h]|
    ensures bs[h][i] in All(bs)
    ensures Shaped(f, bs[h := bs[h][..i] + bs[h][i + 1..]], cap, capBits)
    ensures All(bs[h := bs[h][..i] + bs[h][i + 1..]]) == All(bs) - multiset{bs[h][i]}
  {
    RemoveCounts(bs[h], i);
    ChainUpdate(f, bs, cap, capBits, h, bs[h][..i] + bs[h][i + 1..]);
  }

  // ----- the finite map a set of entries with unique keys stands for -----

  ghost predicate HasKey<K, V>(f: Hashing<K>, es: multiset<Entry<K, V>>, key: K, e: Entry<K, V>) {
    e in es && f.equal(e.key, key)
  }

  ghost predicate Unique<K, V>(f: Hashing<K>, es: multiset<Entry<K, V>>) {
    && (forall e :: e in es ==> es[e] == 1)
    && forall e, e' :: e in es && e' in es && f.equal(e.key, e'.key) ==> e == e'
  }

  /** The value bound to `key`. */
  ghost function Bound<K(!new), V(!new)>(f: Hashing<K>, es: multiset<Entry<K, V>>, key: K): Option<V> {
    if e :| HasKey(f, es, key, e) then (var e :| HasKey(f, es, key, e); Some(e.value)) else None
  }

  lemma SameKeySameEntry<K(!new), V>(f: Hashing<K>, es: multiset<Entry<K, V>>, key: K, e: Entry<K, V>, e': Entry<K, V>)
    requires Respectful(f) && Unique(f, es) && HasKey(f, es, key, e) && HasKey(f, es, key, e')
    ensures e == e'
  {
    assert f.equal(key, e'.key) && f.equal(e.key, e'.key);
  }

  lemma BoundIs<K(!new), V(!new)>(f: Hashing<K>, es: multiset<Entry<K, V>>, key: K, e: Entry<K, V>)
    requires Respectful(f) && Unique(f, es) && HasKey(f, es, key, e)
    ensures Bound(f, es, key) == Some(e.value)
  {
    var e' :| HasKey(f, es, key, e') && Bound(f, es, key) == Some(e'.value);
    SameKeySameEntry(f, es, key, e, e');
  }

  /** The entries after storing `key` over the entry that held it, if any. */
  ghost function Put<K, V>(es: multiset<Entry<K, V>>, prior: Option<Entry<K, V>>, key: K,
                           value: V): multiset<Entry<K, V>> {
    (if prior.Some? then es - multiset{prior.value} else es) + multiset{Entry(key, value)}
  }

  lemma PutKeeps<K(!new), V(!new)>(f: Hashing<K>, es: multiset<Entry<K, V>>, prior: Option<Entry<K, V>>, key: K,
                                   value: V, e: Entry<K, V>)
    requires Respectful(f) && Unique(f, es)
    requires prior.None? ==> forall e :: !HasKey(f, es, key, e)
    requires prior.Some? ==> HasKey(f, es, key, prior.value)
    requires e in Put(es, prior, key, value)
    ensures Put(es, prior, key, value)[e] == 1
    ensures e != Entry(key, value) ==> e in es && !f.equal(e.key, key)
  {
    if HasKey(f, es, key, e) {
      SameKeySameEntry(f, es, key, e, prior.value);
    }
  }

  lemma PutUnique<K(!new), V(!new)>(f: Hashing<K>, es: multiset<Entry<K, V>>, prior: Option<Entry<K, V>>, key: K,
                                    value: V)
    requires Respectful(f) && Unique(f, es)
    requires prior.None? ==> forall e :: !HasKey(f, es, key, e)
    requires prior.Some? ==> HasKey(f, es, key, prior.value)
    ensures Unique(f, Put(es, prior, key, value))
  {
    var es' := Put(es, prior, key, value);
    forall e | e in es' ensures es'[e] == 1 {
      PutKeeps(f, es, prior, key, value, e);
    }
    forall e, e' | e in es' && e' in es' && f.equal(e.key, e'.key) ensures e == e' {
      PutKeeps(f, es, prior, key, value, e);
      PutKeeps(f, es, prior, key, value, e');
      assert f.equal(e'.key, e.key);
    }
  }

  /** What a successful ADD, SET or UPDATE does to the finite map: `key` and
      every key equal to it is bound to `value`, all else is as before. */
  lemma PutBinds<K(!new), V(!new)>(f: Hashing<K>, es: multiset<Entry<K, V>>, prior: Option<Entry<K, V>>, key: K,
                                   value: V, k: K)
    requires Respectful(f) && Unique(f, es)
    requires prior.None? ==> forall e :: !HasKey(f, es, key, e)
    requires prior.Some? ==> HasKey(f, es, key, prior.value)
    ensures Unique(f, Put(es, prior, key, value))
    ensures Bound(f, Put(es, prior, key, value), k) == if f.equal(key, k) then Some(value) else Bound(f, es, k)
  {
    var es' := Put(es, prior, key, value);
    PutUnique(f, es, prior, key, value);
    if f.equal(key, k) {
      assert HasKey(f, es', k, Entry(key, value));
      BoundIs(f, es', k, Entry(key, value));
    } else if e :| HasKey(f, es', k, e) {
      PutKeeps(f, es, prior, key, value, e);
      BoundIs(f, es', k, e);
      BoundIs(f, es, k, e);
    } else if e :| HasKey(f, es, k, e) {
      assert !(f.equal(key, e.key) && f.equal(e.key, k));
      assert HasKey(f, es', k, e);
    }
  }

  /** What a delete does to it: `key` is unbound, all else is as before. */
  lemma RemoveUnbinds<K(!new), V(!new)>(f: Hashing<K>, es: multiset<Entry<K, V>>, e: Entry<K, V>, k: K)
    requires Respectful(f) && Unique(f, es) && e in es
    ensures Unique(f, es - multiset{e})
    ensures Bound(f, es - multiset{e}, k) == if f.equal(e.key, k) then None else Bound(f, es, k)
  {
    var es' := es - multiset{e};
    if e' :| HasKey(f, es', k, e') {
      assert HasKey(f, es, k, e');
      BoundIs(f, es', k, e');
      BoundIs(f, es, k, e');
      if f.equal(e.key, k) { SameKeySameEntry(f, es, k, e, e'); }
    } else if e' :| HasKey(f, es, k, e') {
      if e' != e { assert HasKey(f, es', k, e'); }
    }
  }

  /** As a finite map, `es'` is `es` but for `key`, which is bound to `v` or unbound. */
  ghost predicate Rebinds<K(!new), V(!new)>(f: Hashing<K>, es: multiset<Entry<K, V>>, es': multiset<Entry<K, V>>,
                                            key: K, v: Option<V>) {
    Unique(f, es') && forall k :: Bound(f, es', k) == if f.equal(key, k) then v else Bound(f, es, k)
  }

  lemma PutRebinds<K(!new), V(!new)>(f: Hashing<K>, es: multiset<Entry<K, V>>, prior: Option<Entry<K, V>>, key: K,
                                     value: V)
    requires Respectful(f) && Unique(f, es)
    requires prior.None? ==> forall e :: !HasKey(f, es, key, e)
    requires prior.Some? ==> HasKey(f, es, key, prior.value)
    ensures Rebinds(f, es, Put(es, prior, key, value), key, Some(value))
  {
    hide Respectful, Unique, HasKey, Put, Bound;
    PutUnique(f, es, prior, key, value);
    forall k ensures Bound(f, Put(es, prior, key, value), k) ==
                     if f.equal(key, k) then Some(value) else Bound(f, es, k)
    {
      PutBinds(f, es, prior, key, value, k);
    }
  }

  lemma RemoveRebinds<K(!new), V(!new)>(f: Hashing<K>, es: multiset<Entry<K, V>>, e: Entry<K, V>, key: K)
    requires Respectful(f) && Unique(f, es) && HasKey(f, es, key, e)
    ensures Rebinds(f, es, es - multiset{e}, key, None)
  {
    forall k ensures Bound(f, es - multiset{e}, k) == if f.equal(key, k) then None else Bound(f, es, k) {
      RemoveUnbinds(f, es, e, k);
      assert f.equal(key, k) <==> f.equal(e.key, k);
    }
    RemoveUnbinds(f, es, e, key);
  }

  lemma AbsentRebinds<K(!new), V(!new)>(f: Hashing<K>, es: multiset<Entry<K, V>>, key: K)
    requires Respectful(f) && Unique(f, es) && forall e :: !HasKey(f, es, key, e)
    ensures Rebinds(f, es, es, key, None)
  {
    forall k | f.equal(key, k) ensures Bound(f, es, k) == None {
      if e :| HasKey(f, es, k, e) { assert f.equal(k, key) && HasKey(f, es, key, e); }
    }
  }

  /** A map that cannot grow any more holds more than this. */
  const FULL: nat := 0x800_0000_0000_0000

  lemma LargestCap(cap: nat, sz: nat)
    requires cap == Pow2(MAX_CAP_BITS) && (sz + 1) * 4 / 3 > cap
    ensures sz >= FULL
  {
    Pow2Largest();
    hide Pow2;
  }

  lemma Pow2Largest()
    ensures Pow2(MAX_CAP_BITS) == 0x1000_0000_0000_0000
  {
    assert Pow2(4) == 16;
    hide Pow2;
    Pow2Word();
    Pow2Adds(MAX_CAP_BITS, 4);
  }

  function GrownCap(cap: nat): nat {
    if cap == 0 then 4 else 2 * cap
  }

  class HashMap<K(==,!new), V(==,!new)> {
    const fns: Hashing<K>
    var buckets: Buckets<K, V>
    var cap: nat
    var capBits: nat
    var sz: nat

    ghost predicate Valid()
      reads this
    {
      && Shaped(fns, buckets, cap, capBits)
      && sz == |Entries()| && sz * 4 / 3 <= cap
    }

    /** The entries held, with multiplicity. */
    ghost function Entries(): multiset<Entry<K, V>>
      reads this
    {
      All(buckets)
    }

    /** hashmap__for_each_key_entry: the entries of `key`, in the order visited. */
    function KeyEntries(key: K): seq<Entry<K, V>>
      requires Valid()
      reads this
    {
      if cap == 0 then [] else Matching(fns, buckets[HashBits(fns.hash(key), capBits)], key)
    }

    lemma KeyEntriesAre(key: K)
      requires Valid()
      ensures KeyEntries(key) == OfKey(fns, buckets, capBits, key)
    {
    }

    /** The entry a lookup of `key` meets. */
    ghost function Lookup(key: K): Option<Entry<K, V>>
      requires Valid()
      reads this
    {
      if KeyEntries(key) == [] then None else Some(KeyEntries(key)[0])
    }

    /** Iterating a key visits each of its entries exactly as often as it was
        put in, and nothing else. */
    lemma KeyEntriesExact(key: K, e: Entry<K, V>)
      requires Valid() && Respectful(fns)
      ensures multiset(KeyEntries(key))[e] == if fns.equal(e.key, key) then Entries()[e] else 0
    {
      if cap > 0 {
        AllCount(fns, buckets, capBits, e);
        MatchingCount(fns, buckets[HashBits(fns.hash(key), capBits)], key, e);
      }
    }

    /** A lookup meets an entry of its key whenever there is one. */
    lemma LookupMeetsKey(key: K)
      requires Valid() && Respectful(fns)
      ensures Lookup(key).Some? <==> exists e :: HasKey(fns, Entries(), key, e)
      ensures Lookup(key).Some? ==> HasKey(fns, Entries(), key, Lookup(key).value)
    {
      var es, all := KeyEntries(key), Entries();
      forall e ensures e in multiset(es) <==> HasKey(fns, all, key, e) {
        KeyEntriesExact(key, e);
      }
      if es != [] {
        assert es[0] in multiset(es);
      }
    }

    /** While keys are unique, a lookup is the finite map the entries form. */
    lemma LookupIsBound(key: K)
      requires Valid() && Respectful(fns) && Unique(fns, Entries())
      ensures Bound(fns, Entries(), key) == match Lookup(key) { case None => None case Some(e) => Some(e.value) }
    {
      LookupMeetsKey(key);
      if Lookup(key).Some? {
        BoundIs(fns, Entries(), key, Lookup(key).value);
      }
    }

    constructor (fns: Hashing<K>)
      ensures Valid() && this.fns == fns && Entries() == multiset{} && cap == 0
      ensures forall k :: KeyEntries(k) == []
    {
      this.fns := fns;
      buckets, cap, capBits, sz := [], 0, 0, 0;
    }

    method Clear()
      requires Valid()
      modifies this
      ensures Valid() && Entries() == multiset{}
    {
      buckets, cap, capBits, sz := [], 0, 0, 0;
    }

    predicate NeedsToGrow()
      reads this
    {
      cap == 0 || (sz + 1) * 4 / 3 > cap
    }

    /** The inner loop of hashmap_grow: pushes each entry of a chain at the head
        of its chain in the new bucket array. */
    method RehashChain(chain: seq<Entry<K, V>>, bs: Buckets<K, V>, newCap: nat,
                       newBits: nat) returns (grown: Buckets<K, V>)
      requires Shaped(fns, bs, newCap, newBits) && newCap > 0
      ensures Shaped(fns, grown, newCap, newBits)
      ensures All(grown) == All(bs) + multiset(chain)
      ensures Respectful(fns) ==> ChainPushed(fns, chain, bs, newBits, grown)
    {
      hide ChainPushed, Respectful, HashBits, Placed, All, Pow2;
      grown := bs;
      var i := 0;
      PushedNone(fns, bs, newBits);
      assert chain[..0] == [] && multiset(chain[..0]) == multiset{};
      while i < |chain|
        invariant i <= |chain|
        invariant Shaped(fns, grown, newCap, newBits)
        invariant All(grown) == All(bs) + multiset(chain[..i])
        invariant Respectful(fns) ==> ChainPushed(fns, chain[..i], bs, newBits, grown)
      {
        var h := HashBits(fns.hash(chain[i].key), newBits);
        if Respectful(fns) { PushedNext(fns, chain, i, bs, newBits, grown); }
        ChainInsert(fns, grown, newCap, newBits, chain[i]);
        grown := grown[h := [chain[i]] + grown[h]];
        assert chain[..i + 1] == chain[..i] + [chain[i]];
        i := i + 1;
      }
      assert chain[..i] == chain;
    }

    /** The outer loop of hashmap_grow, over the old buckets. */
    method Rehash(bs: Buckets<K, V>, ghost bits: nat, newCap: nat, newBits: nat) returns (grown: Buckets<K, V>)
      requires Shaped(fns, bs, |bs|, bits)
      requires MIN_CAP_BITS <= newBits <= MAX_CAP_BITS && newCap == Pow2(newBits)
      ensures Shaped(fns, grown, newCap, newBits)
      ensures All(grown) == All(bs)
      ensures Respectful(fns) ==> Turned(fns, bs, bits, |bs|, grown, newBits)
    {
      hide HashBits, Placed;
      grown := seq(newCap, _ => []);
      AllEmpty<K, V>(newCap);
      StartsEmpty(fns, bs, bits, newCap, newBits);
      var bkt := 0;
      while bkt < |bs|
        invariant bkt <= |bs|
        invariant Shaped(fns, grown, newCap, newBits)
        invariant All(grown) == All(bs[..bkt])
        invariant Respectful(fns) ==> Turned(fns, bs, bits, bkt, grown, newBits)
      {
        hide Turned, ChainPushed, Shaped, Respectful;
        ghost var was := grown;
        grown := RehashChain(bs[bkt], grown, newCap, newBits);
        if Respectful(fns) { ShapedPlaced(fns, bs, bits); TurnedNext(fns, bs, bits, bkt, was, newBits, grown); }
        assert bs[..bkt + 1][..bkt] == bs[..bkt];
        bkt := bkt + 1;
      }
      assert bs[..bkt] == bs;
    }

    /** hashmap_grow: doubles the bucket array. */
    method Grow() returns (status: Status)
      requires Valid()
      modifies this`buckets, this`cap, this`capBits
      ensures Valid() && Entries() == old(Entries())
      ensures status == Ok || status == NoMemory
      ensures status == Ok ==> cap == GrownCap(old(cap))
      ensures status == NoMemory ==> buckets == old(buckets) && cap == old(cap) && capBits == old(capBits)
      ensures status == NoMemory <==> old(capBits) == MAX_CAP_BITS
      ensures status == Ok && Respectful(fns) ==>
        Turned(fns, old(buckets), old(capBits), |old(buckets)|, buckets, capBits)
    {
      var newBits := capBits + 1;
      if newBits < MIN_CAP_BITS { newBits := MIN_CAP_BITS; }
      if newBits > MAX_CAP_BITS { return NoMemory; }
      var newCap := Pow2(newBits);
      assert newCap == if cap == 0 then 4 else 2 * cap by {
        if cap == 0 { assert Pow2(2) == 4; } else { assert newBits == capBits + 1; }
      }
      var newBuckets := Rehash(buckets, capBits, newCap, newBits);
      buckets, cap, capBits := newBuckets, newCap, newBits;
      return Ok;
    }

    /** The tail of hashmap__insert: makes room if needed and links a new entry. */
    method AddEntry(key: K, value: V) returns (status: Status)
      requires Valid()
      modifies this
      ensures Valid()
      ensures status == Ok || status == NoMemory
      ensures status == NoMemory ==> |old(Entries())| >= FULL
      ensures Entries() == if status == Ok then old(Entries()) + multiset{Entry(key, value)} else old(Entries())
      ensures status == Ok ==> cap == if old(NeedsToGrow()) then GrownCap(old(cap)) else old(cap)
      ensures status == Ok && Respectful(fns) ==>
        NewestFirst(fns, old(buckets), old(capBits), old(NeedsToGrow()), Entry(key, value), buckets, capBits)
    {
      ghost var bs, bits, grew := buckets, capBits, NeedsToGrow();
      if NeedsToGrow() {
        if capBits == MAX_CAP_BITS { LargestCap(cap, sz); }
        status := Grow();
        if status != Ok { return; }
      }
      assert cap > 0 && (sz + 1) * 4 / 3 <= cap;
      var h := HashBits(fns.hash(key), capBits);
      ChainInsert(fns, buckets, cap, capBits, Entry(key, value));
      if Respectful(fns) { LinkedFirst(fns, bs, bits, grew, buckets, capBits, Entry(key, value)); }
      buckets := buckets[h := [Entry(key, value)] + buckets[h]];
      sz := sz + 1;
      status := Ok;
    }

    /** hashmap_find_entry: the position of the first entry with this key. */
    method FindEntry(key: K) returns (pos: Option<nat>)
      requires Valid()
      ensures pos.None? <==> KeyEntries(key) == []
      ensures pos.Some? ==> cap > 0
      ensures pos.Some? ==>
        var chain := buckets[HashBits(fns.hash(key), capBits)];
        pos.value < |chain| && Lookup(key) == Some(chain[pos.value]) && HasKey(fns, Entries(), key, chain[pos.value])
    {
      hide HashBits, All, Pow2;
      if cap == 0 { return None; }
      var chain := buckets[HashBits(fns.hash(key), capBits)];
      var i := 0;
      while i < |chain|
        invariant i <= |chain|
        invariant forall j :: 0 <= j < i ==> !fns.equal(chain[j].key, key)
      {
        FirstMatch(fns, chain, key, i);
        if fns.equal(chain[i].key, key) {
          ChainReplace(fns, buckets, cap, capBits, HashBits(fns.hash(key), capBits), i, chain[i]);
          return Some(i);
        }
        i := i + 1;
      }
      FirstMatch(fns, chain, key, i);
      return None;
    }

    /** Overwrites the key and value of the entry at `pos` of the chain of `key`. */
    method StoreAt(pos: nat, key: K, value: V)
      requires Valid() && cap > 0
      requires pos < |buckets[HashBits(fns.hash(key), capBits)]|
      modifies this`buckets
      ensures Valid()
      ensures Entries() == Put(old(Entries()), old(Some(buckets[HashBits(fns.hash(key), capBits)][pos])), key, value)
    {
      var h := HashBits(fns.hash(key), capBits);
      ChainReplace(fns, buckets, cap, capBits, h, pos, Entry(key, value));
      buckets := buckets[h := buckets[h][pos := Entry(key, value)]];
    }

    /** hashmap__insert. */
    method Insert(key: K, value: V, strategy: Strategy) returns (status: Status, prior: Option<Entry<K, V>>)
      requires Valid()
      modifies this
      ensures Valid()
      ensures prior == if strategy == Append then None else old(Lookup(key))
      ensures status == Exists <==> strategy == Add && prior.Some?
      ensures status == NoEntry <==> strategy == Update && prior.None?
      ensures status == NoMemory ==> prior.None? && strategy != Update && |old(Entries())| >= FULL
      ensures status != Ok ==> Entries() == old(Entries())
      ensures prior.Some? ==> HasKey(fns, old(Entries()), key, prior.value)
      ensures status == Ok ==> Entries() == Put(old(Entries()), prior, key, value)
      ensures status == Ok && prior.Some? ==> cap == old(cap)
      ensures status == Ok && prior.None? ==> cap == if old(NeedsToGrow()) then GrownCap(old(cap)) else old(cap)
      ensures status == Ok && prior.None? && Respectful(fns) ==>
        NewestFirst(fns, old(buckets), old(capBits), old(NeedsToGrow()), Entry(key, value), buckets, capBits)
      ensures status == Ok && prior.None? && Respectful(fns) ==>
        FoundStays(fns, old(buckets), old(capBits), old(NeedsToGrow()), key, buckets, capBits)
      ensures status == Ok && Respectful(fns) && Unique(fns, old(Entries())) ==>
        (strategy == Append ==> old(Lookup(key)).None?) ==>
        Rebinds(fns, old(Entries()), Entries(), key, Some(value))
    {
      hide NewestFirst, FoundStays, Rebinds, Respectful, Unique, HashBits, All, Matching;
      ghost var es, found := Entries(), Lookup(key);
      if Respectful(fns) { LookupMeetsKey(key); }
      prior := None;
      if strategy != Append {
        var pos := FindEntry(key);
        if pos.Some? {
          prior := Some(buckets[HashBits(fns.hash(key), capBits)][pos.value]);
          if strategy == Set || strategy == Update {
            StoreAt(pos.value, key, value);
            if Respectful(fns) && Unique(fns, es) { PutRebinds(fns, es, prior, key, value); }
            return Ok, prior;
          } else {
            return Exists, prior;
          }
        }
      }
      if strategy == Update { return NoEntry, prior; }
      ghost var bs, bits, grew := buckets, capBits, NeedsToGrow();
      status := AddEntry(key, value);
      if status == Ok && Respectful(fns) {
        FoundStaysIff(fns, bs, bits, grew, Entry(key, value), buckets, capBits);
        if found.None? && Unique(fns, es) { PutRebinds(fns, es, None, key, value); }
      }
    }

    /** hashmap__append: the new entry is met first among those of its key; if the
        buckets had to grow, the older ones of every key are met in reverse. */
    method AppendEntry(key: K, value: V) returns (status: Status)
      requires Valid()
      modifies this
      ensures Valid()
      ensures status == Ok || (status == NoMemory && |old(Entries())| >= FULL)
      ensures Entries() == if status == Ok then old(Entries()) + multiset{Entry(key, value)} else old(Entries())
      ensures status == Ok ==> cap == if old(NeedsToGrow()) then GrownCap(old(cap)) else old(cap)
      ensures status == Ok && Respectful(fns) ==>
        forall k :: KeyEntries(k) == LinkedBefore(fns, Entry(key, value), k, old(NeedsToGrow()), old(KeyEntries(k)))
    {
      hide Respectful, HashBits, All, Matching, FoundStays, Rebinds;
      ghost var bs, bits, grew := buckets, capBits, NeedsToGrow();
      forall k ensures KeyEntries(k) == OfKey(fns, bs, bits, k) { KeyEntriesAre(k); }
      var inserted, _ := Insert(key, value, Append);
      status := inserted;
      if status == Ok && Respectful(fns) {
        forall k ensures KeyEntries(k) == LinkedBefore(fns, Entry(key, value), k, grew, old(KeyEntries(k))) {
          KeyEntriesAre(k);
          assert old(KeyEntries(k)) == OfKey(fns, bs, bits, k);
        }
      }
    }

    lemma SizeIs()
      requires Valid()
      ensures sz == |Entries()|
    {
    }

    /** hashmap__find. */
    method Find(key: K) returns (r: Option<V>)
      requires Valid()
      ensures r == match Lookup(key) { case None => None case Some(e) => Some(e.value) }
      ensures Respectful(fns) && Unique(fns, Entries()) ==> r == Bound(fns, Entries(), key)
    {
      if Respectful(fns) && Unique(fns, Entries()) { LookupIsBound(key); }
      var pos := FindEntry(key);
      if pos.None? { return None; }
      return Some(buckets[HashBits(fns.hash(key), capBits)][pos.value].value);
    }

    /** hashmap__delete: unlinks the first entry with this key. */
    method Delete(key: K) returns (removed: Option<Entry<K, V>>)
      requires Valid()
      modifies this
      ensures Valid()
      ensures removed == old(Lookup(key))
      ensures removed.None? ==> Entries() == old(Entries())
      ensures removed.Some? ==> HasKey(fns, old(Entries()), key, removed.value)
      ensures removed.Some? ==> Entries() == old(Entries()) - multiset{removed.value}
      ensures Respectful(fns) && Unique(fns, old(Entries())) ==> Rebinds(fns, old(Entries()), Entries(), key, None)
    {
      hide Rebinds, Respectful, Unique, HashBits, All;
      if Respectful(fns) { LookupMeetsKey(key); }
      var pos := FindEntry(key);
      if pos.None? {
        if Respectful(fns) && Unique(fns, Entries()) { AbsentRebinds(fns, Entries(), key); }
        return None;
      }
      ghost var es := Entries();
      var h := HashBits(fns.hash(key), capBits);
      var chain, i := buckets[h], pos.value;
      removed := Some(chain[i]);
      ChainRemove(fns, buckets, cap, capBits, h, i);
      buckets := buckets[h := chain[..i] + chain[i + 1..]];
      sz := sz - 1;
      if Respectful(fns) && Unique(fns, es) { RemoveRebinds(fns, es, removed.value, key); }
    }
  }

  /** One more entry, and what iterating the key 7 then meets. */
  method Another(table: HashMap<int, int>, key: int, value: int, ghost n: nat, ghost cap: nat,
                 ghost seen: seq<Entry<int, int>>)
    requires table.Valid() && table.fns.equal == ((a, b) => a == b) && Respectful(table.fns)
    requires |table.Entries()| == n < FULL && table.cap == cap && table.KeyEntries(7) == seen
    modifies table
    ensures table.Valid() && |table.Entries()| == n + 1
    ensures table.cap == if cap == 0 || (n + 1) * 4 / 3 > cap then GrownCap(cap) else cap
    ensures table.KeyEntries(7) == (if key == 7 then [Entry(key, value)] else []) +
                                   if cap == 0 || (n + 1) * 4 / 3 > cap then Reversed(seen) else seen
  {
    hide HashMap.Valid, HashMap.KeyEntries, HashMap.Entries, Respectful, Reversed;
    table.SizeIs();
    var status := table.AppendEntry(key, value);
  }

  /** A run on which the entry found is not the one inserted last: the fourth
      entry makes the buckets grow. */
  method FindAfterGrowth() returns (newest: int, found: Option<int>)
    ensures newest == 2 && found == Some(1)
  {
    hide HashMap.Valid, HashMap.KeyEntries, HashMap.Entries, Bound, Unique;
    newest := 2;
    var table := new HashMap<int, int>(Hashing(_ => 0, (a, b) => a == b));
    var one, two := Entry(7, 1), Entry(7, newest);
    Another(table, 7, 1, 0, 0, []);
    assert table.KeyEntries(7) == [one];
    Another(table, 7, newest, 1, 4, [one]);
    assert table.KeyEntries(7) == [two, one];
    Another(table, 8, 3, 2, 4, [two, one]);
    assert table.KeyEntries(7) == [two, one];
    found := table.Find(7);
    assert found == Some(newest);
    TwoReversed(two, one);
    Another(table, 9, 4, 3, 4, [two, one]);
    assert table.KeyEntries(7) == [one, two];
    found := table.Find(7);
  }

  lemma TwoReversed<T>(a: T, b: T)
    ensures Reversed([a, b]) == [b, a]
  {
    assert [a, b][1..] == [b] && [b][1..] == [];
  }

  lemma {:induction false} AllEmpty<K, V>(n: nat)
    ensures All<K, V>(seq(n, _ => [])) == multiset{}
  {
    if n > 0 {
      AllEmpty<K, V>(n - 1);
      assert seq<seq<Entry<K, V>>>(n, _ => [])[..n - 1] == seq<seq<Entry<K, V>>>(n - 1, _ => []);
    }
  }

  lemma ReplaceCounts<T>(s: seq<T>, i: nat, x: T)
    requires i < |s|
    ensures multiset(s[i := x]) == multiset(s) - multiset{s[i]} + multiset{x}
  {
  }

  lemma RemoveCounts<T>(s: seq<T>, i: nat)
    requires i < |s|
    ensures multiset(s[..i] + s[i + 1..]) == multiset(s) - multiset{s[i]}
  {
    assert s == s[..i] + [s[i]] + s[i + 1..];
  }
}
