/**
 cachecore.c: a chained hash table, proved to behave as one list of stores, newest first, for every
 bucket count and every hash.
 */
module CacheStore {
  import opened Bytes

  const CACHE_OK: int := 0
  const CACHE_ENOTFOUND: int := -3

  class CacheEntry {
    var key: seq<byte>
    var value: Option<seq<byte>>   // NULL until a value is stored
    var next: CacheEntry?

    constructor (key: seq<byte>)
      ensures this.key == key && value == None && next == null
    {
      this.key, value, next := key, None, null;
    }
  }

  /** One store, as the log sees it. */
  datatype Node = Node(ref: CacheEntry, key: seq<byte>, value: Option<seq<byte>>)

  // ---- the log -------------------------------------------------------------

  /** The newest surviving store under `key`. */
  ghost function Newest(log: seq<Node>, key: seq<byte>): (r: Option<Node>)
    ensures r.Some? ==> r.value in log && r.value.key == key
    ensures r.None? ==> forall n :: n in log ==> n.key != key
  {
    if log == [] then None
    else if log[0].key == key then Some(log[0])
    else Newest(log[1..], key)
  }

  /** The log with the newest store under `key` taken out. */
  ghost function WithoutNewest(log: seq<Node>, key: seq<byte>): (r: seq<Node>)
    ensures forall n :: n in r ==> n in log
    ensures |r| == if Newest(log, key).Some? then |log| - 1 else |log|
  {
    if log == [] then []
    else if log[0].key == key then log[1..]
    else [log[0]] + WithoutNewest(log[1..], key)
  }

  /** Where a linear search for `key` stops. */
  lemma {:induction false} NewestAt(c: seq<Node>, key: seq<byte>, k: nat)
    requires k <= |c| && (forall i :: 0 <= i < k ==> c[i].key != key) && (k < |c| ==> c[k].key == key)
    ensures Newest(c, key) == if k < |c| then Some(c[k]) else None
  {
    if k > 0 { NewestAt(c[1..], key, k - 1); }
  }

  /** The stores under `key`, newest first. */
  ghost function Under(log: seq<Node>, key: seq<byte>): seq<Node> {
    if log == [] then []
    else (if log[0].key == key then [log[0]] else []) + Under(log[1..], key)
  }

  /** They are the stores of the log with exactly that key, in the log's order. */
  lemma {:induction false} UnderIs(before: seq<Node>, n: Node, after: seq<Node>, key: seq<byte>)
    ensures Under([], key) == []
    ensures Under(before + [n] + after, key) ==
      Under(before, key) + (if n.key == key then [n] else []) + Under(after, key)
  {
    var log := before + [n] + after;
    if before == [] {
      assert log[0] == n && log[1..] == after;
    } else {
      UnderIs(before[1..], n, after, key);
      var first := if before[0].key == key then [before[0]] else [];
      var mid := if n.key == key then [n] else [];
      assert Under(before, key) == first + Under(before[1..], key);
      assert log[0] == before[0] && log[1..] == before[1..] + [n] + after;
      hide Under;
      ConcatAssoc(first, Under(before[1..], key), mid);
      ConcatAssoc(first, Under(before[1..], key) + mid, Under(after, key));
    }
  }

  /** A lookup sees the first store under its key. */
  lemma {:induction false} NewestIsFirst(log: seq<Node>, key: seq<byte>)
    ensures Newest(log, key) == if Under(log, key) == [] then None else Some(Under(log, key)[0])
  {
    if log != [] && log[0].key != key { NewestIsFirst(log[1..], key); }
  }

  /** Deleting takes the first store under its key and uncovers the next older one; the stores under every
      other key stay as they are. */
  lemma {:induction false} DeleteUncovers(log: seq<Node>, key: seq<byte>, other: seq<byte>)
    ensures Under(WithoutNewest(log, key), other) ==
      if other == key && Under(log, key) != [] then Under(log, key)[1..] else Under(log, other)
  {
    if log != [] {
      if log[0].key == key {
        assert Under(log, key)[1..] == Under(log[1..], key);
        if other != key { assert Under(log, other) == Under(log[1..], other); }
      } else {
        DeleteUncovers(log[1..], key, other);
        var w := WithoutNewest(log, key);
        assert w[0] == log[0] && w[1..] == WithoutNewest(log[1..], key);
        assert Under(log, key) == Under(log[1..], key);
      }
    }
  }

  // ---- buckets -------------------------------------------------------------

  type Hash = seq<byte> -> nat

  ghost function BucketOf(hash: Hash, n: nat, key: seq<byte>): (b: nat)
    requires n > 0
    ensures b < n
  {
    hash(key) % n
  }

  /** The chain of bucket `b`: its share of the log, in the log's order. */
  ghost function Chain(log: seq<Node>, hash: Hash, n: nat, b: nat): (c: seq<Node>)
    requires n > 0
    ensures forall m :: m in c ==> m in log && BucketOf(hash, n, m.key) == b
  {
    if log == [] then []
    else (if BucketOf(hash, n, log[0].key) == b then [log[0]] else []) + Chain(log[1..], hash, n, b)
  }

  ghost predicate DistinctRefs(log: seq<Node>) {
    forall i, j :: 0 <= i < j < |log| ==> log[i].ref != log[j].ref
  }

  lemma RefsNameNodes(log: seq<Node>, m: Node, n: Node)
    requires DistinctRefs(log) && m in log && n in log && m.ref == n.ref
    ensures m == n
  {
  }

  lemma {:induction false} ChainDistinct(log: seq<Node>, hash: Hash, n: nat, b: nat)
    requires n > 0 && DistinctRefs(log)
    ensures DistinctRefs(Chain(log, hash, n, b))
  {
    if log != [] {
      ChainDistinct(log[1..], hash, n, b);
      var rest := Chain(log[1..], hash, n, b);
      forall j | 0 <= j < |rest|
        ensures rest[j].ref != log[0].ref
      {
        assert rest[j] in log[1..];
      }
    }
  }

  /** Everything stored under a key is in the key's own bucket, so searching the chain is searching the log. */
  lemma {:induction false} ChainNewest(log: seq<Node>, hash: Hash, n: nat, key: seq<byte>)
    requires n > 0
    ensures Newest(Chain(log, hash, n, BucketOf(hash, n, key)), key) == Newest(log, key)
  {
    if log != [] {
      ChainNewest(log[1..], hash, n, key);
      var c, rest := Chain(log, hash, n, BucketOf(hash, n, key)), Chain(log[1..], hash, n, BucketOf(hash, n, key));
      assert c == rest || c == [log[0]] + rest;
    }
  }

  lemma ChainInsert(log: seq<Node>, node: Node, hash: Hash, n: nat, b: nat)
    requires n > 0
    ensures Chain([node] + log, hash, n, b) ==
      if BucketOf(hash, n, node.key) == b then [node] + Chain(log, hash, n, b) else Chain(log, hash, n, b)
  {
    assert ([node] + log)[1..] == log;
  }

  lemma DeleteCons(log: seq<Node>, node: Node, key: seq<byte>)
    ensures WithoutNewest([node] + log, key) == if node.key == key then log else [node] + WithoutNewest(log, key)
  {
    assert ([node] + log)[1..] == log;
  }

  /** Deleting from the log deletes from one chain and leaves the others alone. */
  lemma {:induction false} ChainDelete(log: seq<Node>, hash: Hash, n: nat, key: seq<byte>, b: nat)
    requires n > 0
    ensures Chain(WithoutNewest(log, key), hash, n, b) ==
      if b == BucketOf(hash, n, key) then WithoutNewest(Chain(log, hash, n, b), key) else Chain(log, hash, n, b)
  {
    if log != [] {
      var node, rest := log[0], log[1..];
      assert log == [node] + rest;
      ChainDelete(rest, hash, n, key, b);
      hide Chain, WithoutNewest, BucketOf;
      ChainInsert(rest, node, hash, n, b);
      DeleteCons(rest, node, key);
      ChainInsert(WithoutNewest(rest, key), node, hash, n, b);
      DeleteCons(Chain(rest, hash, n, b), node, key);
    }
  }

  /** The chains of the first `m` buckets, one after the other. */
  ghost function ChainsTo(log: seq<Node>, hash: Hash, n: nat, m: nat): seq<Node>
    requires n > 0
  {
    if m == 0 then [] else ChainsTo(log, hash, n, m - 1) + Chain(log, hash, n, m - 1)
  }

  lemma {:induction false} ChainComplete(log: seq<Node>, hash: Hash, n: nat, m: Node)
    requires n > 0 && m in log
    ensures m in Chain(log, hash, n, BucketOf(hash, n, m.key))
  {
    if log[0] != m { ChainComplete(log[1..], hash, n, m); }
  }

  lemma ChainMember(log: seq<Node>, hash: Hash, n: nat, b: nat, x: Node)
    requires n > 0
    ensures x in Chain(log, hash, n, b) <==> x in log && BucketOf(hash, n, x.key) == b
  {
    if x in log { ChainComplete(log, hash, n, x); }
  }

  /** Every store is in exactly one chain. */
  lemma {:induction false} ChainsCover(log: seq<Node>, hash: Hash, n: nat, m: nat, x: Node)
    requires n > 0
    ensures x in ChainsTo(log, hash, n, m) <==> x in log && BucketOf(hash, n, x.key) < m
  {
    hide Chain, BucketOf;
    if m > 0 {
      ChainsCover(log, hash, n, m - 1, x);
      ChainMember(log, hash, n, m - 1, x);
    }
  }

  lemma DistinctConcat(p: seq<Node>, c: seq<Node>)
    requires DistinctRefs(p) && DistinctRefs(c)
    requires forall i, j :: 0 <= i < |p| && 0 <= j < |c| ==> p[i].ref != c[j].ref
    ensures DistinctRefs(p + c)
  {
  }

  /** And once only. */
  lemma {:induction false} ChainsDistinct(log: seq<Node>, hash: Hash, n: nat, m: nat)
    requires n > 0 && DistinctRefs(log)
    ensures DistinctRefs(ChainsTo(log, hash, n, m))
  {
    hide Chain, BucketOf, DistinctRefs;
    if m == 0 {
      assert DistinctRefs([]) by { NoneDistinct(); }
    } else {
      var p, c := ChainsTo(log, hash, n, m - 1), Chain(log, hash, n, m - 1);
      ChainsDistinct(log, hash, n, m - 1);
      ChainDistinct(log, hash, n, m - 1);
      forall i, j | 0 <= i < |p| && 0 <= j < |c|
        ensures p[i].ref != c[j].ref
      {
        ChainsCover(log, hash, n, m - 1, p[i]);
        ChainMember(log, hash, n, m - 1, c[j]);
        if p[i].ref == c[j].ref { RefsNameNodes(log, p[i], c[j]); }
      }
      DistinctConcat(p, c);
    }
  }

  lemma NoneDistinct()
    ensures DistinctRefs([])
  {
  }

  // ---- links ---------------------------------------------------------------

  /** Where the `next` pointer of each entry of the table leads. */
  type Links = map<CacheEntry, CacheEntry?>

  ghost function Next(links: Links, r: CacheEntry): CacheEntry? {
    if r in links then links[r] else null
  }

  lemma NextUpdated(links: Links, r: CacheEntry, to: CacheEntry?)
    ensures Next(links[r := to], r) == to
    ensures forall q: CacheEntry :: q != r ==> Next(links[r := to], q) == Next(links, q)
  {
  }

  /** The entry at position `i` of a chain, or NULL past its end. */
  ghost function At(c: seq<Node>, i: nat): CacheEntry? {
    if i < |c| then c[i].ref else null
  }

  /** The list from `head` visits the nodes of `c` in order. */
  ghost predicate Linked(head: CacheEntry?, c: seq<Node>, links: Links) {
    && head == At(c, 0)
    && (forall i {:trigger Next(links, c[i].ref)} :: 0 <= i < |c| ==> Next(links, c[i].ref) == At(c, i + 1))
  }

  ghost predicate AllLinked(heads: seq<CacheEntry?>, log: seq<Node>, hash: Hash, n: nat, links: Links) {
    && n > 0 && |heads| == n
    && (forall b: nat :: b < n ==> Linked(heads[b], Chain(log, hash, n, b), links))
  }

  lemma LinkedElsewhere(head: CacheEntry?, c: seq<Node>, links: Links, r: CacheEntry, to: CacheEntry?)
    requires Linked(head, c, links) && forall m :: m in c ==> m.ref != r
    ensures Linked(head, c, links[r := to])
  {
    forall i | 0 <= i < |c|
      ensures Next(links[r := to], c[i].ref) == At(c, i + 1)
    {
      assert c[i] in c && Next(links, c[i].ref) == At(c, i + 1);
    }
  }

  lemma LinkedPush(head: CacheEntry?, c: seq<Node>, links: Links, node: Node)
    requires Linked(head, c, links) && forall m :: m in c ==> m.ref != node.ref
    ensures Linked(node.ref, [node] + c, links[node.ref := head])
  {
    LinkedElsewhere(head, c, links, node.ref, head);
    var c' := [node] + c;
    assert forall i :: 0 < i < |c'| ==> c'[i] == c[i - 1];
  }

  /** A new node at the head of its own chain. */
  lemma InsertLinked(heads: seq<CacheEntry?>, log: seq<Node>, hash: Hash, n: nat, links: Links, node: Node)
    requires AllLinked(heads, log, hash, n, links) && forall m :: m in log ==> m.ref != node.ref
    ensures var b := BucketOf(hash, n, node.key);
            AllLinked(heads[b := node.ref], [node] + log, hash, n, links[node.ref := heads[b]])
  {
    hide Linked, Chain, BucketOf;
    var b := BucketOf(hash, n, node.key);
    forall j: nat | j < n
      ensures Linked(heads[b := node.ref][j], Chain([node] + log, hash, n, j), links[node.ref := heads[b]])
    {
      var c := Chain(log, hash, n, j);
      ChainInsert(log, node, hash, n, j);
      if j == b {
        LinkedPush(heads[b], c, links, node);
      } else {
        LinkedElsewhere(heads[j], c, links, node.ref, heads[b]);
      }
    }
  }

  lemma InsertDistinct(log: seq<Node>, node: Node)
    requires DistinctRefs(log) && forall m :: m in log ==> m.ref != node.ref
    ensures DistinctRefs([node] + log)
  {
    assert forall i :: 0 <= i < |log| ==> log[i] in log;
  }

  /** The chain once the link that led to an entry, the bucket head (k = 0) or the entry before, skips it. */
  ghost function Relink(c: seq<Node>, k: nat, links: Links): Links
    requires k < |c|
  {
    if k == 0 then links else links[c[k - 1].ref := Next(links, c[k].ref)]
  }

  lemma LinkedSplice(head: CacheEntry?, c: seq<Node>, links: Links, k: nat)
    requires Linked(head, c, links) && DistinctRefs(c) && k < |c|
    ensures Linked(if k == 0 then Next(links, c[0].ref) else head, c[..k] + c[k + 1..], Relink(c, k, links))
  {
    var c', links' := c[..k] + c[k + 1..], Relink(c, k, links);
    forall i | 0 <= i < |c'|
      ensures Next(links', c'[i].ref) == At(c', i + 1)
    {
      var j := if i < k then i else i + 1;
      assert c'[i] == c[j] && Next(links, c[j].ref) == At(c, j + 1) && Next(links, c[k].ref) == At(c, k + 1);
    }
  }

  /** Nodes of different chains are different entries. */
  lemma ChainsApart(log: seq<Node>, hash: Hash, n: nat, b: nat, j: nat, k: nat)
    requires n > 0 && DistinctRefs(log) && b != j && k < |Chain(log, hash, n, b)|
    ensures forall m :: m in Chain(log, hash, n, j) ==> m.ref != Chain(log, hash, n, b)[k].ref
  {
    var node := Chain(log, hash, n, b)[k];
    assert node in Chain(log, hash, n, b);
    forall m | m in Chain(log, hash, n, j)
      ensures m.ref != node.ref
    {
      if m.ref == node.ref { RefsNameNodes(log, m, node); }
    }
  }

  /** Taking the first match out of its chain takes the newest store out of the log. */
  lemma DeleteLinked(heads: seq<CacheEntry?>, log: seq<Node>, hash: Hash, n: nat, links: Links, key: seq<byte>, k: nat)
    requires AllLinked(heads, log, hash, n, links) && DistinctRefs(log)
    requires var c := Chain(log, hash, n, BucketOf(hash, n, key));
             k < |c| && c[k].key == key && forall i :: 0 <= i < k ==> c[i].key != key
    ensures var b := BucketOf(hash, n, key);
            var c := Chain(log, hash, n, b);
            AllLinked(if k == 0 then heads[b := Next(links, c[0].ref)] else heads,
                      WithoutNewest(log, key), hash, n, Relink(c, k, links))
  {
    hide Linked, Chain, BucketOf, WithoutNewest, Next, At, Relink;
    var b := BucketOf(hash, n, key);
    var c, head := Chain(log, hash, n, b), Next(links, Chain(log, hash, n, b)[k].ref);
    ChainDistinct(log, hash, n, b);
    WithoutAt(c, key, k);
    LinkedSplice(heads[b], c, links, k);
    forall j: nat | j < n && j != b
      ensures Linked(heads[j], Chain(WithoutNewest(log, key), hash, n, j), Relink(c, k, links))
    {
      ChainDelete(log, hash, n, key, j);
      RelinkElsewhere(heads, log, hash, n, links, b, j, k);
    }
    ChainDelete(log, hash, n, key, b);
  }

  lemma RelinkElsewhere(heads: seq<CacheEntry?>, log: seq<Node>, hash: Hash, n: nat, links: Links,
                        b: nat, j: nat, k: nat)
    requires AllLinked(heads, log, hash, n, links) && DistinctRefs(log)
    requires j < n && j != b && k < |Chain(log, hash, n, b)|
    ensures Linked(heads[j], Chain(log, hash, n, j), Relink(Chain(log, hash, n, b), k, links))
  {
    hide Linked, Chain, DistinctRefs;
    var c := Chain(log, hash, n, b);
    if k > 0 {
      ChainsApart(log, hash, n, b, j, k - 1);
      LinkedElsewhere(heads[j], Chain(log, hash, n, j), links, c[k - 1].ref, Next(links, c[k].ref));
    }
  }

  lemma {:induction false} WithoutDistinctRefs(log: seq<Node>, key: seq<byte>)
    requires DistinctRefs(log)
    ensures DistinctRefs(WithoutNewest(log, key))
  {
    if log != [] && log[0].key != key {
      WithoutDistinctRefs(log[1..], key);
      var rest := WithoutNewest(log[1..], key);
      forall j | 0 <= j < |rest|
        ensures rest[j].ref != log[0].ref
      {
        assert rest[j] in log[1..];
      }
    }
  }

  lemma {:induction false} WithoutAbsent(log: seq<Node>, key: seq<byte>)
    requires Newest(log, key).None?
    ensures WithoutNewest(log, key) == log
  {
    if log != [] { WithoutAbsent(log[1..], key); }
  }

  /** Splicing at the first match is deleting the newest. */
  lemma {:induction false} WithoutAt(c: seq<Node>, key: seq<byte>, k: nat)
    requires k < |c| && c[k].key == key && forall i :: 0 <= i < k ==> c[i].key != key
    ensures WithoutNewest(c, key) == c[..k] + c[k + 1..]
  {
    if k == 0 {
      assert c[..0] + c[1..] == c[1..];
    } else {
      WithoutAt(c[1..], key, k - 1);
      assert c[..k] + c[k + 1..] == [c[0]] + (c[1..][..k - 1] + c[1..][k..]);
    }
  }

  // ---- the table -----------------------------------------------------------

  ghost function Refs(log: seq<Node>): set<CacheEntry> {
    set n | n in log :: n.ref
  }

  class Cache {
    const hash: Hash
    const nbuckets: nat
    const buckets: array<CacheEntry?>
    var count: nat
    ghost var log: seq<Node>
    ghost var links: Links

    /** The entries hold what the log says, and their links are `links`. */
    ghost predicate Contents()
      reads `log, `links, Refs(log)
    {
      forall n :: n in log ==>
        n.ref.key == n.key && n.ref.value == n.value && n.ref.next == Next(links, n.ref)
    }

    ghost predicate Valid()
      reads this, buckets, Refs(log)
    {
      && DistinctRefs(log) && Contents()
      && AllLinked(buckets[..], log, hash, nbuckets, links)
      && count == |log| % U32_MOD
    }

    constructor (hash: Hash, nbuckets: nat)
      ensures Valid() && log == [] && fresh(buckets) && this.hash == hash
      ensures this.nbuckets == if nbuckets == 0 then 256 else nbuckets
    {
      this.hash := hash;
      var n := if nbuckets == 0 then 256 else nbuckets;
      this.nbuckets := n;
      buckets := new CacheEntry?[n](_ => null);
      count, log, links := 0, [], map[];
    }

    function Bucket(key: seq<byte>): (b: nat)
      requires nbuckets > 0
      ensures b == BucketOf(hash, nbuckets, key) && b < nbuckets
    {
      hash(key) % nbuckets
    }

    lemma HasBuckets()
      requires Valid()
      ensures buckets.Length == nbuckets > 0
    {
    }

    /** CacheInsertEmpty: a new entry without a value at the head of its chain, ahead of all older ones. */
    method CacheInsertEmpty(key: seq<byte>) returns (e: CacheEntry)
      requires Valid()
      modifies this, buckets
      ensures Valid() && fresh(e) && log == [Node(e, key, None)] + old(log) && count == |log| % 0x1_0000_0000
      ensures var b := hash(key) % nbuckets;
              nbuckets == buckets.Length && b < nbuckets && buckets[b] == e && e.next == old(buckets[b])
    {
      hide Linked, BucketOf, Chain, DistinctRefs, AllLinked, Next, At;
      HasBuckets();
      ghost var refs, heads := Refs(log), buckets[..];
      e := new CacheEntry(key);
      assert e !in refs;
      assert forall n :: n in log ==> n.ref in refs;
      InsertLinked(heads, log, hash, nbuckets, links, Node(e, key, None));
      InsertDistinct(log, Node(e, key, None));
      var b := Bucket(key);
      e.next := buckets[b];
      buckets[b] := e;
      count := (count + 1) % U32_MOD;
      assert buckets[..] == heads[b := e];
      NextUpdated(links, e, e.next);
      links := links[e := e.next];
      log := [Node(e, key, None)] + log;
    }

    /** CacheSet: insert, then copy the value in, inline or into its own block. */
    method CacheSet(key: seq<byte>, value: seq<byte>) returns (status: int)
      requires Valid()
      modifies this, buckets
      ensures Valid() && status == 0
      ensures exists e :: fresh(e) && log == [Node(e, key, Some(value))] + old(log)
    {
      ghost var before := log;
      var e := CacheInsertEmpty(key);
      StoreValue(e, value, 0);
      assert log == [Node(e, key, Some(value))] + before;
      return CACHE_OK;
    }

    /** The value of the entry at position `i` of the log is replaced. */
    method StoreValue(e: CacheEntry, value: seq<byte>, ghost i: nat)
      requires Valid() && i < |log| && log[i].ref == e
      modifies this, e`value
      ensures Valid() && log == old(log)[i := old(log)[i].(value := Some(value))]
    {
      e.value := Some(value);
      SetValueLinked(buckets[..], log, hash, nbuckets, links, i, value);
      log := log[i := log[i].(value := Some(value))];
    }

    /** CacheStoreFast, for a value that fits the inline buffer. */
    method CacheStoreFast(e: CacheEntry, src: seq<byte>, ghost i: nat)
      requires Valid() && i < |log| && log[i].ref == e && |src| <= 64
      modifies this, e`value
      ensures Valid() && log == old(log)[i := old(log)[i].(value := Some(src))]
    {
      StoreValue(e, src, i);
    }

    /** The walk of one chain: where it starts, and what it finds at each step. */
    lemma Walk(b: nat, k: nat)
      requires Valid() && b < nbuckets
      ensures buckets.Length == nbuckets
      ensures var c := Chain(log, hash, nbuckets, b);
              buckets[b] == At(c, 0) &&
              (k < |c| ==> c[k] in log && c[k].ref.key == c[k].key && c[k].ref.value == c[k].value &&
                           c[k].ref.next == At(c, k + 1))
    {
      var c := Chain(log, hash, nbuckets, b);
      assert Linked(buckets[..][b], c, links);
      if k < |c| { assert c[k] in c; }
    }

    /** CacheGetRaw: the newest surviving entry stored under exactly this key. */
    method CacheGetRaw(key: seq<byte>) returns (e: CacheEntry?)
      requires Valid()
      ensures match Newest(log, key)
              case None => e == null
              case Some(n) => e == n.ref && e.key == key && e.value == n.value
    {
      hide BucketOf, Chain, Linked, AllLinked, WithoutNewest, Newest;
      HasBuckets();
      var b := Bucket(key);
      ghost var c := Chain(log, hash, nbuckets, b);
      ChainNewest(log, hash, nbuckets, key);
      Walk(b, 0);
      e := buckets[b];
      ghost var k := 0;
      while e != null
        invariant k <= |c| && e == At(c, k)
        invariant forall i :: 0 <= i < k ==> c[i].key != key
        decreases |c| - k
      {
        Walk(b, k);
        if e.key == key { break; }
        e, k := e.next, k + 1;
      }
      NewestAt(c, key, k);
    }

    /** CacheFree: `freed` is every entry handed to free_entry, in order; each entry of the log is there once. */
    method CacheFree() returns (ghost freed: seq<Node>)
      requires Valid()
      ensures DistinctRefs(freed) && forall n :: n in freed <==> n in log
    {
      hide BucketOf, Chain, Linked, AllLinked;
      HasBuckets();
      freed := [];
      for b := 0 to nbuckets
        invariant freed == ChainsTo(log, hash, nbuckets, b)
      {
        ghost var c := Chain(log, hash, nbuckets, b);
        Walk(b, 0);
        var e := buckets[b];
        ghost var k := 0;
        while e != null
          invariant k <= |c| && e == At(c, k) && freed == ChainsTo(log, hash, nbuckets, b) + c[..k]
          decreases |c| - k
        {
          Walk(b, k);
          freed := freed + [c[k]];
          e, k := e.next, k + 1;
        }
      }
      ChainsDistinct(log, hash, nbuckets, nbuckets);
      forall n: Node
        ensures n in freed <==> n in log
      {
        ChainsCover(log, hash, nbuckets, nbuckets, n);
      }
    }

    /** The walk of CacheDel: the first match in the chain and the entry before it, or NULL. */
    method Seek(key: seq<byte>) returns (b: nat, prev: CacheEntry?, e: CacheEntry?, ghost k: nat)
      requires Valid()
      ensures b == BucketOf(hash, nbuckets, key) && buckets.Length == nbuckets
      ensures var c := Chain(log, hash, nbuckets, b);
              k <= |c| && e == At(c, k) && prev == (if k == 0 then null else c[k - 1].ref) &&
              (forall i :: 0 <= i < k ==> c[i].key != key) && (k < |c| ==> c[k].key == key)
      ensures e == null <==> Newest(log, key).None?
    {
      hide BucketOf, Chain, Linked, AllLinked, WithoutNewest, Newest;
      HasBuckets();
      b := Bucket(key);
      ghost var c := Chain(log, hash, nbuckets, b);
      ChainNewest(log, hash, nbuckets, key);
      Walk(b, 0);
      prev, e, k := null, buckets[b], 0;
      while e != null
        invariant k <= |c| && e == At(c, k)
        invariant prev == if k == 0 then null else c[k - 1].ref
        invariant forall i :: 0 <= i < k ==> c[i].key != key
        decreases |c| - k
      {
        Walk(b, k);
        if e.key == key { break; }
        prev, e, k := e, e.next, k + 1;
      }
      NewestAt(c, key, k);
    }

    /** CacheDel, given the key it has normalised: only the newest store under the key goes. */
    method CacheDel(key: seq<byte>) returns (status: int)
      requires Valid()
      modifies this, buckets, Refs(log)
      ensures Valid() && log == WithoutNewest(old(log), key) && count == |log| % 0x1_0000_0000
      ensures status == if Newest(old(log), key).Some? then 0 else -3
    {
      hide BucketOf, Chain, Linked, AllLinked, WithoutNewest, DistinctRefs;
      var b, prev, e, k := Seek(key);
      if e == null {
        WithoutAbsent(log, key);
        return CACHE_ENOTFOUND;
      }
      Unlink(b, prev, e, k, key);
      return CACHE_OK;
    }

    /** Splices the entry at position `k` out of the key's chain and counts one fewer. */
    method Unlink(b: nat, prev: CacheEntry?, dead: CacheEntry, ghost k: nat, ghost key: seq<byte>)
      requires Valid() && b == BucketOf(hash, nbuckets, key)
      requires var c := Chain(log, hash, nbuckets, b);
               k < |c| && dead == c[k].ref && prev == (if k == 0 then null else c[k - 1].ref) &&
               c[k].key == key && forall i :: 0 <= i < k ==> c[i].key != key
      modifies this, buckets, Refs(log)
      ensures Valid() && log == WithoutNewest(old(log), key)
    {
      hide Linked, BucketOf, Chain, WithoutNewest, DistinctRefs, AllLinked;
      HasBuckets();
      ghost var c, heads := Chain(log, hash, nbuckets, b), buckets[..];
      assert c[k] in c && (k > 0 ==> c[k - 1] in c);
      DeleteLinked(heads, log, hash, nbuckets, links, key, k);
      WithoutDistinctRefs(log, key);
      if prev == null {
        buckets[b] := dead.next;
        assert heads[b := dead.next] == buckets[..];
      } else {
        prev.next := dead.next;
        assert heads == buckets[..];
      }
      count := if count == 0 then U32_MOD - 1 else count - 1;
      links := Relink(c, k, links);
      log := WithoutNewest(log, key);
    }
  }

  ghost predicate SameRefs(c: seq<Node>, c': seq<Node>) {
    |c'| == |c| && forall k :: 0 <= k < |c| ==> c'[k].ref == c[k].ref
  }

  lemma SameRefsCons(c: seq<Node>, c': seq<Node>, m: Node, m': Node)
    requires SameRefs(c, c') && m.ref == m'.ref
    ensures SameRefs([m] + c, [m'] + c')
  {
  }

  lemma {:induction false} ChainSetValue(log: seq<Node>, hash: Hash, n: nat, b: nat, i: nat, value: seq<byte>)
    requires n > 0 && i < |log|
    ensures SameRefs(Chain(log, hash, n, b), Chain(log[i := log[i].(value := Some(value))], hash, n, b))
  {
    hide Chain, BucketOf;
    var node, node', rest := log[0], log[0].(value := Some(value)), log[1..];
    var rest' := if i == 0 then rest else rest[i - 1 := rest[i - 1].(value := Some(value))];
    assert log == [node] + rest;
    ChainInsert(rest, node, hash, n, b);
    if i == 0 {
      assert log[i := node'] == [node'] + rest;
      ChainInsert(rest, node', hash, n, b);
      SameRefsCons(Chain(rest, hash, n, b), Chain(rest, hash, n, b), node, node');
    } else {
      hide SameRefs;
      assert log[i := log[i].(value := Some(value))] == [node] + rest';
      ChainSetValue(rest, hash, n, b, i - 1, value);
      ChainInsert(rest', node, hash, n, b);
      SameRefsCons(Chain(rest, hash, n, b), Chain(rest', hash, n, b), node, node);
    }
  }

  lemma LinkedSameRefs(head: CacheEntry?, c: seq<Node>, c': seq<Node>, links: Links)
    requires Linked(head, c, links) && SameRefs(c, c')
    ensures Linked(head, c', links)
  {
  }

  /** Changing a value moves no entry. */
  lemma SetValueLinked(heads: seq<CacheEntry?>, log: seq<Node>, hash: Hash, n: nat, links: Links,
                       i: nat, value: seq<byte>)
    requires AllLinked(heads, log, hash, n, links) && i < |log|
    ensures AllLinked(heads, log[i := log[i].(value := Some(value))], hash, n, links)
  {
    hide Chain, Linked;
    var log' := log[i := log[i].(value := Some(value))];
    forall b: nat | b < n
      ensures Linked(heads[b], Chain(log', hash, n, b), links)
    {
      var c, c' := Chain(log, hash, n, b), Chain(log', hash, n, b);
      ChainSetValue(log, hash, n, b, i, value);
      assert Linked(heads[b], c, links);
      LinkedSameRefs(heads[b], c, c', links);
    }
  }
}
