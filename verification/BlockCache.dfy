/** The local block cache of the TFS client: a search tree over (hash, key) and a queue in
    order of last use, holding the same nodes.

    Models modules/ngx_http_tfs_module/ngx_http_tfs_local_block_cache.c and the key order of
    ngx_http_tfs_block_cache.c. Red-black rebalancing is not part of this model: it may
    return any tree with the same nodes in the same order. */
module BlockCache {
  import opened Sequences

  const DISCARD_ITEM_COUNT: nat := 10000
  const STAT_COUNT: nat := 3000 * 60 * 60

  datatype Key = Key(nsAddr: nat, blockId: nat)

  /** A slab-allocated node; `id` is its address, `data` all the addresses it has room for,
      `count` how many of them a lookup hands out. */
  datatype Node = Node(id: nat, key: Key, hash: nat, count: nat, data: seq<nat>)

  datatype Tree = Leaf | Branch(left: Tree, node: Node, right: Tree)

  // ------------------------------------------------- the key order

  /** ngx_http_tfs_block_cache_cmp */
  function Cmp(left: Key, right: Key): int {
    if left.nsAddr == right.nsAddr then
      if left.blockId == right.blockId then 0 else if left.blockId < right.blockId then -1 else 1
    else if left.nsAddr < right.nsAddr then -1
    else 1
  }

  /** How the searches compare: by hash, then by key. */
  function Compare(hash: nat, key: Key, n: Node): int {
    if hash < n.hash then -1 else if hash > n.hash then 1 else Cmp(key, n.key)
  }

  predicate AtMost(a: Node, b: Node) {
    Compare(a.hash, a.key, b) <= 0
  }

  // ------------------------------------------------- trees and lists of nodes

  function Inorder(t: Tree): seq<Node> {
    match t
    case Leaf => []
    case Branch(l, n, r) => Inorder(l) + [n] + Inorder(r)
  }

  function Without(s: seq<Node>, n: Node): seq<Node> {
    if s == [] then [] else if s[0] == n then Without(s[1..], n) else [s[0]] + Without(s[1..], n)
  }

  /** No address occurs twice. */
  ghost predicate NoDup(s: seq<Node>) {
    forall i, j :: 0 <= i < j < |s| ==> s[i].id != s[j].id
  }

  ghost function Members(s: seq<Node>): set<Node> {
    set n | n in s
  }

  lemma {:induction false} WithoutAbsent(s: seq<Node>, n: Node)
    requires n !in s
    ensures Without(s, n) == s
  {
    if s != [] {
      WithoutAbsent(s[1..], n);
      assert s[0] in s;
    }
  }

  /** Taking a node out of a list without repetitions closes the gap it leaves. */
  lemma {:induction false} WithoutIsSplit(s: seq<Node>, p: nat)
    requires p < |s| && NoDup(s)
    ensures Without(s, s[p]) == s[..p] + s[p + 1..]
  {
    if p == 0 {
      WithoutAbsent(s[1..], s[0]);
    } else {
      WithoutIsSplit(s[1..], p - 1);
      SplitHead(s, p);
    }
  }

  lemma SplitHead(s: seq<Node>, p: nat)
    requires 0 < p < |s|
    ensures s[..p] + s[p + 1..] == [s[0]] + (s[1..][..p - 1] + s[1..][p..])
  {
  }

  // ------------------------------------------------- the search tree

  ghost predicate Sorted(s: seq<Node>) {
    forall i, j :: 0 <= i < j < |s| ==> AtMost(s[i], s[j])
  }

  /** The search loop of the lookups. */
  function Search(t: Tree, hash: nat, key: Key): Option<Node> {
    match t
    case Leaf => None
    case Branch(l, n, r) =>
      var c := Compare(hash, key, n);
      if c == 0 then Some(n) else Search(if c < 0 then l else r, hash, key)
  }

  lemma SortedParts(l: seq<Node>, n: Node, r: seq<Node>)
    requires Sorted(l + [n] + r)
    ensures Sorted(l) && Sorted(r)
    ensures forall i :: 0 <= i < |l| ==> AtMost(l[i], n)
    ensures forall i :: 0 <= i < |r| ==> AtMost(n, r[i])
  {
    var s := l + [n] + r;
    assert s[|l|] == n;
    assert forall i :: 0 <= i < |l| ==> s[i] == l[i];
    assert forall i :: 0 <= i < |r| ==> s[|l| + 1 + i] == r[i];
  }

  /** In a sorted tree the search finds a node with the key if and only if there is one. */
  lemma {:induction false} SearchFinds(t: Tree, hash: nat, key: Key)
    requires Sorted(Inorder(t))
    ensures match Search(t, hash, key)
            case Some(n) => n in Inorder(t) && n.hash == hash && n.key == key
            case None => forall n :: n in Inorder(t) ==> !(n.hash == hash && n.key == key)
  {
    match t
    case Leaf =>
    case Branch(l, n, r) =>
      SortedParts(Inorder(l), n, Inorder(r));
      SearchFinds(l, hash, key);
      SearchFinds(r, hash, key);
  }

  /** The descent of ngx_http_tfs_local_block_cache_rbtree_insert_value. */
  function InsertLeaf(t: Tree, n: Node): Tree {
    match t
    case Leaf => Branch(Leaf, n, Leaf)
    case Branch(l, x, r) =>
      if Compare(n.hash, n.key, x) < 0 then Branch(InsertLeaf(l, n), x, r) else Branch(l, x, InsertLeaf(r, n))
  }

  /** `r` is `s` with `n` put in after the `k` nodes that are not above it. */
  ghost predicate InsertedAt(s: seq<Node>, n: Node, k: nat, r: seq<Node>) {
    && k <= |s| && r == s[..k] + [n] + s[k..]
    && (forall i :: 0 <= i < k ==> AtMost(s[i], n))
    && (forall i :: k <= i < |s| ==> AtMost(n, s[i]))
  }

  lemma InsertedLeft(l: seq<Node>, x: Node, r: seq<Node>, n: Node, k: nat, l': seq<Node>)
    requires InsertedAt(l, n, k, l') && AtMost(n, x)
    requires forall i :: 0 <= i < |r| ==> AtMost(x, r[i])
    ensures InsertedAt(l + [x] + r, n, k, l' + [x] + r)
  {
    var s := l + [x] + r;
    assert s[..k] == l[..k] && s[k..] == l[k..] + [x] + r;
    assert forall i :: 0 <= i < |r| ==> s[|l| + 1 + i] == r[i];
  }

  lemma InsertedRight(l: seq<Node>, x: Node, r: seq<Node>, n: Node, k: nat, r': seq<Node>)
    requires InsertedAt(r, n, k, r') && AtMost(x, n)
    requires forall i :: 0 <= i < |l| ==> AtMost(l[i], x)
    ensures InsertedAt(l + [x] + r, n, |l| + 1 + k, l + [x] + r')
  {
    var s := l + [x] + r;
    assert s[..|l| + 1 + k] == l + [x] + r[..k] && s[|l| + 1 + k..] == r[k..];
    assert forall i :: 0 <= i < |l| ==> s[i] == l[i];
  }

  lemma {:induction false} InsertLeafSplits(t: Tree, n: Node) returns (k: nat)
    requires Sorted(Inorder(t))
    ensures InsertedAt(Inorder(t), n, k, Inorder(InsertLeaf(t, n)))
  {
    match t
    case Leaf => k := 0;
    case Branch(l, x, r) =>
      SortedParts(Inorder(l), x, Inorder(r));
      if Compare(n.hash, n.key, x) < 0 {
        k := InsertLeafSplits(l, n);
        InsertedLeft(Inorder(l), x, Inorder(r), n, k, Inorder(InsertLeaf(l, n)));
      } else {
        k := InsertLeafSplits(r, n);
        InsertedRight(Inorder(l), x, Inorder(r), n, k, Inorder(InsertLeaf(r, n)));
        k := |Inorder(l)| + 1 + k;
      }
  }

  lemma InsertedSorted(s: seq<Node>, n: Node, k: nat, r: seq<Node>)
    requires Sorted(s) && InsertedAt(s, n, k, r)
    ensures Sorted(r)
  {
    assert forall i :: 0 <= i < |r| ==> r[i] == if i < k then s[i] else if i == k then n else s[i - 1];
  }

  // ------------------------------------------------- tree and queue together

  /** The tree is searchable, and tree and queue hold the same nodes, each once. */
  ghost predicate Consistent(tree: Tree, queue: seq<Node>) {
    && Sorted(Inorder(tree)) && NoDup(Inorder(tree)) && NoDup(queue)
    && Members(Inorder(tree)) == Members(queue)
  }

  /** Any rotations and recolourings: the same nodes in the same order. */
  ghost predicate Rebalances(fix: Tree -> Tree, delete: (Tree, Node) -> Tree) {
    && (forall t :: Inorder(fix(t)) == Inorder(t))
    && (forall t, n :: Inorder(delete(t, n)) == Without(Inorder(t), n))
  }

  lemma PutMembers(s: seq<Node>, n: Node, k: nat)
    requires k <= |s|
    ensures Members(s[..k] + [n] + s[k..]) == Members(s) + {n}
  {
    assert s == s[..k] + s[k..];
  }

  /** A list with one more node put in at `k`. */
  lemma PutFacts(s: seq<Node>, n: Node, k: nat, r: seq<Node>)
    requires NoDup(s) && k <= |s| && r == s[..k] + [n] + s[k..]
    requires forall i :: 0 <= i < |s| ==> s[i].id != n.id
    ensures NoDup(r) && Members(r) == Members(s) + {n}
  {
    PutMembers(s, n, k);
    assert NoDup(r) by {
      assert forall i :: 0 <= i < |r| ==> r[i] == if i < k then s[i] else if i == k then n else s[i - 1];
    }
  }

  lemma InsertConsistent(tree: Tree, queue: seq<Node>, n: Node, tree': Tree)
    requires Consistent(tree, queue) && Inorder(tree') == Inorder(InsertLeaf(tree, n))
    requires forall m :: m in queue ==> m.id != n.id
    ensures Consistent(tree', [n] + queue)
  {
    var k := InsertLeafSplits(tree, n);
    InsertedSorted(Inorder(tree), n, k, Inorder(tree'));
    assert forall i :: 0 <= i < |Inorder(tree)| ==> Inorder(tree)[i] in Members(queue);
    PutFacts(Inorder(tree), n, k, Inorder(tree'));
    PutFacts(queue, n, 0, [n] + queue);
  }

  /** What is left of a list after taking out the element at `p`. */
  lemma SplitFacts(s: seq<Node>, p: nat, r: seq<Node>)
    requires p < |s| && NoDup(s) && r == s[..p] + s[p + 1..]
    ensures NoDup(r) && (Sorted(s) ==> Sorted(r))
    ensures Members(r) == Members(s) - {s[p]}
    ensures forall i :: 0 <= i < |r| ==> r[i].id != s[p].id
  {
    assert forall i :: 0 <= i < |r| ==> r[i] == if i < p then s[i] else s[i + 1];
    forall m | m in s && m != s[p] ensures m in r {
      var i :| 0 <= i < |s| && s[i] == m;
      assert r[if i < p then i else i - 1] == m;
    }
  }

  lemma DeleteConsistent(tree: Tree, queue: seq<Node>, p: nat, tree': Tree)
    requires Consistent(tree, queue) && p < |queue|
    requires Inorder(tree') == Without(Inorder(tree), queue[p])
    ensures Consistent(tree', queue[..p] + queue[p + 1..])
  {
    var s := Inorder(tree);
    assert queue[p] in Members(s);
    var i :| 0 <= i < |s| && s[i] == queue[p];
    WithoutIsSplit(s, i);
    SplitFacts(s, i, Inorder(tree'));
    SplitFacts(queue, p, queue[..p] + queue[p + 1..]);
  }

  /** Moving a node to the head of the queue, as every hit does. */
  lemma TouchConsistent(tree: Tree, queue: seq<Node>, p: nat, r: seq<Node>)
    requires Consistent(tree, queue) && p < |queue| && r == queue[..p] + queue[p + 1..]
    ensures Consistent(tree, [queue[p]] + r)
  {
    SplitFacts(queue, p, r);
    assert [queue[p]] + r == r[..0] + [queue[p]] + r[0..];
    PutFacts(r, queue[p], 0, [queue[p]] + r);
    assert queue[p] in Members(queue);
  }

  // ------------------------------------------------- what is stored

  /** `len` as it is stored: the word count is cut to one byte, and so is eight times it. */
  function Len(n: nat): nat {
    (n % 256 * 8) % 256
  }

  lemma Remainder32(x: nat, q: nat, r: nat)
    requires x == 32 * q + r && r < 32
    ensures x % 32 == r
  {
  }

  lemma Remainder256(x: nat, q: nat, r: nat)
    requires x == 256 * q + r && r < 256
    ensures x % 256 == r
  {
  }

  lemma LenIs(n: nat)
    ensures Len(n) == 8 * (n % 32)
  {
    var b := n % 256;
    var c, d := b / 32, b % 32;
    Remainder32(n, 8 * (n / 256) + c, d);
    Remainder256(b * 8, c, 8 * d);
  }

  /** How many of `n` words are copied. */
  function CopiedWords(n: nat): (k: nat)
    ensures k == n % 32
  {
    LenIs(n);
    Len(n) / 8
  }

  /** The words a node holds after the copy; the rest is what the slab held before. */
  function Copied(addrs: seq<nat>, slab: seq<nat>): (data: seq<nat>)
    requires |slab| == |addrs|
    ensures |data| == |addrs|
  {
    addrs[..CopiedWords(|addrs|)] + slab[CopiedWords(|addrs|)..]
  }

  /** What a lookup hands out: `count` is two bytes wide. */
  function Stored(addrs: seq<nat>, slab: seq<nat>): seq<nat>
    requires |slab| == |addrs|
  {
    Copied(addrs, slab)[..|addrs| % 65536]
  }

  /** What is handed out, word by word: the list's length is kept in two bytes, and the length
      of the copy in one, so the slab shows through after the copied words. */
  lemma StoredWords(addrs: seq<nat>, slab: seq<nat>)
    requires |slab| == |addrs|
    ensures |Stored(addrs, slab)| == |addrs| % 65536
    ensures forall i :: 0 <= i < |addrs| % 65536 ==>
              Stored(addrs, slab)[i] == if i < |addrs| % 32 then addrs[i] else slab[i]
  {
  }

  lemma StoredShort(addrs: seq<nat>, slab: seq<nat>)
    requires |slab| == |addrs| <= 31
    ensures Stored(addrs, slab) == addrs
  {
    assert CopiedWords(|addrs|) == |addrs| && |addrs| % 65536 == |addrs|;
  }

  /** More than 31 addresses: some slab contents show through, or the list is cut short. */
  lemma StoredInexact(addrs: seq<nat>) returns (slab: seq<nat>)
    requires |addrs| > 31
    ensures |slab| == |addrs| && Stored(addrs, slab) != addrs
  {
    slab := seq(|addrs|, i requires 0 <= i < |addrs| => addrs[i] + 1);
    var k := CopiedWords(|addrs|);
    assert Copied(addrs, slab)[k] == addrs[k] + 1;
    if |Stored(addrs, slab)| == |addrs| {
      assert Stored(addrs, slab)[k] == addrs[k] + 1;
    }
  }

  /** A stored address list reads back exactly, whatever the slab held, if and only if it
      has at most 31 addresses. */
  lemma StoredExact(addrs: seq<nat>)
    ensures (forall slab: seq<nat> :: |slab| == |addrs| ==> Stored(addrs, slab) == addrs) <==> |addrs| <= 31
  {
    if |addrs| > 31 {
      var slab := StoredInexact(addrs);
    } else {
      forall slab: seq<nat> | |slab| == |addrs| ensures Stored(addrs, slab) == addrs {
        StoredShort(addrs, slab);
      }
    }
  }

  /** Inserting under a key that the tree already has leaves the older node in front: the
      search answers with the new node if and only if the key was not there. */
  lemma {:induction false} OlderNodeWins(t: Tree, n: Node)
    ensures Search(InsertLeaf(t, n), n.hash, n.key)
         == if Search(t, n.hash, n.key).None? then Some(n) else Search(t, n.hash, n.key)
  {
    match t
    case Leaf =>
    case Branch(l, x, r) =>
      OlderNodeWins(l, n);
      OlderNodeWins(r, n);
  }

  // ------------------------------------------------- order of use

  /** From most to least recently used. */
  ghost predicate ByRecency(queue: seq<Node>, lastUse: map<nat, nat>, clock: nat) {
    && (forall i :: 0 <= i < |queue| ==> queue[i].id in lastUse && lastUse[queue[i].id] < clock)
    && (forall i, j :: 0 <= i < j < |queue| ==> lastUse[queue[i].id] > lastUse[queue[j].id])
  }

  lemma TouchRecency(queue: seq<Node>, lastUse: map<nat, nat>, clock: nat, p: nat)
    requires ByRecency(queue, lastUse, clock) && p < |queue|
    ensures ByRecency([queue[p]] + (queue[..p] + queue[p + 1..]), lastUse[queue[p].id := clock], clock + 1)
  {
    var r := queue[..p] + queue[p + 1..];
    assert forall i :: 0 <= i < |r| ==> r[i] == if i < p then queue[i] else queue[i + 1];
  }

  // ------------------------------------------------- lookups as functions of the state

  /** The queue after one lookup. */
  function Touched(tree: Tree, queue: seq<Node>, hash: nat, key: Key): seq<Node> {
    match Search(tree, hash, key)
    case None => queue
    case Some(n) => [n] + Without(queue, n)
  }

  /** The queue after looking up the first `n` of `keys` one by one. */
  function TouchedAll(tree: Tree, queue: seq<Node>, hashOf: Key -> nat, keys: seq<Key>, n: nat): seq<Node>
    requires n <= |keys|
  {
    if n == 0 then queue
    else Touched(tree, TouchedAll(tree, queue, hashOf, keys, n - 1), hashOf(keys[n - 1]), keys[n - 1])
  }

  /** What a hit hands out. */
  function Value(n: Node): seq<nat> {
    if n.count <= |n.data| then n.data[..n.count] else n.data
  }

  /** The answers to those of the first `n` keys that are stored, in order. */
  function Answers(tree: Tree, hashOf: Key -> nat, keys: seq<Key>, n: nat): seq<(Key, seq<nat>)>
    requires n <= |keys|
  {
    if n == 0 then []
    else Answers(tree, hashOf, keys, n - 1) + Answer(tree, hashOf, keys[n - 1])
  }

  function Answer(tree: Tree, hashOf: Key -> nat, k: Key): seq<(Key, seq<nat>)> {
    match Search(tree, hashOf(k), k)
    case None => []
    case Some(m) => [(k, Value(m))]
  }

  datatype Result = Found(value: seq<nat>) | Declined | Failed

  datatype BatchStatus = AllHit | SomeMissed | BatchFailed

  /** The counters after `hits` more hits: both start again once enough hits are counted. */
  function AfterHits(hitCount: nat, missCount: nat, hits: nat): (nat, nat) {
    if hitCount + hits >= STAT_COUNT then (0, 0) else (hitCount + hits, missCount)
  }

  /** How many of `n` nodes a discard keeps. */
  function Kept(n: nat): nat {
    if n < DISCARD_ITEM_COUNT then 0 else n - DISCARD_ITEM_COUNT
  }

  /** Every node keeps its own hash. */
  ghost predicate Hashed(queue: seq<Node>, hashOf: Key -> nat) {
    forall n :: n in queue ==> n.hash == hashOf(n.key)
  }

  /** The search decides whether the key is cached, and answers with a node that caches it. */
  lemma SearchDecides(tree: Tree, queue: seq<Node>, hashOf: Key -> nat, key: Key)
    requires Consistent(tree, queue) && Hashed(queue, hashOf)
    ensures match Search(tree, hashOf(key), key)
            case Some(n) => n in queue && n.key == key
            case None => forall n :: n in queue ==> n.key != key
  {
    SearchFinds(tree, hashOf(key), key);
    assert forall n :: n in Inorder(tree) <==> n in Members(queue);
  }

  /** Node `p`, which caches `key` with `value`, has moved to the head of the queue; the others
      stay in their order. */
  ghost predicate MovedFirst(before: seq<Node>, after: seq<Node>, p: nat, key: Key, value: seq<nat>) {
    && p < |before| && before[p].key == key && Value(before[p]) == value
    && after == [before[p]] + (before[..p] + before[p + 1..])
  }

  /** What a lookup does to the queue: a hit moves its node to the head, a miss does nothing. */
  lemma TouchedMoves(tree: Tree, queue: seq<Node>, hashOf: Key -> nat, key: Key)
    requires Consistent(tree, queue) && Hashed(queue, hashOf)
    ensures match Search(tree, hashOf(key), key)
            case None => Touched(tree, queue, hashOf(key), key) == queue
            case Some(n) => exists p :: MovedFirst(queue, Touched(tree, queue, hashOf(key), key), p, key, Value(n))
  {
    SearchDecides(tree, queue, hashOf, key);
    match Search(tree, hashOf(key), key)
    case None =>
    case Some(n) =>
      var p :| 0 <= p < |queue| && queue[p] == n;
      WithoutIsSplit(queue, p);
      assert MovedFirst(queue, Touched(tree, queue, hashOf(key), key), p, key, Value(n));
  }

  /** A node inserted under a fresh key is the one found, however the tree is rebalanced. */
  lemma InsertedIsFound(tree: Tree, queue: seq<Node>, hashOf: Key -> nat, n: Node, tree': Tree)
    requires Consistent(tree, queue) && Hashed(queue, hashOf) && n.hash == hashOf(n.key)
    requires Inorder(tree') == Inorder(InsertLeaf(tree, n))
    requires forall m :: m in queue ==> m.id != n.id && m.key != n.key
    ensures Search(tree', n.hash, n.key) == Some(n)
  {
    InsertConsistent(tree, queue, n, tree');
    SearchDecides(tree', [n] + queue, hashOf, n.key);
    assert n in [n] + queue;
  }

  /** After an insertion, and whatever the rebalancing, the key finds the new node, if and only
      if it was not cached before. */
  lemma InsertedIsFoundIff(tree: Tree, queue: seq<Node>, hashOf: Key -> nat, n: Node)
    requires Consistent(tree, queue) && Hashed(queue, hashOf) && n.hash == hashOf(n.key)
    requires forall m :: m in queue ==> m.id != n.id
    ensures (forall tree' :: Inorder(tree') == Inorder(InsertLeaf(tree, n)) ==> Search(tree', n.hash, n.key) == Some(n))
       <==> (forall m :: m in queue ==> m.key != n.key)
  {
    if forall m :: m in queue ==> m.key != n.key {
      forall tree' | Inorder(tree') == Inorder(InsertLeaf(tree, n)) ensures Search(tree', n.hash, n.key) == Some(n) {
        InsertedIsFound(tree, queue, hashOf, n, tree');
      }
    } else {
      SearchDecides(tree, queue, hashOf, n.key);
      OlderNodeWins(tree, n);
      assert Search(InsertLeaf(tree, n), n.hash, n.key) != Some(n);
    }
  }

  lemma TouchedKeeps(tree: Tree, queue: seq<Node>, hashOf: Key -> nat, key: Key, lastUse: map<nat, nat>, clock: nat)
    requires Consistent(tree, queue) && Hashed(queue, hashOf) && ByRecency(queue, lastUse, clock)
    ensures Consistent(tree, Touched(tree, queue, hashOf(key), key))
    ensures Hashed(Touched(tree, queue, hashOf(key), key), hashOf)
    ensures match Search(tree, hashOf(key), key)
            case None => true
            case Some(n) => ByRecency(Touched(tree, queue, hashOf(key), key), lastUse[n.id := clock], clock + 1)
  {
    SearchDecides(tree, queue, hashOf, key);
    match Search(tree, hashOf(key), key)
    case None =>
    case Some(n) =>
      var p :| 0 <= p < |queue| && queue[p] == n;
      WithoutIsSplit(queue, p);
      TouchConsistent(tree, queue, p, Without(queue, n));
      TouchRecency(queue, lastUse, clock, p);
      TouchHashed(queue, hashOf, p);
  }

  lemma TouchHashed(queue: seq<Node>, hashOf: Key -> nat, p: nat)
    requires Hashed(queue, hashOf) && p < |queue|
    ensures Hashed([queue[p]] + (queue[..p] + queue[p + 1..]), hashOf)
  {
  }

  lemma InsertKeeps(
      tree: Tree, queue: seq<Node>, hashOf: Key -> nat, n: Node, tree': Tree, lastUse: map<nat, nat>, clock: nat)
    requires Consistent(tree, queue) && Hashed(queue, hashOf) && ByRecency(queue, lastUse, clock)
    requires Inorder(tree') == Inorder(InsertLeaf(tree, n)) && n.hash == hashOf(n.key)
    requires forall m :: m in queue ==> m.id != n.id
    ensures Consistent(tree', [n] + queue) && Hashed([n] + queue, hashOf)
    ensures ByRecency([n] + queue, lastUse[n.id := clock], clock + 1)
    ensures (forall m :: m in queue ==> m.key != n.key) ==> Search(tree', n.hash, n.key) == Some(n)
  {
    InsertConsistent(tree, queue, n, tree');
    NewestFirst(queue, n, lastUse, clock);
    if forall m :: m in queue ==> m.key != n.key {
      InsertedIsFound(tree, queue, hashOf, n, tree');
    }
  }

  lemma NewestFirst(queue: seq<Node>, n: Node, lastUse: map<nat, nat>, clock: nat)
    requires ByRecency(queue, lastUse, clock) && forall m :: m in queue ==> m.id != n.id
    ensures ByRecency([n] + queue, lastUse[n.id := clock], clock + 1)
  {
    var q := [n] + queue;
    assert forall i :: 0 < i < |q| ==> q[i] == queue[i - 1] && q[i] in queue;
  }

  class Cache {
    const hashOf: Key -> nat
    const fix: Tree -> Tree
    const delete: (Tree, Node) -> Tree
    var tree: Tree
    var queue: seq<Node>
    var hitCount: nat
    var missCount: nat
    ghost var lastUse: map<nat, nat>
    ghost var clock: nat

    ghost predicate Valid()
      reads this
    {
      && Rebalances(fix, delete)
      && Consistent(tree, queue) && Hashed(queue, hashOf) && ByRecency(queue, lastUse, clock)
    }

    /** init_zone */
    constructor (hashOf: Key -> nat, fix: Tree -> Tree, delete: (Tree, Node) -> Tree)
      requires Rebalances(fix, delete)
      ensures Valid() && queue == [] && hitCount == 0 && missCount == 0
      ensures this.hashOf == hashOf
    {
      this.hashOf, this.fix, this.delete := hashOf, fix, delete;
      tree, queue, hitCount, missCount := Leaf, [], 0, 0;
      lastUse, clock := map[], 0;
    }

    method FindNode(key: Key) returns (r: Option<Node>)
      ensures r == Search(tree, hashOf(key), key)
    {
      var node, hash := tree, hashOf(key);
      while node != Leaf
        invariant Search(node, hash, key) == Search(tree, hash, key)
        decreases node
      {
        var c := Compare(hash, key, node.node);
        if c == 0 {
          return Some(node.node);
        }
        node := if c < 0 then node.left else node.right;
      }
      return None;
    }

    method CountHits(hits: nat)
      modifies `hitCount, `missCount
      ensures (hitCount, missCount) == AfterHits(old(hitCount), old(missCount), hits)
      ensures old(hitCount) + hits < STAT_COUNT ==> hitCount == old(hitCount) + hits && missCount == old(missCount)
      ensures STAT_COUNT <= old(hitCount) + hits ==> hitCount == 0 && missCount == 0
    {
      hitCount := hitCount + hits;
      if hitCount >= STAT_COUNT {
        hitCount, missCount := 0, 0;
      }
    }

    method Touch(n: Node, ghost key: Key)
      requires Valid() && Search(tree, hashOf(key), key) == Some(n)
      modifies `queue, `lastUse, `clock
      ensures Valid() && queue == Touched(tree, old(queue), hashOf(key), key)
    {
      TouchedKeeps(tree, queue, hashOf, key, lastUse, clock);
      queue := [n] + Without(queue, n);
      lastUse, clock := lastUse[n.id := clock], clock + 1;
    }

    /** What both lookups do with one key; `canAlloc` says whether the pool can hold the
        answer. */
    method Visit(key: Key, canAlloc: bool) returns (r: Result)
      requires Valid()
      modifies `queue, `lastUse, `clock, `missCount
      ensures Valid()
      ensures r == match Search(tree, hashOf(key), key) {
                   case None => Declined
                   case Some(n) => if canAlloc then Found(Value(n)) else Failed
                   }
      ensures queue == if canAlloc then Touched(tree, old(queue), hashOf(key), key) else old(queue)
      ensures missCount == old(missCount) + if r.Declined? then 1 else 0
    {
      var found := FindNode(key);
      if found.None? {
        missCount := missCount + 1;
        return Declined;
      }
      if !canAlloc {
        return Failed;
      }
      Touch(found.value, key);
      return Found(Value(found.value));
    }

    /** ngx_http_tfs_local_block_cache_lookup */
    method Lookup(key: Key, canAlloc: bool) returns (r: Result)
      requires Valid()
      modifies `queue, `lastUse, `clock, `hitCount, `missCount
      ensures Valid()
      ensures r.Declined? <==> forall n :: n in old(queue) ==> n.key != key
      ensures r.Found? ==> canAlloc && exists n :: n in old(queue) && n.key == key && r.value == Value(n)
      ensures !r.Failed? ==> Answer(tree, hashOf, key) == if r.Found? then [(key, r.value)] else []
      ensures r.Failed? ==> !canAlloc
      ensures queue == if canAlloc then Touched(tree, old(queue), hashOf(key), key) else old(queue)
      ensures (hitCount, missCount) == match r {
              case Found(_) => AfterHits(old(hitCount), old(missCount), 1)
              case Declined => (old(hitCount), old(missCount) + 1)
              case Failed => (old(hitCount), old(missCount))
              }
    {
      SearchDecides(tree, queue, hashOf, key);
      r := Visit(key, canAlloc);
      if r.Found? {
        CountHits(1);
      }
    }

    /** The loop of the batch lookup; allocating the answer to key `failAt` fails, if there is
        such a key and it is cached. */
    method VisitAll(keys: seq<Key>, failAt: nat) returns (kvs: seq<(Key, seq<nat>)>, done: nat)
      requires Valid()
      modifies `queue, `lastUse, `clock, `missCount
      ensures Valid()
      ensures done <= |keys| && |kvs| <= done
      ensures kvs == Answers(tree, hashOf, keys, done)
      ensures queue == TouchedAll(tree, old(queue), hashOf, keys, done)
      ensures done < |keys| <==> failAt < |keys| && Search(tree, hashOf(keys[failAt]), keys[failAt]).Some?
      ensures done < |keys| ==> done == failAt
      ensures missCount == old(missCount) + done - |kvs|
    {
      kvs, done := [], 0;
      while done < |keys|
        invariant done <= |keys| && |kvs| <= done && Valid()
        invariant kvs == Answers(tree, hashOf, keys, done)
        invariant queue == TouchedAll(tree, old(queue), hashOf, keys, done)
        invariant failAt < done ==> Search(tree, hashOf(keys[failAt]), keys[failAt]).None?
        invariant missCount == old(missCount) + done - |kvs|
      {
        var r := Visit(keys[done], done != failAt);
        if r.Failed? {
          return;
        }
        assert Answer(tree, hashOf, keys[done]) == if r.Found? then [(keys[done], r.value)] else [];
        if r.Found? {
          kvs := kvs + [(keys[done], r.value)];
        }
        done := done + 1;
      }
    }

    /** ngx_http_tfs_local_block_cache_batch_lookup: in answers and in order of use it is the
        keys looked up one by one. */
    method BatchLookup(keys: seq<Key>, failAt: nat) returns (status: BatchStatus, kvs: seq<(Key, seq<nat>)>, done: nat)
      requires Valid()
      modifies `queue, `lastUse, `clock, `hitCount, `missCount
      ensures Valid()
      ensures done <= |keys| && |kvs| <= done
      ensures kvs == Answers(tree, hashOf, keys, done)
      ensures queue == TouchedAll(tree, old(queue), hashOf, keys, done)
      ensures done < |keys| <==> failAt < |keys| && Search(tree, hashOf(keys[failAt]), keys[failAt]).Some?
      ensures done < |keys| ==> done == failAt
      ensures status == if done < |keys| || keys == [] then BatchFailed
                        else if |kvs| < |keys| then SomeMissed
                        else AllHit
      ensures done < |keys| ==> hitCount == old(hitCount) && missCount == old(missCount) + done - |kvs|
      ensures done == |keys| ==> (hitCount, missCount) == AfterHits(old(hitCount), old(missCount) + done - |kvs|, |kvs|)
    {
      kvs, done := VisitAll(keys, failAt);
      if done < |keys| {
        return BatchFailed, kvs, done;
      }
      CountHits(|kvs|);
      status := if keys == [] then BatchFailed else if |kvs| < |keys| then SomeMissed else AllHit;
    }

    /** The keys looked up one by one: answers and order of use are those of the batch lookup. */
    method LookupAll(keys: seq<Key>) returns (kvs: seq<(Key, seq<nat>)>)
      requires Valid()
      modifies `queue, `lastUse, `clock, `hitCount, `missCount
      ensures Valid()
      ensures kvs == Answers(tree, hashOf, keys, |keys|)
      ensures queue == TouchedAll(tree, old(queue), hashOf, keys, |keys|)
    {
      kvs := [];
      for i := 0 to |keys|
        invariant Valid()
        invariant kvs == Answers(tree, hashOf, keys, i)
        invariant queue == TouchedAll(tree, old(queue), hashOf, keys, i)
      {
        var r := Lookup(keys[i], true);
        if r.Found? {
          kvs := kvs + [(keys[i], r.value)];
        }
      }
    }

    /** The node used longest ago leaves tree and queue. */
    method DropLast()
      requires Valid() && queue != []
      modifies `tree, `queue
      ensures Valid() && queue == old(queue)[..|old(queue)| - 1]
    {
      var last := |queue| - 1;
      DeleteConsistent(tree, queue, last, delete(tree, queue[last]));
      assert queue[..last] + queue[last + 1..] == queue[..last];
      tree := delete(tree, queue[last]);
      queue := queue[..last];
    }

    /** ngx_http_tfs_local_block_cache_discard */
    method Discard()
      requires Valid()
      modifies `tree, `queue
      ensures Valid()
      ensures queue == old(queue)[..Kept(|old(queue)|)]
      ensures |queue| == if |old(queue)| < 10000 then 0 else |old(queue)| - 10000
      ensures forall i, j :: 0 <= i < |queue| <= j < |old(queue)| ==>
                lastUse[old(queue)[i].id] > lastUse[old(queue)[j].id]
    {
      for i := 0 to DISCARD_ITEM_COUNT
        invariant Valid()
        invariant i <= |old(queue)| && queue == old(queue)[..|old(queue)| - i]
      {
        if queue == [] {
          return;
        }
        DropLast();
      }
    }

    /** Fills a fresh node and links it into tree and queue. */
    method Link(n: Node)
      requires Valid() && n.hash == hashOf(n.key)
      requires forall m :: m in queue ==> m.id != n.id
      modifies `tree, `queue, `lastUse, `clock
      ensures Valid() && queue == [n] + old(queue)
      ensures (forall m :: m in old(queue) ==> m.key != n.key) ==> Search(tree, n.hash, n.key) == Some(n)
    {
      var tree' := fix(InsertLeaf(tree, n));
      InsertKeeps(tree, queue, hashOf, n, tree', lastUse, clock);
      tree := tree';
      queue := [n] + queue;
      lastUse, clock := lastUse[n.id := clock], clock + 1;
    }

    /** ngx_http_tfs_local_block_cache_insert; `first` and `second` are the slab's answers to
        the two attempts, `id` the address it hands out, `slab` what that memory held. The
        address is new among the nodes that are left: after a discard it may be one that the
        discard has freed. */
    method Insert(key: Key, addrs: seq<nat>, id: nat, slab: seq<nat>, first: bool, second: bool) returns (ok: bool)
      requires Valid() && |slab| == |addrs|
      requires first || second ==>
                 forall n :: n in queue[..if first then |queue| else Kept(|queue|)] ==> n.id != id
      modifies `tree, `queue, `lastUse, `clock
      ensures Valid() && ok == (first || second)
      ensures var kept := old(queue)[..if first then |old(queue)| else Kept(|old(queue)|)];
              if ok then
                |queue| > 0 && queue[1..] == kept && queue[0].key == key && Value(queue[0]) == Stored(addrs, slab)
              else queue == kept
      ensures ok && (forall n :: n in queue[1..] ==> n.key != key) ==>
                Search(tree, hashOf(key), key) == Some(queue[0])
    {
      if !first {
        Discard();
        if !second {
          return false;
        }
      }
      Link(Node(id, key, hashOf(key), |addrs| % 65536, Copied(addrs, slab)));
      return true;
    }
  }
}
