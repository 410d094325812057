/** The path trie of the shared-memory library: nodes chained through per-node hash tables,
    all carved out of one bump pool that can run out at any point.

    Models ngx_shm_trie_add and ngx_shm_trie_search, with the hash table and pool beneath
    them, in modules/mod_common/ngx_comm_shm.c. Node addresses are indices into `nodes`;
    data pointers are numbers and 0 is NULL. */
module PathTrie {
  import opened CommString
  import opened Sequences

  const MAX_SEGMENTS: nat := 64
  const SLASH: Byte := 0x2f
  const TWO64: nat := 0x1_0000_0000_0000_0000

  const SIZEOF_TRIE_NODE: nat := 32
  const SIZEOF_HASH_NODE: nat := 24
  const SIZEOF_HASH: nat := 32
  const SIZEOF_QUEUE: nat := 16

  // ------------------------------------------------- comparing segments

  function Lower(c: Byte): Byte {
    if 0x41 <= c <= 0x5a then c + 0x20 else c
  }

  function LowerAll(s: seq<Byte>): seq<Byte> {
    seq(|s|, i requires 0 <= i < |s| => Lower(s[i]))
  }

  /** ngx_strncasecmp(a, b, n) == 0: equal up to case, and a NUL ends the comparison. */
  predicate SameUntilNul(a: seq<Byte>, b: seq<Byte>)
    requires |a| == |b|
  {
    a == [] || (Lower(a[0]) == Lower(b[0]) && (a[0] == 0 || SameUntilNul(a[1..], b[1..])))
  }

  /** ngx_comm_strcasecmp(a, b) == 0 */
  predicate CaseEqual(a: seq<Byte>, b: seq<Byte>) {
    |a| == |b| && SameUntilNul(a, b)
  }

  /** ngx_hash_key_lc */
  function HashLower(s: seq<Byte>): nat {
    if s == [] then 0 else (HashLower(s[..|s| - 1]) * 31 + Lower(s[|s| - 1])) % TWO64
  }

  function UntilNul(s: seq<Byte>): seq<Byte> {
    if s == [] then [] else if s[0] == 0 then [0] else [Lower(s[0])] + UntilNul(s[1..])
  }

  /** What the hash table can tell apart: the bucket, the length, and the bytes compared. */
  datatype Key = Key(bucket: nat, length: nat, text: seq<Byte>)

  function KeyOf(s: seq<Byte>, bucketSize: nat): Key
    requires 0 < bucketSize
  {
    Key(HashLower(s) % bucketSize, |s|, UntilNul(s))
  }

  lemma {:induction false} SameTextIffSame(a: seq<Byte>, b: seq<Byte>)
    requires |a| == |b|
    ensures UntilNul(a) == UntilNul(b) <==> SameUntilNul(a, b)
  {
    if a != [] {
      SameTextIffSame(a[1..], b[1..]);
      assert UntilNul(a)[0] == Lower(a[0]) && UntilNul(b)[0] == Lower(b[0]);
      if a[0] != 0 && b[0] != 0 {
        assert UntilNul(a)[1..] == UntilNul(a[1..]) && UntilNul(b)[1..] == UntilNul(b[1..]);
      }
    }
  }

  /** Within one bucket, comparing keys is comparing segments the way the C code does. */
  lemma KeyIffCaseEqual(a: seq<Byte>, b: seq<Byte>, bucketSize: nat)
    requires 0 < bucketSize
    ensures KeyOf(a, bucketSize) == KeyOf(b, bucketSize) <==>
              (CaseEqual(a, b) && HashLower(a) % bucketSize == HashLower(b) % bucketSize)
  {
    if |a| == |b| { SameTextIffSame(a, b); }
  }

  lemma {:induction false} UntilNulIsLower(s: seq<Byte>)
    requires 0 !in s
    ensures UntilNul(s) == LowerAll(s)
  {
    if s != [] {
      UntilNulIsLower(s[1..]);
      assert LowerAll(s) == [Lower(s[0])] + LowerAll(s[1..]);
    }
  }

  lemma {:induction false} HashOfLower(a: seq<Byte>, b: seq<Byte>)
    requires LowerAll(a) == LowerAll(b)
    ensures HashLower(a) == HashLower(b)
  {
    assert |LowerAll(a)| == |a| && |LowerAll(b)| == |b|;
    if a != [] {
      var n := |a| - 1;
      assert LowerAll(a)[n] == Lower(a[n]) && LowerAll(b)[n] == Lower(b[n]);
      assert LowerAll(a[..n]) == LowerAll(a)[..n] && LowerAll(b[..n]) == LowerAll(b)[..n];
      HashOfLower(a[..n], b[..n]);
    }
  }

  /** For ordinary text a key is the segment up to case. */
  lemma KeyIsCaseFolding(a: seq<Byte>, b: seq<Byte>, bucketSize: nat)
    requires 0 < bucketSize && 0 !in a && 0 !in b
    ensures KeyOf(a, bucketSize) == KeyOf(b, bucketSize) <==> LowerAll(a) == LowerAll(b)
  {
    UntilNulIsLower(a);
    UntilNulIsLower(b);
    if LowerAll(a) == LowerAll(b) {
      assert |LowerAll(a)| == |a| && |LowerAll(b)| == |b|;
      HashOfLower(a, b);
    }
  }

  /** A capital letter and its small one. */
  predicate Cases(capital: Byte, small: Byte) {
    'A' as int <= capital <= 'Z' as int && small == capital - 'A' as int + 'a' as int
  }

  /** Two bytes are told apart unless they are the two cases of a letter. */
  lemma CaseOfALetter(a: Byte, b: Byte, bucketSize: nat)
    requires 0 < bucketSize && a != 0 && b != 0
    ensures KeyOf([a], bucketSize) == KeyOf([b], bucketSize) <==>
              a == b || Cases(a, b) || Cases(b, a)
  {
    KeyIsCaseFolding([a], [b], bucketSize);
    assert LowerAll([a])[0] == Lower(a) && LowerAll([b])[0] == Lower(b);
    assert Lower(a) == Lower(b) ==> LowerAll([a]) == LowerAll([b]);
  }

  // ------------------------------------------------- paths

  /** One leading and one trailing slash are ignored. */
  function Trim(path: seq<Byte>): seq<Byte> {
    var p := if path != [] && path[0] == SLASH then path[1..] else path;
    if p != [] && p[|p| - 1] == SLASH then p[..|p| - 1] else p
  }

  function Segments(path: seq<Byte>): seq<seq<Byte>> {
    Bounded(Trim(path), MAX_SEGMENTS, SLASH)
  }

  /** One slash in front and one behind make no difference. */
  lemma SlashesIgnored(p: seq<Byte>)
    requires p == [] || (p[0] != SLASH && p[|p| - 1] != SLASH)
    ensures Segments([SLASH] + p) == Segments(p) == Segments(p + [SLASH]) == Segments([SLASH] + p + [SLASH])
  {
    TrimSlashes(p);
  }

  lemma TrimSlashes(p: seq<Byte>)
    requires p == [] || (p[0] != SLASH && p[|p| - 1] != SLASH)
    ensures Trim([SLASH] + p) == Trim(p) == Trim(p + [SLASH]) == Trim([SLASH] + p + [SLASH]) == p
  {
    assert ([SLASH] + p)[1..] == p && (p + [SLASH])[..|p|] == p;
    assert ([SLASH] + p + [SLASH])[1..] == p + [SLASH];
  }

  /** The segments of such a path: up to 64, without slashes, which make up the path when
      there are fewer. */
  lemma SegmentsJoin(p: seq<Byte>)
    requires p != [] && p[0] != SLASH && p[|p| - 1] != SLASH
    ensures 0 < |Segments(p)| <= 64
    ensures |Segments(p)| < 64 ==> Join(Segments(p), SLASH) == p
    ensures forall k :: 0 <= k < |Segments(p)| ==> SLASH !in Segments(p)[k]
  {
    var all := Fields(p, SLASH);
    JoinFields(p, SLASH);
    LastField(p, SLASH, 0, 0);
    SplitJoinsIff(p, MAX_SEGMENTS, SLASH);
    assert forall k :: 0 <= k < |Segments(p)| ==> Segments(p)[k] == all[k];
  }

  /** A slash too many is an empty segment. */
  lemma EmptySegments(a: Byte)
    requires a != SLASH
    ensures Segments([SLASH, SLASH, a]) == [[], [a]] && Segments([a, SLASH, SLASH]) == [[a], []]
  {
    FieldsJoin([[], [a]], SLASH);
    FieldsJoin([[a], []], SLASH);
    assert Join([[], [a]], SLASH) == [SLASH, a] && Join([[a], []], SLASH) == [a, SLASH];
    assert Trim([SLASH, SLASH, a]) == [SLASH, a] && Trim([a, SLASH, SLASH]) == [a, SLASH];
  }

  function Keys(segments: seq<seq<Byte>>, bucketSize: nat): seq<Key>
    requires 0 < bucketSize
  {
    seq(|segments|, i requires 0 <= i < |segments| => KeyOf(segments[i], bucketSize))
  }

  function Folded(segments: seq<seq<Byte>>): seq<seq<Byte>> {
    seq(|segments|, i requires 0 <= i < |segments| => LowerAll(segments[i]))
  }

  lemma SegmentsHoldNoNul(path: seq<Byte>)
    requires 0 !in path
    ensures forall k :: 0 <= k < |Segments(path)| ==> 0 !in Segments(path)[k]
  {
    assert forall c :: c in Trim(path) ==> c in path;
    FieldBytes(Trim(path), SLASH, 0, 0, 0);
    assert forall k :: 0 <= k < |Segments(path)| ==> Segments(path)[k] == Fields(Trim(path), SLASH)[k];
  }

  /** For ordinary paths the prefixes the search is about are prefixes up to case, segment by
      segment. */
  lemma PrefixIsCaseFolding(a: seq<Byte>, b: seq<Byte>, bucketSize: nat)
    requires 0 < bucketSize && 0 !in a && 0 !in b
    ensures Keys(Segments(a), bucketSize) <= Keys(Segments(b), bucketSize) <==>
              Folded(Segments(a)) <= Folded(Segments(b))
  {
    var p, q := Segments(a), Segments(b);
    SegmentsHoldNoNul(a);
    SegmentsHoldNoNul(b);
    if |p| <= |q| {
      forall k | 0 <= k < |p|
        ensures Keys(p, bucketSize)[k] == Keys(q, bucketSize)[k] <==> Folded(p)[k] == Folded(q)[k]
      {
        KeyIsCaseFolding(p[k], q[k], bucketSize);
      }
      SamePrefix(Keys(p, bucketSize), Keys(q, bucketSize), Folded(p), Folded(q));
    }
  }

  lemma SamePrefix<S, T>(a: seq<S>, b: seq<S>, x: seq<T>, y: seq<T>)
    requires |a| == |x| && |b| == |y| && |a| <= |b|
    requires forall k :: 0 <= k < |a| ==> (a[k] == b[k] <==> x[k] == y[k])
    ensures a <= b <==> x <= y
  {
  }

  /** The registered data of the longest prefix of `path` that has some; the empty path is
      the root. */
  function LongestPrefix(registered: map<seq<Key>, nat>, path: seq<Key>): nat
    decreases |path|
  {
    if path in registered && registered[path] != 0 then registered[path]
    else if path == [] then 0
    else LongestPrefix(registered, path[..|path| - 1])
  }

  function DataOf(registered: map<seq<Key>, nat>, path: seq<Key>): nat {
    if path in registered then registered[path] else 0
  }

  /** LongestPrefix is what its name says: the data of a registered prefix such that no
      longer prefix has any, and 0 only if no prefix has. */
  lemma {:induction false} LongestPrefixMeans(registered: map<seq<Key>, nat>, path: seq<Key>)
    ensures var r := LongestPrefix(registered, path);
            if r == 0 then forall k :: 0 <= k <= |path| ==> DataOf(registered, path[..k]) == 0
            else exists k :: 0 <= k <= |path| && DataOf(registered, path[..k]) == r
                             && forall j :: k < j <= |path| ==> DataOf(registered, path[..j]) == 0
    decreases |path|
  {
    assert path[..|path|] == path;
    if DataOf(registered, path) == 0 && path != [] {
      var shorter := path[..|path| - 1];
      LongestPrefixMeans(registered, shorter);
      assert forall k :: 0 <= k < |path| ==> shorter[..k] == path[..k];
    }
  }

  // ------------------------------------------------- the linked structure

  /** A trie node; `hs` is its table of children, a list of node addresses per bucket. */
  datatype Node = Node(segment: seq<Byte>, hs: Option<seq<seq<nat>>>, data: nat)

  datatype Shape = Shape(bucketSize: nat, nodes: seq<Node>)

  /** First node of a bucket's list with the given key. */
  function Find(t: Shape, chain: seq<nat>, key: Key): (r: Option<nat>)
    requires 0 < t.bucketSize
    ensures r.Some? ==> r.value in chain && r.value < |t.nodes| && KeyOf(t.nodes[r.value].segment, t.bucketSize) == key
  {
    if chain == [] then None
    else if chain[0] < |t.nodes| && KeyOf(t.nodes[chain[0]].segment, t.bucketSize) == key then Some(chain[0])
    else Find(t, chain[1..], key)
  }

  function Child(t: Shape, n: nat, key: Key): (r: Option<nat>)
    requires 0 < t.bucketSize
    ensures r.Some? ==> r.value < |t.nodes| && KeyOf(t.nodes[r.value].segment, t.bucketSize) == key
  {
    if n < |t.nodes| && t.nodes[n].hs.Some? && key.bucket < |t.nodes[n].hs.value|
    then Find(t, t.nodes[n].hs.value[key.bucket], key)
    else None
  }

  function Walk(t: Shape, n: nat, path: seq<Key>): Option<nat>
    requires 0 < t.bucketSize
    decreases |path|
  {
    if path == [] then Some(n)
    else match Child(t, n, path[0]) case None => None case Some(c) => Walk(t, c, path[1..])
  }

  /** The data found at the end of a path, 0 when the path does not exist. */
  function DataFrom(t: Shape, n: nat, path: seq<Key>): nat
    requires 0 < t.bucketSize
    decreases |path|
  {
    if path == [] then (if n < |t.nodes| then t.nodes[n].data else 0)
    else match Child(t, n, path[0]) case None => 0 case Some(c) => DataFrom(t, c, path[1..])
  }

  /** Every linked node was allocated, and carries the path that leads to it. */
  ghost predicate Linked(t: Shape, paths: seq<seq<Key>>) {
    && 0 < t.bucketSize && 0 < |t.nodes| == |paths| && paths[0] == []
    && forall n, b, j :: 0 <= n < |t.nodes| && t.nodes[n].hs.Some? && 0 <= b < |t.nodes[n].hs.value|
                         && 0 <= j < |t.nodes[n].hs.value[b]| ==>
         LinkOk(t, paths, n, b, t.nodes[n].hs.value[b][j])
  }

  ghost predicate LinkOk(t: Shape, paths: seq<seq<Key>>, n: nat, b: nat, c: nat)
    requires 0 < t.bucketSize && |t.nodes| == |paths| && n < |t.nodes|
  {
    && c < |t.nodes|
    && KeyOf(t.nodes[c].segment, t.bucketSize).bucket == b
    && paths[c] == paths[n] + [KeyOf(t.nodes[c].segment, t.bucketSize)]
  }

  lemma {:induction false} WalkSteps(t: Shape, n: nat, path: seq<Key>, key: Key)
    requires 0 < t.bucketSize
    ensures Walk(t, n, path + [key]) ==
            match Walk(t, n, path) case None => None case Some(m) => Child(t, m, key)
    decreases |path|
  {
    if path == [] {
      assert ([] + [key])[1..] == [];
    } else {
      assert (path + [key])[0] == path[0] && (path + [key])[1..] == path[1..] + [key];
      match Child(t, n, path[0])
      case None =>
      case Some(c) => WalkSteps(t, c, path[1..], key);
    }
  }

  lemma {:induction false} DataIsWalk(t: Shape, n: nat, path: seq<Key>)
    requires 0 < t.bucketSize && n < |t.nodes|
    ensures match Walk(t, n, path)
            case None => DataFrom(t, n, path) == 0
            case Some(m) => m < |t.nodes| && DataFrom(t, n, path) == t.nodes[m].data
    decreases |path|
  {
    if path != [] && Child(t, n, path[0]).Some? {
      DataIsWalk(t, Child(t, n, path[0]).value, path[1..]);
    }
  }

  /** A node is reached by its own path only. */
  lemma {:induction false} WalkEndsAtItsPath(t: Shape, paths: seq<seq<Key>>, n: nat, path: seq<Key>)
    requires Linked(t, paths) && n < |t.nodes| && Walk(t, n, path).Some?
    ensures Walk(t, n, path).value < |t.nodes| && paths[Walk(t, n, path).value] == paths[n] + path
    decreases |path|
  {
    if path != [] {
      var c := Child(t, n, path[0]).value;
      var chain := t.nodes[n].hs.value[path[0].bucket];
      var j :| 0 <= j < |chain| && chain[j] == c;
      assert LinkOk(t, paths, n, path[0].bucket, c);
      WalkEndsAtItsPath(t, paths, c, path[1..]);
      assert path == [path[0]] + path[1..];
    }
  }

  // ------------------------------------------------- what each store changes

  /** Two shapes with the same children everywhere and the same data answer alike. */
  lemma {:induction false} SameChildrenSameData(t: Shape, u: Shape, n: nat, path: seq<Key>)
    requires 0 < t.bucketSize == u.bucketSize && n < |t.nodes| <= |u.nodes|
    requires forall m :: 0 <= m < |t.nodes| ==> u.nodes[m].data == t.nodes[m].data
    requires forall m, key :: 0 <= m < |t.nodes| ==> Child(u, m, key) == Child(t, m, key)
    ensures DataFrom(u, n, path) == DataFrom(t, n, path) && Walk(u, n, path) == Walk(t, n, path)
    decreases |path|
  {
    if path != [] && Child(t, n, path[0]).Some? {
      SameChildrenSameData(t, u, Child(t, n, path[0]).value, path[1..]);
    }
  }

  lemma {:induction false} FindInMore(t: Shape, u: Shape, chain: seq<nat>, key: Key)
    requires 0 < t.bucketSize == u.bucketSize && |t.nodes| <= |u.nodes|
    requires forall m :: 0 <= m < |t.nodes| ==> u.nodes[m].segment == t.nodes[m].segment
    requires forall j :: 0 <= j < |chain| ==> chain[j] < |t.nodes|
    ensures Find(u, chain, key) == Find(t, chain, key)
  {
    if chain != [] {
      FindInMore(t, u, chain[1..], key);
    }
  }

  function EmptyTable(bucketSize: nat): seq<seq<nat>> {
    seq(bucketSize, _ => [])
  }

  /** Giving node `p` an empty table changes nothing that can be looked up. */
  lemma TableCreated(t: Shape, paths: seq<seq<Key>>, p: nat)
    requires Linked(t, paths) && p < |t.nodes| && t.nodes[p].hs.None?
    ensures var u := t.(nodes := t.nodes[p := t.nodes[p].(hs := Some(EmptyTable(t.bucketSize)))]);
            && Linked(u, paths)
            && forall path :: DataFrom(u, 0, path) == DataFrom(t, 0, path) && Walk(u, 0, path) == Walk(t, 0, path)
  {
    var u := t.(nodes := t.nodes[p := t.nodes[p].(hs := Some(EmptyTable(t.bucketSize)))]);
    forall m, key | 0 <= m < |t.nodes| ensures Child(u, m, key) == Child(t, m, key) {
      if m != p && t.nodes[m].hs.Some? && key.bucket < |t.nodes[m].hs.value| {
        ChainInside(t, paths, m, key.bucket);
        FindInMore(t, u, t.nodes[m].hs.value[key.bucket], key);
      }
    }
    forall n, b, j | 0 <= n < |u.nodes| && u.nodes[n].hs.Some? && 0 <= b < |u.nodes[n].hs.value|
                     && 0 <= j < |u.nodes[n].hs.value[b]|
      ensures LinkOk(u, paths, n, b, u.nodes[n].hs.value[b][j])
    {
      assert n != p;
      assert LinkOk(t, paths, n, b, t.nodes[n].hs.value[b][j]);
    }
    forall path ensures DataFrom(u, 0, path) == DataFrom(t, 0, path) && Walk(u, 0, path) == Walk(t, 0, path) {
      SameChildrenSameData(t, u, 0, path);
    }
  }

  lemma ChainInside(t: Shape, paths: seq<seq<Key>>, n: nat, b: nat)
    requires Linked(t, paths) && n < |t.nodes| && t.nodes[n].hs.Some? && b < |t.nodes[n].hs.value|
    ensures forall j :: 0 <= j < |t.nodes[n].hs.value[b]| ==> t.nodes[n].hs.value[b][j] < |t.nodes|
  {
    forall j | 0 <= j < |t.nodes[n].hs.value[b]| ensures t.nodes[n].hs.value[b][j] < |t.nodes| {
      assert LinkOk(t, paths, n, b, t.nodes[n].hs.value[b][j]);
    }
  }

  /** A node that is allocated but not linked cannot be seen. */
  lemma NodeAllocated(t: Shape, paths: seq<seq<Key>>, segment: seq<Byte>, path: seq<Key>)
    requires Linked(t, paths)
    ensures var u := t.(nodes := t.nodes + [Node(segment, None, 0)]);
            && Linked(u, paths + [path])
            && forall q :: DataFrom(u, 0, q) == DataFrom(t, 0, q) && Walk(u, 0, q) == Walk(t, 0, q)
  {
    var u := t.(nodes := t.nodes + [Node(segment, None, 0)]);
    forall m, key | 0 <= m < |t.nodes| ensures Child(u, m, key) == Child(t, m, key) {
      if t.nodes[m].hs.Some? && key.bucket < |t.nodes[m].hs.value| {
        ChainInside(t, paths, m, key.bucket);
        FindInMore(t, u, t.nodes[m].hs.value[key.bucket], key);
      }
    }
    forall n, b, j | 0 <= n < |u.nodes| && u.nodes[n].hs.Some? && 0 <= b < |u.nodes[n].hs.value|
                     && 0 <= j < |u.nodes[n].hs.value[b]|
      ensures LinkOk(u, paths + [path], n, b, u.nodes[n].hs.value[b][j])
    {
      assert LinkOk(t, paths, n, b, t.nodes[n].hs.value[b][j]);
    }
    forall q ensures DataFrom(u, 0, q) == DataFrom(t, 0, q) && Walk(u, 0, q) == Walk(t, 0, q) {
      SameChildrenSameData(t, u, 0, q);
    }
  }

  /** Linking node `c` at the head of its bucket under `p`. */
  function LinkNode(t: Shape, p: nat, c: nat, b: nat): Shape
    requires p < |t.nodes| && t.nodes[p].hs.Some? && b < |t.nodes[p].hs.value|
  {
    var table := t.nodes[p].hs.value;
    t.(nodes := t.nodes[p := t.nodes[p].(hs := Some(table[b := [c] + table[b]]))])
  }

  lemma LinkChildren(t: Shape, paths: seq<seq<Key>>, p: nat, c: nat, m: nat, key: Key)
    requires Linked(t, paths) && p < |t.nodes| && t.nodes[p].hs.Some? && c < |t.nodes| && m < |t.nodes|
    requires var k := KeyOf(t.nodes[c].segment, t.bucketSize); k.bucket < |t.nodes[p].hs.value|
    ensures var k := KeyOf(t.nodes[c].segment, t.bucketSize);
            var u := LinkNode(t, p, c, k.bucket);
            Child(u, m, key) == if m == p && key == k then Some(c) else Child(t, m, key)
  {
    var k := KeyOf(t.nodes[c].segment, t.bucketSize);
    var u := LinkNode(t, p, c, k.bucket);
    if t.nodes[m].hs.Some? && key.bucket < |t.nodes[m].hs.value| {
      var chain := t.nodes[m].hs.value[key.bucket];
      ChainInside(t, paths, m, key.bucket);
      FindInMore(t, u, chain, key);
      if m == p && key.bucket == k.bucket {
        assert ([c] + chain)[1..] == chain;
      }
    }
  }

  /** A childless node without data, linked where nothing was found, changes no answer. */
  lemma {:induction false} LinkedNodeInvisible(t: Shape, paths: seq<seq<Key>>, p: nat, c: nat, n: nat, path: seq<Key>)
    requires Linked(t, paths) && p < |t.nodes| && t.nodes[p].hs.Some? && c < |t.nodes| && n < |t.nodes|
    requires var k := KeyOf(t.nodes[c].segment, t.bucketSize);
             k.bucket < |t.nodes[p].hs.value| && Child(t, p, k) == None
    requires t.nodes[c].hs.None? && t.nodes[c].data == 0 && p != c
    ensures var u := LinkNode(t, p, c, KeyOf(t.nodes[c].segment, t.bucketSize).bucket);
            && DataFrom(u, n, path) == DataFrom(t, n, path)
            && (Walk(t, n, path).Some? ==> Walk(u, n, path) == Walk(t, n, path))
    decreases |path|
  {
    var k := KeyOf(t.nodes[c].segment, t.bucketSize);
    var u := LinkNode(t, p, c, k.bucket);
    if path != [] {
      LinkChildren(t, paths, p, c, n, path[0]);
      if n == p && path[0] == k {
        if path[1..] != [] { assert Child(u, c, path[1..][0]) == None; }
      } else if Child(t, n, path[0]).Some? {
        LinkedNodeInvisible(t, paths, p, c, Child(t, n, path[0]).value, path[1..]);
      }
    }
  }

  lemma NodeLinked(t: Shape, paths: seq<seq<Key>>, p: nat, c: nat)
    requires Linked(t, paths) && p < |t.nodes| && t.nodes[p].hs.Some? && c < |t.nodes|
    requires var k := KeyOf(t.nodes[c].segment, t.bucketSize);
             k.bucket < |t.nodes[p].hs.value| && Child(t, p, k) == None && paths[c] == paths[p] + [k]
    requires t.nodes[c].hs.None? && t.nodes[c].data == 0 && p != c
    ensures var k := KeyOf(t.nodes[c].segment, t.bucketSize);
            var u := LinkNode(t, p, c, k.bucket);
            && Linked(u, paths) && Child(u, p, k) == Some(c)
            && (forall path :: DataFrom(u, 0, path) == DataFrom(t, 0, path))
            && (forall path :: Walk(t, 0, path).Some? ==> Walk(u, 0, path) == Walk(t, 0, path))
  {
    var k := KeyOf(t.nodes[c].segment, t.bucketSize);
    var u := LinkNode(t, p, c, k.bucket);
    LinkChildren(t, paths, p, c, p, k);
    forall n, b, j | 0 <= n < |u.nodes| && u.nodes[n].hs.Some? && 0 <= b < |u.nodes[n].hs.value|
                     && 0 <= j < |u.nodes[n].hs.value[b]|
      ensures LinkOk(u, paths, n, b, u.nodes[n].hs.value[b][j])
    {
      if n == p && b == k.bucket {
        if 0 < j { assert LinkOk(t, paths, n, b, t.nodes[n].hs.value[b][j - 1]); }
      } else {
        assert LinkOk(t, paths, n, b, t.nodes[n].hs.value[b][j]);
      }
    }
    forall path
      ensures DataFrom(u, 0, path) == DataFrom(t, 0, path)
      ensures Walk(t, 0, path).Some? ==> Walk(u, 0, path) == Walk(t, 0, path)
    {
      LinkedNodeInvisible(t, paths, p, c, 0, path);
    }
  }

  function StoreData(t: Shape, p: nat, data: nat): Shape
    requires p < |t.nodes|
  {
    t.(nodes := t.nodes[p := t.nodes[p].(data := data)])
  }

  lemma StoreKeepsLinks(t: Shape, paths: seq<seq<Key>>, p: nat, data: nat)
    requires Linked(t, paths) && p < |t.nodes|
    ensures var u := StoreData(t, p, data);
            && Linked(u, paths)
            && forall m, key :: 0 <= m < |t.nodes| ==> Child(u, m, key) == Child(t, m, key)
  {
    var u := StoreData(t, p, data);
    forall n, b, j | 0 <= n < |u.nodes| && u.nodes[n].hs.Some? && 0 <= b < |u.nodes[n].hs.value|
                     && 0 <= j < |u.nodes[n].hs.value[b]|
      ensures LinkOk(u, paths, n, b, u.nodes[n].hs.value[b][j])
    {
      assert LinkOk(t, paths, n, b, t.nodes[n].hs.value[b][j]);
    }
    forall m, key | 0 <= m < |t.nodes| ensures Child(u, m, key) == Child(t, m, key) {
      if t.nodes[m].hs.Some? && key.bucket < |t.nodes[m].hs.value| {
        ChainInside(t, paths, m, key.bucket);
        FindInMore(t, u, t.nodes[m].hs.value[key.bucket], key);
      }
    }
  }

  lemma {:induction false} StoredFrom(t: Shape, u: Shape, p: nat, data: nat, n: nat, q: seq<Key>)
    requires 0 < t.bucketSize && p < |t.nodes| && n < |t.nodes| && u == StoreData(t, p, data)
    requires forall m, key :: 0 <= m < |t.nodes| ==> Child(u, m, key) == Child(t, m, key)
    ensures DataFrom(u, n, q) == if Walk(t, n, q) == Some(p) then data else DataFrom(t, n, q)
    decreases |q|
  {
    if q != [] && Child(t, n, q[0]).Some? {
      StoredFrom(t, u, p, data, Child(t, n, q[0]).value, q[1..]);
    }
  }

  lemma ReachedOnlyBy(t: Shape, paths: seq<seq<Key>>, path: seq<Key>, p: nat, q: seq<Key>)
    requires Linked(t, paths) && Walk(t, 0, path) == Some(p)
    ensures Walk(t, 0, q) == Some(p) <==> q == path
  {
    WalkEndsAtItsPath(t, paths, 0, path);
    if Walk(t, 0, q) == Some(p) {
      WalkEndsAtItsPath(t, paths, 0, q);
      assert [] + q == q && [] + path == path;
    }
  }

  /** Storing data at a node changes the answer for its own path and no other. */
  lemma DataStored(t: Shape, paths: seq<seq<Key>>, path: seq<Key>, p: nat, data: nat)
    requires Linked(t, paths) && p < |t.nodes| && Walk(t, 0, path) == Some(p)
    ensures Linked(StoreData(t, p, data), paths)
    ensures forall q :: DataFrom(StoreData(t, p, data), 0, q) == if q == path then data else DataFrom(t, 0, q)
  {
    StoreKeepsLinks(t, paths, p, data);
    forall q ensures DataFrom(StoreData(t, p, data), 0, q) == if q == path then data else DataFrom(t, 0, q) {
      StoredFrom(t, StoreData(t, p, data), p, data, 0, q);
      ReachedOnlyBy(t, paths, path, p, q);
    }
  }

  // ------------------------------------------------- the code

  /** What one more segment of a path can cost: a table, a node with its text, and a link. */
  function StepCost(segment: seq<Byte>, bucketSize: nat): nat {
    SIZEOF_HASH + bucketSize * SIZEOF_QUEUE + SIZEOF_TRIE_NODE + |segment| + SIZEOF_HASH_NODE
  }

  /** What the segments from `i` on can cost. */
  function PathCost(segments: seq<seq<Byte>>, bucketSize: nat, i: nat): nat
    requires i <= |segments|
    decreases |segments| - i
  {
    if i == |segments| then 0 else StepCost(segments[i], bucketSize) + PathCost(segments, bucketSize, i + 1)
  }

  class Trie {
    const bucketSize: nat
    var nodes: seq<Node>
    var poolLeft: nat
    var outOfMemory: bool

    /** What is registered: a map from paths of keys to data. */
    ghost var registered: map<seq<Key>, nat>
    ghost var paths: seq<seq<Key>>

    ghost predicate Valid()
      reads this
    {
      && Linked(Shape(bucketSize, nodes), paths)
      && TablesOk(bucketSize, nodes)
      && Answers(Shape(bucketSize, nodes), registered)
    }

    /** ngx_shm_trie_create, once the trie's own record is allocated. */
    constructor (bucketSize: nat, poolLeft: nat)
      requires 0 < bucketSize && SIZEOF_TRIE_NODE <= poolLeft
      ensures Valid() && registered == map[] && this.bucketSize == bucketSize
      ensures this.poolLeft == poolLeft - SIZEOF_TRIE_NODE && !outOfMemory
    {
      this.bucketSize := bucketSize;
      this.poolLeft := poolLeft - SIZEOF_TRIE_NODE;
      nodes, outOfMemory := [Node([], None, 0)], false;
      registered, paths := map[], [[]];
      new;
      var t := Shape(bucketSize, nodes);
      forall path ensures DataFrom(t, 0, path) == 0 {
        if path != [] { assert Child(t, 0, path[0]) == None; }
      }
    }

    /** ngx_shm_pool_calloc */
    method Calloc(size: nat) returns (ok: bool)
      modifies this`poolLeft, this`outOfMemory
      ensures ok <==> size <= old(poolLeft)
      ensures poolLeft == old(poolLeft) - if ok then size else 0
      ensures outOfMemory == (old(outOfMemory) || !ok)
    {
      if poolLeft >= size {
        poolLeft := poolLeft - size;
        ok := true;
      } else {
        outOfMemory := true;
        ok := false;
      }
    }

    /** ngx_shm_hash_get in the table of node `n`. */
    method HashGet(n: nat, segment: seq<Byte>) returns (r: Option<nat>)
      requires Valid() && n < |nodes| && nodes[n].hs.Some?
      ensures r == Child(Shape(bucketSize, nodes), n, KeyOf(segment, bucketSize))
    {
      ghost var t := Shape(bucketSize, nodes);
      ghost var key := KeyOf(segment, bucketSize);
      var b := HashLower(segment) % bucketSize;
      assert TableOk(bucketSize, nodes[n]);
      var slot := nodes[n].hs.value[b];
      ChainInside(t, paths, n, b);
      var j := 0;
      while j < |slot|
        invariant 0 <= j <= |slot|
        invariant Find(t, slot, key) == Find(t, slot[j..], key)
      {
        assert slot[j..][1..] == slot[j + 1..];
        var candidate := nodes[slot[j]].segment;
        KeyIffCaseEqual(candidate, segment, bucketSize);
        assert LinkOk(t, paths, n, b, slot[j]);
        if CaseEqual(candidate, segment) {
          return Some(slot[j]);
        }
        j := j + 1;
      }
      return None;
    }

    /** Makes sure node `p` has a table; the only way to fail is the pool. */
    method EnsureTable(p: nat) returns (ok: bool)
      requires Valid() && p < |nodes|
      modifies this`poolLeft, this`outOfMemory, this`nodes
      ensures Valid() && |nodes| == old(|nodes|)
      ensures if ok then nodes[p].hs.Some? else outOfMemory
      ensures var size := SIZEOF_HASH + bucketSize * SIZEOF_QUEUE;
              if ok then old(poolLeft) <= poolLeft + size else old(poolLeft) < size
      ensures forall path :: Walk(Shape(bucketSize, nodes), 0, path) == old(Walk(Shape(bucketSize, nodes), 0, path))
    {
      if nodes[p].hs.Some? {
        return true;
      }
      ok := Calloc(SIZEOF_HASH + bucketSize * SIZEOF_QUEUE);
      if ok {
        TableCreated(Shape(bucketSize, nodes), paths, p);
        nodes := nodes[p := nodes[p].(hs := Some(EmptyTable(bucketSize)))];
      }
    }

    /** Allocates a node for `segment` and links it under `p`. Any of the three
        allocations may fail; then nothing that can be looked up has changed. */
    method NewChild(p: nat, segment: seq<Byte>) returns (c: Option<nat>)
      requires Valid() && p < |nodes| && nodes[p].hs.Some?
      requires Child(Shape(bucketSize, nodes), p, KeyOf(segment, bucketSize)) == None
      modifies this`poolLeft, this`outOfMemory, this`nodes, this`paths
      ensures Valid() && |nodes| >= old(|nodes|)
      ensures c.None? ==> outOfMemory
      ensures var size := SIZEOF_TRIE_NODE + |segment| + SIZEOF_HASH_NODE;
              if c.Some? then old(poolLeft) == poolLeft + size else old(poolLeft) < size
      ensures c.Some? ==> c.value < |nodes| && Child(Shape(bucketSize, nodes), p, KeyOf(segment, bucketSize)) == c
      ensures forall path :: old(Walk(Shape(bucketSize, nodes), 0, path)).Some? ==>
                Walk(Shape(bucketSize, nodes), 0, path) == old(Walk(Shape(bucketSize, nodes), 0, path))
    {
      var ok := Calloc(SIZEOF_TRIE_NODE);
      if !ok {
        return None;
      }
      ok := Calloc(|segment|);
      if !ok {
        return None;
      }
      ok := Calloc(SIZEOF_HASH_NODE);
      if !ok {
        return None;
      }
      AppendNode(p, segment);
      LinkLast(p, segment);
      return Some(|nodes| - 1);
    }

    /** Puts the node made last in front of its bucket in `p`'s table. */
    method LinkLast(p: nat, segment: seq<Byte>)
      requires Valid() && p < |nodes| - 1 && nodes[p].hs.Some? && nodes[|nodes| - 1] == Node(segment, None, 0)
      requires paths[|nodes| - 1] == paths[p] + [KeyOf(segment, bucketSize)]
      requires Child(Shape(bucketSize, nodes), p, KeyOf(segment, bucketSize)) == None
      modifies this`nodes
      ensures Valid() && |nodes| == old(|nodes|)
      ensures Child(Shape(bucketSize, nodes), p, KeyOf(segment, bucketSize)) == Some(|nodes| - 1)
      ensures forall path :: old(Walk(Shape(bucketSize, nodes), 0, path)).Some? ==>
                Walk(Shape(bucketSize, nodes), 0, path) == old(Walk(Shape(bucketSize, nodes), 0, path))
    {
      var n := |nodes| - 1;
      var b := HashLower(segment) % bucketSize;
      ghost var t := Shape(bucketSize, nodes);
      assert TableOk(bucketSize, nodes[p]);
      NodeLinked(t, paths, p, n);
      var table := nodes[p].hs.value;
      nodes := nodes[p := nodes[p].(hs := Some(table[b := [n] + table[b]]))];
      assert Shape(bucketSize, nodes) == LinkNode(t, p, n, b);
    }

    /** Fills in a fresh node that nothing refers to yet. */
    method AppendNode(ghost p: nat, segment: seq<Byte>)
      requires Valid() && p < |nodes|
      modifies this`nodes, this`paths
      ensures Valid() && |nodes| == old(|nodes|) + 1 && nodes[..old(|nodes|)] == old(nodes)
      ensures nodes[old(|nodes|)] == Node(segment, None, 0)
      ensures paths[old(|nodes|)] == paths[p] + [KeyOf(segment, bucketSize)]
      ensures forall q :: Walk(Shape(bucketSize, nodes), 0, q) == old(Walk(Shape(bucketSize, nodes), 0, q))
      ensures forall key :: Child(Shape(bucketSize, nodes), p, key) == old(Child(Shape(bucketSize, nodes), p, key))
    {
      ghost var t := Shape(bucketSize, nodes);
      NodeAllocated(t, paths, segment, paths[p] + [KeyOf(segment, bucketSize)]);
      ChildrenKept(t, paths, segment, p);
      paths := paths + [paths[p] + [KeyOf(segment, bucketSize)]];
      nodes := nodes + [Node(segment, None, 0)];
    }

    /** One round of the add loop: from node `p` to its child for `segment`, made if need be. */
    method Descend(p: nat, segment: seq<Byte>, ghost prefix: seq<Key>) returns (c: Option<nat>)
      requires Valid() && p < |nodes| && Walk(Shape(bucketSize, nodes), 0, prefix) == Some(p)
      modifies this`poolLeft, this`outOfMemory, this`nodes, this`paths
      ensures Valid()
      ensures c.None? ==> outOfMemory && old(poolLeft) < StepCost(segment, bucketSize)
      ensures old(poolLeft) <= poolLeft + StepCost(segment, bucketSize)
      ensures c.Some? ==> c.value < |nodes|
                          && Walk(Shape(bucketSize, nodes), 0, prefix + [KeyOf(segment, bucketSize)]) == c
    {
      var made := EnsureTable(p);
      if !made {
        return None;
      }
      c := HashGet(p, segment);
      if c.None? {
        c := NewChild(p, segment);
      }
      WalkSteps(Shape(bucketSize, nodes), 0, prefix, KeyOf(segment, bucketSize));
    }

    /** Stores `data` at the node its path leads to. */
    method Register(p: nat, data: nat, ghost keys: seq<Key>)
      requires Valid() && p < |nodes| && Walk(Shape(bucketSize, nodes), 0, keys) == Some(p)
      modifies this`nodes, this`registered
      ensures Valid() && registered == old(registered)[keys := data]
    {
      DataStored(Shape(bucketSize, nodes), paths, keys, p, data);
      ghost var t := Shape(bucketSize, nodes);
      nodes := nodes[p := nodes[p].(data := data)];
      assert Shape(bucketSize, nodes) == StoreData(t, p, data);
      registered := registered[keys := data];
    }

    /** ngx_shm_trie_add: registers `data` for the path, or fails for lack of pool memory and
        registers nothing; it does not fail when there is memory for a new node, table and link
        per segment. */
    method Add(path: seq<Byte>, data: nat) returns (ok: bool)
      requires Valid()
      modifies this
      ensures Valid()
      ensures registered == if ok then old(registered)[Keys(Segments(path), bucketSize) := data] else old(registered)
      ensures !ok ==> outOfMemory && old(poolLeft) < PathCost(Segments(path), bucketSize, 0)
      ensures old(poolLeft) <= poolLeft + PathCost(Segments(path), bucketSize, 0)
    {
      var segments := SplitString(Trim(path), MAX_SEGMENTS, SLASH);
      var p := DescendAll(segments);
      if p.None? {
        return false;
      }
      Register(p.value, data, Keys(segments, bucketSize));
      return true;
    }

    /** The add loop: the node for the whole path, with the nodes on the way made if need be. */
    method DescendAll(segments: seq<seq<Byte>>) returns (c: Option<nat>)
      requires Valid()
      modifies this`poolLeft, this`outOfMemory, this`nodes, this`paths
      ensures Valid()
      ensures c.None? ==> outOfMemory && old(poolLeft) < PathCost(segments, bucketSize, 0)
      ensures old(poolLeft) <= poolLeft + PathCost(segments, bucketSize, 0)
      ensures c.Some? ==> c.value < |nodes| && Walk(Shape(bucketSize, nodes), 0, Keys(segments, bucketSize)) == c
    {
      ghost var keys := Keys(segments, bucketSize);
      var p := 0;
      var i := 0;
      while i < |segments|
        invariant 0 <= i <= |segments| && Valid()
        invariant old(poolLeft) + PathCost(segments, bucketSize, i) <= poolLeft + PathCost(segments, bucketSize, 0)
        invariant p < |nodes| && Walk(Shape(bucketSize, nodes), 0, keys[..i]) == Some(p)
      {
        assert keys[..i + 1] == keys[..i] + [KeyOf(segments[i], bucketSize)];
        c := Descend(p, segments[i], keys[..i]);
        if c.None? {
          return;
        }
        p := c.value;
        i := i + 1;
      }
      assert keys[..i] == keys;
      return Some(p);
    }

    /** One round of the search loop: the child for `segment`, if there is one. */
    method Follow(p: nat, segment: seq<Byte>, ghost prefix: seq<Key>) returns (c: Option<nat>)
      requires Valid() && p < |nodes| && Walk(Shape(bucketSize, nodes), 0, prefix) == Some(p)
      ensures Walk(Shape(bucketSize, nodes), 0, prefix + [KeyOf(segment, bucketSize)]) == c
      ensures c.Some? ==> c.value < |nodes|
    {
      WalkSteps(Shape(bucketSize, nodes), 0, prefix, KeyOf(segment, bucketSize));
      if nodes[p].hs.None? {
        return None;
      }
      c := HashGet(p, segment);
    }

    /** ngx_shm_trie_search: the data of the longest registered prefix, else the root's. */
    method Search(path: seq<Byte>) returns (r: nat)
      requires Valid()
      ensures r == LongestPrefix(registered, Keys(Segments(path), bucketSize))
    {
      var segments := SplitString(Trim(path), MAX_SEGMENTS, SLASH);
      ghost var keys := Keys(segments, bucketSize);
      ghost var t := Shape(bucketSize, nodes);
      var found, p, i := 0, 0, 0;
      RootPrefix(t, registered);
      while i < |segments|
        invariant 0 <= i <= |segments| && Reached(t, registered, keys, i, p, found)
      {
        assert keys[..i + 1] == keys[..i] + [KeyOf(segments[i], bucketSize)];
        var child := Follow(p, segments[i], keys[..i]);
        if child.None? {
          DeadEnd(t, registered, keys, i);
          return if found == 0 then nodes[0].data else found;
        }
        ReachedNext(t, registered, keys, i, p, found, child.value);
        if nodes[child.value].data != 0 {
          found := nodes[child.value].data;
        }
        p := child.value;
        i := i + 1;
      }
      assert keys[..i] == keys;
      return if found == 0 then nodes[0].data else found;
    }
  }

  ghost predicate Answers(t: Shape, registered: map<seq<Key>, nat>) {
    && 0 < t.bucketSize && 0 < |t.nodes|
    && forall path :: DataFrom(t, 0, path) == if path in registered then registered[path] else 0
  }

  lemma RootPrefix(t: Shape, registered: map<seq<Key>, nat>)
    requires Answers(t, registered)
    ensures LongestPrefix(registered, []) == t.nodes[0].data
  {
    assert DataFrom(t, 0, []) == t.nodes[0].data;
  }

  /** One more matched segment: its data wins if it has some. */
  lemma LongerPrefix(t: Shape, registered: map<seq<Key>, nat>, prefix: seq<Key>, key: Key, c: nat)
    requires Answers(t, registered) && c < |t.nodes| && Walk(t, 0, prefix + [key]) == Some(c)
    ensures LongestPrefix(registered, prefix + [key]) ==
            if t.nodes[c].data != 0 then t.nodes[c].data else LongestPrefix(registered, prefix)
  {
    DataIsWalk(t, 0, prefix + [key]);
    assert (prefix + [key])[..|prefix|] == prefix;
  }

  /** Appending an unlinked node leaves every table as it was. */
  lemma ChildrenKept(t: Shape, paths: seq<seq<Key>>, segment: seq<Byte>, p: nat)
    requires Linked(t, paths) && p < |t.nodes|
    ensures forall key :: Child(t.(nodes := t.nodes + [Node(segment, None, 0)]), p, key) == Child(t, p, key)
  {
    var u := t.(nodes := t.nodes + [Node(segment, None, 0)]);
    forall key ensures Child(u, p, key) == Child(t, p, key) {
      if t.nodes[p].hs.Some? && key.bucket < |t.nodes[p].hs.value| {
        ChainInside(t, paths, p, key.bucket);
        FindInMore(t, u, t.nodes[p].hs.value[key.bucket], key);
      }
    }
  }

  /** The search has walked `i` keys to node `p`, and `found` is the last data on the way. */
  ghost predicate Reached(t: Shape, registered: map<seq<Key>, nat>, keys: seq<Key>, i: nat, p: nat, found: nat) {
    && 0 < t.bucketSize && i <= |keys| && p < |t.nodes| && Walk(t, 0, keys[..i]) == Some(p)
    && (if found == 0 then t.nodes[0].data else found) == LongestPrefix(registered, keys[..i])
  }

  lemma ReachedNext(t: Shape, registered: map<seq<Key>, nat>, keys: seq<Key>, i: nat, p: nat, found: nat, c: nat)
    requires Answers(t, registered) && Reached(t, registered, keys, i, p, found) && i < |keys|
    requires c < |t.nodes| && Walk(t, 0, keys[..i + 1]) == Some(c)
    ensures Reached(t, registered, keys, i + 1, c, if t.nodes[c].data != 0 then t.nodes[c].data else found)
  {
    assert keys[..i + 1] == keys[..i] + [keys[i]];
    LongerPrefix(t, registered, keys[..i], keys[i], c);
  }

  /** Beyond the point where the walk stops nothing is registered. */
  lemma {:induction false} DeadEnd(t: Shape, registered: map<seq<Key>, nat>, keys: seq<Key>, i: nat)
    requires Answers(t, registered) && i < |keys| && Walk(t, 0, keys[..i + 1]) == None
    ensures LongestPrefix(registered, keys) == LongestPrefix(registered, keys[..i])
    decreases |keys|
  {
    var n := |keys| - 1;
    assert keys[..n] + [keys[n]] == keys && keys[..|keys|] == keys;
    DeadPath(t, 0, keys, i + 1);
    DataIsWalk(t, 0, keys);
    if i < n {
      assert keys[..n][..i + 1] == keys[..i + 1] && keys[..n][..i] == keys[..i];
      DeadEnd(t, registered, keys[..n], i);
    }
  }

  lemma {:induction false} DeadPath(t: Shape, n: nat, keys: seq<Key>, i: nat)
    requires 0 < t.bucketSize && i <= |keys| && Walk(t, n, keys[..i]) == None
    ensures Walk(t, n, keys) == None
    decreases |keys|
  {
    if 0 < i && Child(t, n, keys[0]).Some? {
      assert keys[..i][1..] == keys[1..][..i - 1];
      DeadPath(t, Child(t, n, keys[0]).value, keys[1..], i - 1);
    }
  }

  ghost predicate TableOk(bucketSize: nat, n: Node) {
    n.hs.Some? ==> |n.hs.value| == bucketSize
  }

  ghost predicate TablesOk(bucketSize: nat, nodes: seq<Node>) {
    forall n :: 0 <= n < |nodes| ==> TableOk(bucketSize, nodes[n])
  }
}
