/** The one-writer, many-reader hash table of the shared-memory library, as a state machine
    whose steps are the single loads and stores of the C code, interleaved in any order
    under sequential consistency.

    Models ngx_shm_lockless_hash_add and ngx_shm_lockless_hash_get in
    modules/mod_common/ngx_comm_shm.c. */
module LocklessHash {
  import opened Sequences

  /** An element; `compar_func` compares keys and `hash_func` hashes the key. */
  datatype Elem = Elem(key: nat, payload: nat)

  /** A pool node. Addresses start at 1, 0 is NULL; a fresh node is zeroed. */
  datatype Node = Node(data: Option<Elem>, next: nat)

  datatype Bucket = Bucket(head: nat, count: nat)

  datatype Config = Config(bucketCount: nat, maxN: nat, hash: nat -> nat)

  datatype Outcome = Added | Present | OutOfMemory

  /** Program counter of the writer. `pos` counts the nodes passed, `prev` is the last of
      them: the location to write is its next field, or the bucket's head when `prev` is 0. */
  datatype Writer =
    | Idle(last: Option<Outcome>)
    | Probe(elem: Elem, prev: nat, pos: nat)
    | Allocate(elem: Elem, prev: nat, pos: nat)
    | Fill(elem: Elem, prev: nat, pos: nat, node: nat)
    | Link(elem: Elem, prev: nat, pos: nat, node: nat)
    | Bump(elem: Elem)
    | Tally(elem: Elem)

  /** Program counter of a reader. `seen` (the elements visible when the call began) and
      `start` (the bucket's count then) are history; no step reads them. */
  datatype Reader =
    | Resting
    | LoadHead(key: nat, start: nat, seen: set<Elem>)
    | TestCount(key: nat, start: nat, seen: set<Elem>, node: nat, i: nat)
    | Compare(key: nat, start: nat, seen: set<Elem>, node: nat, i: nat)
    | LoadNext(key: nat, start: nat, seen: set<Elem>, node: nat, i: nat)
    | Returned(key: nat, seen: set<Elem>, result: Option<Elem>)

  /** Shared memory and all program counters. `chains` is history: the nodes linked into
      each bucket, in order. */
  datatype State = State(
    nodes: seq<Node>, buckets: seq<Bucket>, usedN: nat,
    writer: Writer, readers: map<nat, Reader>,
    chains: seq<seq<nat>>)

  datatype Action =
    | CallAdd(elem: Elem)
    | WriterStep
    | CallGet(reader: nat, key: nat)
    | ReaderStep(reader: nat)

  function BucketOf(cfg: Config, key: nat): nat
    requires 0 < cfg.bucketCount
  {
    cfg.hash(key) % cfg.bucketCount
  }

  function NodeAt(s: State, a: nat): Node {
    if 1 <= a <= |s.nodes| then s.nodes[a - 1] else Node(None, 0)
  }

  function ElemAt(s: State, a: nat): Elem {
    if NodeAt(s, a).data.Some? then NodeAt(s, a).data.value else Elem(0, 0)
  }

  // ------------------------------------------------------------------ the steps

  predicate Shaped(cfg: Config, s: State) {
    && 0 < cfg.bucketCount
    && |s.buckets| == |s.chains| == cfg.bucketCount
  }

  ghost predicate Initial(cfg: Config, s: State) {
    && Shaped(cfg, s)
    && s.nodes == [] && s.usedN == 0 && s.writer == Idle(None)
    && (forall b :: 0 <= b < |s.buckets| ==> s.buckets[b] == Bucket(0, 0) && s.chains[b] == [])
    && (forall r :: r in s.readers ==> s.readers[r] == Resting)
  }

  predicate Enabled(s: State, a: Action) {
    match a
    case CallAdd(_) => s.writer.Idle?
    case WriterStep => !s.writer.Idle?
    case CallGet(r, _) => r in s.readers && (s.readers[r].Resting? || s.readers[r].Returned?)
    case ReaderStep(r) => r in s.readers && !s.readers[r].Resting? && !s.readers[r].Returned?
  }

  function Next(cfg: Config, s: State, a: Action): State
    requires Shaped(cfg, s) && Enabled(s, a)
  {
    match a
    case CallAdd(elem) => s.(writer := Probe(elem, 0, 0))
    case WriterStep => MoveWriter(cfg, s)
    case CallGet(r, key) =>
      s.(readers := s.readers[r := LoadHead(key, s.buckets[BucketOf(cfg, key)].count, Visible(s))])
    case ReaderStep(r) => s.(readers := s.readers[r := MoveReader(cfg, s, s.readers[r])])
  }

  function MoveWriter(cfg: Config, s: State): State
    requires Shaped(cfg, s) && !s.writer.Idle?
  {
    var b := BucketOf(cfg, s.writer.elem.key);
    match s.writer
    case Probe(elem, prev, pos) =>
      var p := if prev == 0 then s.buckets[b].head else NodeAt(s, prev).next;
      if p == 0 then s.(writer := Allocate(elem, prev, pos))
      else if ElemAt(s, p).key == elem.key then s.(writer := Idle(Some(Present)))
      else s.(writer := Probe(elem, p, pos + 1))
    case Allocate(elem, prev, pos) =>
      if |s.nodes| < cfg.maxN
      then s.(nodes := s.nodes + [Node(None, 0)], writer := Fill(elem, prev, pos, |s.nodes| + 1))
      else s.(writer := Idle(Some(OutOfMemory)))
    case Fill(elem, prev, pos, node) =>
      if 1 <= node <= |s.nodes|
      then s.(nodes := s.nodes[node - 1 := s.nodes[node - 1].(data := Some(elem))],
              writer := Link(elem, prev, pos, node))
      else s
    case Link(elem, prev, pos, node) =>
      var t := s.(chains := s.chains[b := s.chains[b] + [node]], writer := Bump(elem));
      if prev == 0 then t.(buckets := t.buckets[b := t.buckets[b].(head := node)])
      else if prev <= |s.nodes| then t.(nodes := t.nodes[prev - 1 := t.nodes[prev - 1].(next := node)])
      else s
    case Bump(elem) =>
      s.(buckets := s.buckets[b := s.buckets[b].(count := s.buckets[b].count + 1)], writer := Tally(elem))
    case Tally(_) => s.(usedN := s.usedN + 1, writer := Idle(Some(Added)))
  }

  function MoveReader(cfg: Config, s: State, r: Reader): Reader
    requires Shaped(cfg, s) && !r.Resting? && !r.Returned?
  {
    var bucket := s.buckets[BucketOf(cfg, r.key)];
    match r
    case LoadHead(key, start, seen) => TestCount(key, start, seen, bucket.head, 0)
    case TestCount(key, start, seen, node, i) =>
      if i < bucket.count then Compare(key, start, seen, node, i) else Returned(key, seen, None)
    case Compare(key, start, seen, node, i) =>
      if node == 0 then Returned(key, seen, None)
      else if ElemAt(s, node).key == key then Returned(key, seen, Some(ElemAt(s, node)))
      else LoadNext(key, start, seen, node, i)
    case LoadNext(key, start, seen, node, i) => TestCount(key, start, seen, NodeAt(s, node).next, i + 1)
  }

  /** The abstract contents: per bucket, the first `count` elements of its chain. */
  function Visible(s: State): set<Elem> {
    set b, j | 0 <= b < |s.chains| && b < |s.buckets| && 0 <= j < |s.chains[b]| && j < s.buckets[b].count ::
      ElemAt(s, s.chains[b][j])
  }

  // ------------------------------------------------------------------ invariants

  /** Bucket `b` holds its chain as a linked list of filled nodes with distinct keys that
      hash to `b`. */
  ghost predicate ChainOk(cfg: Config, s: State, b: nat)
    requires Shaped(cfg, s) && b < cfg.bucketCount
  {
    var chain := s.chains[b];
    && s.buckets[b].head == (if chain == [] then 0 else chain[0])
    && (forall i :: 0 <= i < |chain| ==> LinkOk(cfg, s, b, i))
    && (forall i, j :: 0 <= i < j < |chain| ==> ElemAt(s, chain[i]).key != ElemAt(s, chain[j]).key)
  }

  ghost predicate LinkOk(cfg: Config, s: State, b: nat, i: nat)
    requires Shaped(cfg, s) && b < cfg.bucketCount && i < |s.chains[b]|
  {
    var chain := s.chains[b];
    && 1 <= chain[i] <= |s.nodes|
    && NodeAt(s, chain[i]).data.Some?
    && BucketOf(cfg, ElemAt(s, chain[i]).key) == b
    && NodeAt(s, chain[i]).next == (if i + 1 < |chain| then chain[i + 1] else 0)
  }

  /** count <= chain length <= count + 1, and the two differ only between linking a node
      and bumping its bucket's count. */
  ghost predicate CountOk(cfg: Config, s: State, b: nat)
    requires Shaped(cfg, s) && b < cfg.bucketCount
  {
    |s.chains[b]| == s.buckets[b].count +
      (if s.writer.Bump? && BucketOf(cfg, s.writer.elem.key) == b then 1 else 0)
  }

  ghost predicate WriterOk(cfg: Config, s: State)
    requires Shaped(cfg, s)
  {
    var w := s.writer;
    && |s.nodes| <= cfg.maxN
    && |s.nodes| == s.usedN + (if w.Fill? || w.Link? || w.Bump? || w.Tally? then 1 else 0)
    && (w.Probe? || w.Allocate? || w.Fill? || w.Link? ==>
          var chain := s.chains[BucketOf(cfg, w.elem.key)];
          && w.pos <= |chain|
          && w.prev == (if w.pos == 0 then 0 else chain[w.pos - 1])
          && (!w.Probe? ==> w.pos == |chain|)
          && (forall j :: 0 <= j < w.pos ==> ElemAt(s, chain[j]).key != w.elem.key))
    && (w.Fill? || w.Link? ==> w.node == |s.nodes| && 1 <= w.node && Unlinked(cfg, s, w.node)
                               && s.nodes[w.node - 1] == Node(if w.Link? then Some(w.elem) else None, 0))
    && (w.Bump? ==> var chain := s.chains[BucketOf(cfg, w.elem.key)];
                    chain != [] && ElemAt(s, chain[|chain| - 1]) == w.elem)
    && (w.Tally? ==> w.elem in Visible(s))
    && (w == Idle(Some(OutOfMemory)) ==> |s.nodes| == cfg.maxN)
  }

  ghost predicate Unlinked(cfg: Config, s: State, node: nat)
    requires Shaped(cfg, s)
  {
    forall b, j :: 0 <= b < cfg.bucketCount && 0 <= j < |s.chains[b]| ==> s.chains[b][j] != node
  }

  /** Every element that was visible for the asked key lies in the first `start` nodes. */
  ghost predicate SeenWithin(s: State, chain: seq<nat>, key: nat, start: nat, seen: set<Elem>) {
    && start <= |chain|
    && forall e :: e in seen && e.key == key ==> exists j :: 0 <= j < start && ElemAt(s, chain[j]) == e
  }

  ghost predicate ReaderOk(cfg: Config, s: State, r: Reader)
    requires Shaped(cfg, s)
  {
    if r.Resting? then true
    else if r.Returned? then AnswerOk(s, r.key, r.seen, r.result)
    else
      var b := BucketOf(cfg, r.key);
      var chain := s.chains[b];
      && r.seen <= Visible(s)
      && r.start <= s.buckets[b].count
      && SeenWithin(s, chain, r.key, r.start, r.seen)
      && (!r.LoadHead? ==>
            && r.i <= |chain|
            && (forall j :: 0 <= j < r.i ==> ElemAt(s, chain[j]).key != r.key)
            && (if r.node == 0 then r.start <= r.i else r.i < |chain| && r.node == chain[r.i])
            && (!r.TestCount? ==> r.i < s.buckets[b].count)
            && (r.LoadNext? ==> r.node != 0 && ElemAt(s, r.node).key != r.key))
  }

  /** The answer of a finished get: a hit has the asked key and is visible; and whatever was
      visible for that key when the call began is what the call returns. */
  ghost predicate AnswerOk(s: State, key: nat, seen: set<Elem>, result: Option<Elem>) {
    && (result.Some? ==> result.value.key == key && result.value in Visible(s))
    && (forall e :: e in seen && e.key == key ==> result == Some(e))
  }

  ghost predicate MemoryOk(cfg: Config, s: State) {
    && Shaped(cfg, s)
    && (forall b :: 0 <= b < cfg.bucketCount ==> ChainOk(cfg, s, b))
    && (forall b :: 0 <= b < cfg.bucketCount ==> CountOk(cfg, s, b))
    && WriterOk(cfg, s)
  }

  ghost predicate Inv(cfg: Config, s: State) {
    && MemoryOk(cfg, s)
    && (forall r :: r in s.readers ==> ReaderOk(cfg, s, s.readers[r]))
  }

  lemma InitialInv(cfg: Config, s: State)
    requires Initial(cfg, s)
    ensures Inv(cfg, s)
  {
  }

  // ------------------------------------------------------------------ writer steps

  /** What a reader can rely on while the writer moves: linked nodes keep their place and
      their element, and counts never drop. */
  ghost predicate Grows(cfg: Config, s: State, t: State)
    requires Shaped(cfg, s)
  {
    && Shaped(cfg, t)
    && (forall b :: 0 <= b < cfg.bucketCount ==> GrowsAt(s, t, b))
  }

  ghost predicate GrowsAt(s: State, t: State, b: nat)
    requires b < |s.chains| && b < |t.chains| && b < |s.buckets| && b < |t.buckets|
  {
    && s.chains[b] <= t.chains[b]
    && s.buckets[b].count <= t.buckets[b].count
    && (forall j :: 0 <= j < |s.chains[b]| ==> ElemAt(t, s.chains[b][j]) == ElemAt(s, s.chains[b][j]))
  }

  lemma GrowsVisible(cfg: Config, s: State, t: State)
    requires Shaped(cfg, s) && Grows(cfg, s, t)
    ensures Visible(s) <= Visible(t)
  {
    forall e | e in Visible(s) ensures e in Visible(t) {
      var b, j :| 0 <= b < |s.chains| && b < |s.buckets| && 0 <= j < |s.chains[b]| && j < s.buckets[b].count
                  && e == ElemAt(s, s.chains[b][j]);
      assert GrowsAt(s, t, b);
      assert t.chains[b][j] == s.chains[b][j];
    }
  }

  lemma GrowsReader(cfg: Config, s: State, t: State, r: Reader)
    requires Shaped(cfg, s) && Grows(cfg, s, t) && ReaderOk(cfg, s, r)
    requires forall b :: 0 <= b < cfg.bucketCount ==> CountOk(cfg, s, b)
    ensures ReaderOk(cfg, t, r)
  {
    GrowsVisible(cfg, s, t);
    if !r.Resting? && !r.Returned? {
      var b := BucketOf(cfg, r.key);
      assert GrowsAt(s, t, b) && CountOk(cfg, s, b);
      var chain, chain' := s.chains[b], t.chains[b];
      assert forall j :: 0 <= j < |chain| ==> chain'[j] == chain[j];
      forall e | e in r.seen && e.key == r.key
        ensures exists j :: 0 <= j < r.start && ElemAt(t, chain'[j]) == e
      {
        var j :| 0 <= j < r.start && ElemAt(s, chain[j]) == e;
        assert ElemAt(t, chain'[j]) == e;
      }
    }
  }

  /** An element is visible if it sits below its bucket's count. */
  lemma VisibleAt(s: State, b: nat, j: nat)
    requires b < |s.chains| && b < |s.buckets| && j < |s.chains[b]| && j < s.buckets[b].count
    ensures ElemAt(s, s.chains[b][j]) in Visible(s)
  {
  }

  /** Steps that touch neither linked nodes, chains nor counts keep the chains as they are. */
  lemma SameChains(cfg: Config, s: State, t: State)
    requires MemoryOk(cfg, s) && t.chains == s.chains && t.buckets == s.buckets && s.nodes <= t.nodes
    requires !s.writer.Bump? && !t.writer.Bump?
    ensures Grows(cfg, s, t)
    ensures forall b :: 0 <= b < cfg.bucketCount ==> ChainOk(cfg, t, b) && CountOk(cfg, t, b)
  {
    forall b | 0 <= b < cfg.bucketCount
      ensures GrowsAt(s, t, b) && ChainOk(cfg, t, b) && CountOk(cfg, t, b)
    {
      assert ChainOk(cfg, s, b) && CountOk(cfg, s, b);
      forall i | 0 <= i < |t.chains[b]|
        ensures LinkOk(cfg, t, b, i) && ElemAt(t, t.chains[b][i]) == ElemAt(s, s.chains[b][i])
      {
        assert LinkOk(cfg, s, b, i);
      }
    }
  }

  /** The node the probe looks at, and what it does with it. */
  lemma ProbeMoves(cfg: Config, s: State)
    requires MemoryOk(cfg, s) && s.writer.Probe?
    ensures var w, t := s.writer, MoveWriter(cfg, s);
            var chain := s.chains[BucketOf(cfg, w.elem.key)];
            && t == s.(writer := t.writer)
            && t.writer == if w.pos == |chain| then Allocate(w.elem, w.prev, w.pos)
                           else if ElemAt(s, chain[w.pos]).key == w.elem.key then Idle(Some(Present))
                           else Probe(w.elem, chain[w.pos], w.pos + 1)
  {
    var w := s.writer;
    var b := BucketOf(cfg, w.elem.key);
    assert ChainOk(cfg, s, b);
    if 0 < w.pos { assert LinkOk(cfg, s, b, w.pos - 1); }
    if w.pos < |s.chains[b]| { assert LinkOk(cfg, s, b, w.pos); }
  }

  lemma ProbeStep(cfg: Config, s: State)
    requires MemoryOk(cfg, s) && s.writer.Probe?
    ensures Shaped(cfg, MoveWriter(cfg, s)) && WriterOk(cfg, MoveWriter(cfg, s))
  {
    ProbeMoves(cfg, s);
    var t := MoveWriter(cfg, s);
    var chain := s.chains[BucketOf(cfg, s.writer.elem.key)];
    assert forall j :: 0 <= j < |chain| ==> ElemAt(t, chain[j]) == ElemAt(s, chain[j]);
  }

  /** An add that finds its key finds it visible. */
  lemma ProbePresent(cfg: Config, s: State)
    requires MemoryOk(cfg, s) && s.writer.Probe? && MoveWriter(cfg, s).writer == Idle(Some(Present))
    ensures exists e :: e in Visible(s) && e.key == s.writer.elem.key
  {
    ProbeMoves(cfg, s);
    var b := BucketOf(cfg, s.writer.elem.key);
    assert CountOk(cfg, s, b);
    VisibleAt(s, b, s.writer.pos);
  }

  lemma AllocateStep(cfg: Config, s: State)
    requires MemoryOk(cfg, s) && s.writer.Allocate?
    ensures WriterOk(cfg, MoveWriter(cfg, s))
  {
    var t := MoveWriter(cfg, s);
    var chain := s.chains[BucketOf(cfg, s.writer.elem.key)];
    forall b, j | 0 <= b < cfg.bucketCount && 0 <= j < |t.chains[b]|
      ensures 1 <= t.chains[b][j] <= |s.nodes| && ElemAt(t, t.chains[b][j]) == ElemAt(s, s.chains[b][j])
    {
      assert ChainOk(cfg, s, b) && LinkOk(cfg, s, b, j);
    }
  }

  lemma FillStep(cfg: Config, s: State)
    requires MemoryOk(cfg, s) && s.writer.Fill?
    ensures Grows(cfg, s, MoveWriter(cfg, s)) && MemoryOk(cfg, MoveWriter(cfg, s))
  {
    var t := MoveWriter(cfg, s);
    forall b | 0 <= b < cfg.bucketCount
      ensures GrowsAt(s, t, b) && ChainOk(cfg, t, b) && CountOk(cfg, t, b)
    {
      assert ChainOk(cfg, s, b) && CountOk(cfg, s, b);
      forall i | 0 <= i < |t.chains[b]|
        ensures LinkOk(cfg, t, b, i) && ElemAt(t, t.chains[b][i]) == ElemAt(s, s.chains[b][i])
      {
        assert LinkOk(cfg, s, b, i);
      }
    }
  }

  /** The node being extended is linked once, at the end of its own chain. */
  lemma PrevIsLast(cfg: Config, s: State, b: nat, i: nat)
    requires MemoryOk(cfg, s) && s.writer.Link? && s.writer.prev != 0
    requires b < cfg.bucketCount && i < |s.chains[b]| && s.chains[b][i] == s.writer.prev
    ensures b == BucketOf(cfg, s.writer.elem.key) && i + 1 == s.writer.pos == |s.chains[b]|
  {
    var home := BucketOf(cfg, s.writer.elem.key);
    assert ChainOk(cfg, s, home) && ChainOk(cfg, s, b);
    assert LinkOk(cfg, s, home, s.writer.pos - 1) && LinkOk(cfg, s, b, i);
  }

  /** Publishing the node leaves every linked node's element alone and changes only the
      last link of its own chain. */
  lemma LinkStepAt(cfg: Config, s: State, b: nat, i: nat)
    requires MemoryOk(cfg, s) && s.writer.Link? && b < cfg.bucketCount && i < |s.chains[b]|
    ensures var t := MoveWriter(cfg, s);
            Shaped(cfg, t) && s.chains[b] <= t.chains[b] && LinkOk(cfg, t, b, i)
            && ElemAt(t, s.chains[b][i]) == ElemAt(s, s.chains[b][i])
  {
    assert ChainOk(cfg, s, b) && LinkOk(cfg, s, b, i);
    if s.chains[b][i] == s.writer.prev {
      PrevIsLast(cfg, s, b, i);
    } else if b == BucketOf(cfg, s.writer.elem.key) && 0 < s.writer.pos {
      assert LinkOk(cfg, s, b, s.writer.pos - 1);
    }
  }

  /** The chains the node does not belong to. */
  lemma LinkStepOther(cfg: Config, s: State, b: nat)
    requires MemoryOk(cfg, s) && s.writer.Link? && b < cfg.bucketCount && b != BucketOf(cfg, s.writer.elem.key)
    ensures var t := MoveWriter(cfg, s);
            Shaped(cfg, t) && GrowsAt(s, t, b) && ChainOk(cfg, t, b) && CountOk(cfg, t, b)
  {
    var t := MoveWriter(cfg, s);
    assert ChainOk(cfg, s, b) && CountOk(cfg, s, b);
    assert t.chains[b] == s.chains[b];
    forall i | 0 <= i < |s.chains[b]|
      ensures LinkOk(cfg, t, b, i) && ElemAt(t, s.chains[b][i]) == ElemAt(s, s.chains[b][i])
    {
      LinkStepAt(cfg, s, b, i);
    }
  }

  /** The new end of its own chain. */
  lemma LinkNew(cfg: Config, s: State)
    requires MemoryOk(cfg, s) && s.writer.Link?
    ensures var t, w := MoveWriter(cfg, s), s.writer;
            var home := BucketOf(cfg, w.elem.key);
            && Shaped(cfg, t) && t.chains[home] == s.chains[home] + [w.node] && ElemAt(t, w.node) == w.elem
            && t.buckets[home].head == t.chains[home][0] && t.buckets[home].count == s.buckets[home].count
            && LinkOk(cfg, t, home, |s.chains[home]|)
  {
    var w, home := s.writer, BucketOf(cfg, s.writer.elem.key);
    assert ChainOk(cfg, s, home);
    if w.pos != 0 { assert LinkOk(cfg, s, home, w.pos - 1); }
  }

  /** The chain it does belong to. */
  lemma LinkStepHome(cfg: Config, s: State)
    requires MemoryOk(cfg, s) && s.writer.Link?
    ensures var t, b := MoveWriter(cfg, s), BucketOf(cfg, s.writer.elem.key);
            Shaped(cfg, t) && GrowsAt(s, t, b) && ChainOk(cfg, t, b) && CountOk(cfg, t, b)
  {
    var t, home := MoveWriter(cfg, s), BucketOf(cfg, s.writer.elem.key);
    var chain := s.chains[home];
    LinkNew(cfg, s);
    assert ChainOk(cfg, s, home) && CountOk(cfg, s, home);
    forall i | 0 <= i < |chain| ensures LinkOk(cfg, t, home, i) && ElemAt(t, chain[i]) == ElemAt(s, chain[i]) {
      LinkStepAt(cfg, s, home, i);
    }
    forall i | 0 <= i < |t.chains[home]| ensures LinkOk(cfg, t, home, i) {
      assert i < |chain| || i == |chain|;
    }
  }

  lemma LinkStep(cfg: Config, s: State)
    requires MemoryOk(cfg, s) && s.writer.Link?
    ensures Grows(cfg, s, MoveWriter(cfg, s)) && MemoryOk(cfg, MoveWriter(cfg, s))
  {
    var t, home := MoveWriter(cfg, s), BucketOf(cfg, s.writer.elem.key);
    LinkStepHome(cfg, s);
    forall b | 0 <= b < cfg.bucketCount
      ensures GrowsAt(s, t, b) && ChainOk(cfg, t, b) && CountOk(cfg, t, b)
    {
      if b != home {
        LinkStepOther(cfg, s, b);
      }
    }
  }

  lemma BumpStep(cfg: Config, s: State)
    requires MemoryOk(cfg, s) && s.writer.Bump?
    ensures Grows(cfg, s, MoveWriter(cfg, s)) && MemoryOk(cfg, MoveWriter(cfg, s))
  {
    var t := MoveWriter(cfg, s);
    forall b | 0 <= b < cfg.bucketCount
      ensures GrowsAt(s, t, b) && ChainOk(cfg, t, b) && CountOk(cfg, t, b)
    {
      assert ChainOk(cfg, s, b) && CountOk(cfg, s, b);
      forall i | 0 <= i < |t.chains[b]| ensures LinkOk(cfg, t, b, i) {
        assert LinkOk(cfg, s, b, i);
      }
    }
    var home := BucketOf(cfg, s.writer.elem.key);
    assert CountOk(cfg, s, home);
    VisibleAt(t, home, |t.chains[home]| - 1);
  }

  lemma WriterStepMemory(cfg: Config, s: State)
    requires MemoryOk(cfg, s) && !s.writer.Idle?
    ensures MemoryOk(cfg, MoveWriter(cfg, s)) && Grows(cfg, s, MoveWriter(cfg, s))
  {
    var t := MoveWriter(cfg, s);
    match s.writer
    case Probe(_, _, _) => ProbeStep(cfg, s); SameChains(cfg, s, t);
    case Allocate(_, _, _) => AllocateStep(cfg, s); SameChains(cfg, s, t);
    case Fill(_, _, _, _) => FillStep(cfg, s);
    case Link(_, _, _, _) => LinkStep(cfg, s);
    case Bump(_) => BumpStep(cfg, s);
    case Tally(_) => SameChains(cfg, s, t);
  }

  lemma WriterStepInv(cfg: Config, s: State)
    requires Inv(cfg, s) && !s.writer.Idle?
    ensures Inv(cfg, MoveWriter(cfg, s))
  {
    var t := MoveWriter(cfg, s);
    WriterStepMemory(cfg, s);
    assert t.readers == s.readers;
    forall r | r in t.readers ensures ReaderOk(cfg, t, t.readers[r]) {
      GrowsReader(cfg, s, t, s.readers[r]);
    }
  }

  // ------------------------------------------------------------------ reader steps

  lemma ReaderOkSameMemory(cfg: Config, s: State, t: State, r: Reader)
    requires Shaped(cfg, s) && ReaderOk(cfg, s, r)
    requires t.nodes == s.nodes && t.buckets == s.buckets && t.chains == s.chains
    ensures ReaderOk(cfg, t, r)
  {
    assert forall a :: ElemAt(t, a) == ElemAt(s, a);
    assert Visible(t) == Visible(s);
  }

  /** A new get starts from what is visible now. */
  lemma CallGetOk(cfg: Config, s: State, key: nat)
    requires Inv(cfg, s)
    ensures ReaderOk(cfg, s, LoadHead(key, s.buckets[BucketOf(cfg, key)].count, Visible(s)))
  {
    var home := BucketOf(cfg, key);
    var chain := s.chains[home];
    var start := s.buckets[home].count;
    assert CountOk(cfg, s, home);
    forall e | e in Visible(s) && e.key == key
      ensures exists j :: 0 <= j < start && ElemAt(s, chain[j]) == e
    {
      var b, j :| 0 <= b < |s.chains| && b < |s.buckets| && 0 <= j < |s.chains[b]| && j < s.buckets[b].count
                  && e == ElemAt(s, s.chains[b][j]);
      assert ChainOk(cfg, s, b) && LinkOk(cfg, s, b, j);
    }
  }

  lemma MoveReaderOk(cfg: Config, s: State, r: Reader)
    requires Inv(cfg, s) && ReaderOk(cfg, s, r) && !r.Resting? && !r.Returned?
    ensures ReaderOk(cfg, s, MoveReader(cfg, s, r))
  {
    var b := BucketOf(cfg, r.key);
    var chain := s.chains[b];
    assert ChainOk(cfg, s, b) && CountOk(cfg, s, b);
    match r
    case LoadHead(_, _, _) => if chain != [] { assert LinkOk(cfg, s, b, 0); }
    case TestCount(_, _, _, _, _) =>
    case Compare(key, start, seen, node, i) =>
      if node != 0 && ElemAt(s, node).key == key {
        VisibleAt(s, b, i);
        assert forall j :: 0 <= j < |chain| && j != i ==> ElemAt(s, chain[j]).key != key;
      }
    case LoadNext(_, _, _, _, i) =>
      assert LinkOk(cfg, s, b, i);
      if i + 1 < |chain| { assert LinkOk(cfg, s, b, i + 1); }
  }

  lemma ReaderMoveInv(cfg: Config, s: State, t: State, r: nat, moved: Reader)
    requires Inv(cfg, s) && ReaderOk(cfg, s, moved) && t == s.(readers := s.readers[r := moved])
    ensures Inv(cfg, t)
  {
    assert forall a :: NodeAt(t, a) == NodeAt(s, a) && ElemAt(t, a) == ElemAt(s, a);
    assert Visible(t) == Visible(s);
    forall b | 0 <= b < cfg.bucketCount ensures ChainOk(cfg, t, b) && CountOk(cfg, t, b) {
      assert ChainOk(cfg, s, b) && CountOk(cfg, s, b);
      forall i | 0 <= i < |t.chains[b]| ensures LinkOk(cfg, t, b, i) {
        assert LinkOk(cfg, s, b, i);
      }
    }
    forall x | x in t.readers ensures ReaderOk(cfg, t, t.readers[x]) {
      ReaderOkSameMemory(cfg, s, t, if x == r then moved else s.readers[x]);
    }
  }

  /** Every step of every interleaving keeps the invariant. */
  lemma StepInv(cfg: Config, s: State, a: Action)
    requires Inv(cfg, s) && Enabled(s, a)
    ensures Inv(cfg, Next(cfg, s, a))
  {
    var t := Next(cfg, s, a);
    match a
    case CallAdd(_) =>
      SameChains(cfg, s, t);
      forall r | r in t.readers ensures ReaderOk(cfg, t, t.readers[r]) {
        ReaderOkSameMemory(cfg, s, t, s.readers[r]);
      }
    case WriterStep => WriterStepInv(cfg, s);
    case CallGet(r, key) =>
      CallGetOk(cfg, s, key);
      ReaderMoveInv(cfg, s, t, r, t.readers[r]);
    case ReaderStep(r) =>
      MoveReaderOk(cfg, s, s.readers[r]);
      ReaderMoveInv(cfg, s, t, r, t.readers[r]);
  }

  // ------------------------------------------------------------------ whole runs

  /** A run: from an initial state, each action taken where it is enabled. */
  ghost predicate Run(cfg: Config, states: seq<State>, actions: seq<Action>) {
    && |states| == |actions| + 1
    && Initial(cfg, states[0])
    && forall i :: 0 <= i < |actions| ==> StepAt(cfg, states, actions, i)
  }

  ghost predicate StepAt(cfg: Config, states: seq<State>, actions: seq<Action>, i: nat)
    requires |states| == |actions| + 1 && i < |actions|
  {
    Shaped(cfg, states[i]) && Enabled(states[i], actions[i]) && states[i + 1] == Next(cfg, states[i], actions[i])
  }

  lemma {:induction false} RunInv(cfg: Config, states: seq<State>, actions: seq<Action>, n: nat)
    requires Run(cfg, states, actions) && n < |states|
    ensures Inv(cfg, states[n])
  {
    if n == 0 {
      InitialInv(cfg, states[0]);
    } else {
      RunInv(cfg, states, actions, n - 1);
      assert StepAt(cfg, states, actions, n - 1);
      StepInv(cfg, states[n - 1], actions[n - 1]);
    }
  }

  /** In every state of every run, each finished get returned a visible element with the
      asked key or nothing, and it returned whatever was visible for the key when the call
      began; in each bucket count <= chain length <= count + 1 and keys are distinct; and
      the table never holds more than its capacity. */
  lemma LocklessSafety(cfg: Config, states: seq<State>, actions: seq<Action>, n: nat)
    requires Run(cfg, states, actions) && n < |states|
    ensures var s := states[n];
            && Shaped(cfg, s)
            && (forall r :: r in s.readers && s.readers[r].Returned? ==>
                  var g := s.readers[r];
                  && (g.result.Some? ==> g.result.value.key == g.key && g.result.value in Visible(s))
                  && (forall e :: e in g.seen && e.key == g.key ==> g.result == Some(e)))
            && (forall b :: 0 <= b < cfg.bucketCount ==>
                  s.buckets[b].count <= |s.chains[b]| <= s.buckets[b].count + 1)
            && (forall b, i, j :: 0 <= b < cfg.bucketCount && 0 <= i < j < |s.chains[b]| ==>
                  ElemAt(s, s.chains[b][i]).key != ElemAt(s, s.chains[b][j]).key)
            && s.usedN <= |s.nodes| <= cfg.maxN
  {
    RunInv(cfg, states, actions, n);
    var s := states[n];
    forall b | 0 <= b < cfg.bucketCount
      ensures s.buckets[b].count <= |s.chains[b]| <= s.buckets[b].count + 1
    {
      assert CountOk(cfg, s, b);
    }
    forall b, i, j | 0 <= b < cfg.bucketCount && 0 <= i < j < |s.chains[b]|
      ensures ElemAt(s, s.chains[b][i]).key != ElemAt(s, s.chains[b][j]).key
    {
      assert ChainOk(cfg, s, b);
    }
    forall r | r in s.readers && s.readers[r].Returned?
      ensures AnswerOk(s, s.readers[r].key, s.readers[r].seen, s.readers[r].result)
    {
      assert ReaderOk(cfg, s, s.readers[r]);
    }
  }

  lemma VisibleStep(cfg: Config, s: State, a: Action)
    requires MemoryOk(cfg, s) && Enabled(s, a)
    ensures Visible(s) <= Visible(Next(cfg, s, a))
  {
    var t := Next(cfg, s, a);
    if a.WriterStep? {
      WriterStepMemory(cfg, s);
      GrowsVisible(cfg, s, t);
    } else {
      assert forall x :: ElemAt(t, x) == ElemAt(s, x);
    }
  }

  lemma {:induction false} Monotone(v: seq<set<Elem>>, m: nat, n: nat)
    requires m <= n < |v| && forall i :: 0 < i < |v| ==> v[i - 1] <= v[i]
    ensures v[m] <= v[n]
    decreases n
  {
    if m < n {
      Monotone(v, m, n - 1);
    }
  }

  lemma VisibleNext(cfg: Config, states: seq<State>, actions: seq<Action>, n: nat)
    requires Run(cfg, states, actions) && n < |actions|
    ensures Visible(states[n]) <= Visible(states[n + 1])
  {
    RunInv(cfg, states, actions, n);
    assert StepAt(cfg, states, actions, n);
    VisibleStep(cfg, states[n], actions[n]);
  }

  /** Visibility only grows along a run: a completed add stays found. */
  lemma VisibleForever(cfg: Config, states: seq<State>, actions: seq<Action>, m: nat, n: nat)
    requires Run(cfg, states, actions) && m <= n < |states|
    ensures Visible(states[m]) <= Visible(states[n])
  {
    var v := seq(|states|, i requires 0 <= i < |states| => Visible(states[i]));
    forall i | 0 < i < |v| ensures v[i - 1] <= v[i] {
      VisibleNext(cfg, states, actions, i - 1);
    }
    Monotone(v, m, n);
  }

  /** A place that only now counts as visible is the one the bump step has counted. */
  lemma NewlyCounted(cfg: Config, s: State, b: nat, j: nat)
    requires MemoryOk(cfg, s) && !s.writer.Idle? && b < cfg.bucketCount
    requires Shaped(cfg, MoveWriter(cfg, s)) && j < |MoveWriter(cfg, s).chains[b]|
    requires s.buckets[b].count <= j < MoveWriter(cfg, s).buckets[b].count
    ensures s.writer.Bump? && ElemAt(MoveWriter(cfg, s), MoveWriter(cfg, s).chains[b][j]) == s.writer.elem
  {
    assert CountOk(cfg, s, b);
  }

  /** Only the bump step changes what is visible, by exactly the new element. */
  lemma VisibleChange(cfg: Config, s: State)
    requires MemoryOk(cfg, s) && !s.writer.Idle?
    ensures Visible(MoveWriter(cfg, s)) == if s.writer.Bump? then Visible(s) + {s.writer.elem} else Visible(s)
  {
    var t := MoveWriter(cfg, s);
    WriterStepMemory(cfg, s);
    GrowsVisible(cfg, s, t);
    forall e | e in Visible(t)
      ensures e in Visible(s) || (s.writer.Bump? && e == s.writer.elem)
    {
      var b, j :| 0 <= b < |t.chains| && b < |t.buckets| && 0 <= j < |t.chains[b]| && j < t.buckets[b].count
                  && e == ElemAt(t, t.chains[b][j]);
      if j < s.buckets[b].count {
        StillVisible(cfg, s, t, b, j);
      } else {
        NewlyCounted(cfg, s, b, j);
      }
    }
    if s.writer.Bump? {
      BumpedIsVisible(cfg, s);
    }
  }

  lemma StillVisible(cfg: Config, s: State, t: State, b: nat, j: nat)
    requires MemoryOk(cfg, s) && Grows(cfg, s, t) && b < cfg.bucketCount && j < s.buckets[b].count && j < |t.chains[b]|
    ensures ElemAt(t, t.chains[b][j]) in Visible(s)
  {
    assert GrowsAt(s, t, b) && CountOk(cfg, s, b);
    VisibleAt(s, b, j);
  }

  lemma BumpedIsVisible(cfg: Config, s: State)
    requires MemoryOk(cfg, s) && s.writer.Bump?
    ensures s.writer.elem in Visible(MoveWriter(cfg, s))
  {
    BumpStep(cfg, s);
  }

  /** What an add reports: Added only once its element is visible, Present only if the key
      already is, OutOfMemory only when all nodes are used; and only the bump step changes
      what is visible, by exactly the new element. */
  lemma AddReports(cfg: Config, s: State)
    requires MemoryOk(cfg, s) && !s.writer.Idle?
    ensures var t := MoveWriter(cfg, s);
            && (t.writer == Idle(Some(Added)) ==> s.writer.elem in Visible(t))
            && (t.writer == Idle(Some(Present)) ==> exists e :: e in Visible(t) && e.key == s.writer.elem.key)
            && (t.writer == Idle(Some(OutOfMemory)) ==> |t.nodes| == cfg.maxN)
            && Visible(t) == (if s.writer.Bump? then Visible(s) + {s.writer.elem} else Visible(s))
  {
    var t := MoveWriter(cfg, s);
    VisibleChange(cfg, s);
    if s.writer.Probe? && t.writer == Idle(Some(Present)) { ProbePresent(cfg, s); }
  }

  lemma WriterLeavesReaders(cfg: Config, s: State)
    requires Shaped(cfg, s) && !s.writer.Idle?
    ensures MoveWriter(cfg, s).readers == s.readers
  {
  }

  /** Reader `r` has not started another get since action `n`. */
  ghost predicate SameCall(actions: seq<Action>, r: nat, n: nat, k: nat)
    requires n <= k <= |actions|
  {
    forall j :: n < j < k ==> !(actions[j].CallGet? && actions[j].reader == r)
  }

  /** A get remembers its key and what was visible when it began. */
  lemma {:induction false} CallRemembered(
      cfg: Config, states: seq<State>, actions: seq<Action>, r: nat, key: nat, n: nat, k: nat)
    requires Run(cfg, states, actions) && n < k < |states|
    requires actions[n] == CallGet(r, key) && SameCall(actions, r, n, k)
    ensures r in states[k].readers && !states[k].readers[r].Resting?
    ensures states[k].readers[r].key == key && states[k].readers[r].seen == Visible(states[n])
    decreases k
  {
    assert StepAt(cfg, states, actions, k - 1);
    if n + 1 < k {
      CallRemembered(cfg, states, actions, r, key, n, k - 1);
      var s, a := states[k - 1], actions[k - 1];
      if a.WriterStep? {
        WriterLeavesReaders(cfg, s);
      }
    }
  }

  /** Two visible elements never share a key. */
  lemma OneVisiblePerKey(cfg: Config, s: State, d: Elem, e: Elem)
    requires MemoryOk(cfg, s) && d in Visible(s) && e in Visible(s) && d.key == e.key
    ensures d == e
  {
    var b, i :| 0 <= b < |s.chains| && b < |s.buckets| && 0 <= i < |s.chains[b]| && i < s.buckets[b].count
                && d == ElemAt(s, s.chains[b][i]);
    var c, j :| 0 <= c < |s.chains| && c < |s.buckets| && 0 <= j < |s.chains[c]| && j < s.buckets[c].count
                && e == ElemAt(s, s.chains[c][j]);
    assert ChainOk(cfg, s, b) && LinkOk(cfg, s, b, i) && ChainOk(cfg, s, c) && LinkOk(cfg, s, c, j);
  }

  /** A get is linearizable: between its beginning and its end there is a state whose visible
      elements are exactly what it answers for its key. */
  lemma GetIsLinearizable(cfg: Config, states: seq<State>, actions: seq<Action>, n: nat, k: nat, r: nat, key: nat)
    requires Run(cfg, states, actions) && n < k < |states|
    requires actions[n] == CallGet(r, key) && SameCall(actions, r, n, k)
    requires r in states[k].readers && states[k].readers[r].Returned?
    ensures exists j :: n <= j <= k && forall e: Elem ::
              states[k].readers[r].result == Some(e) <==> e.key == key && e in Visible(states[j])
  {
    CallRemembered(cfg, states, actions, r, key, n, k);
    LocklessSafety(cfg, states, actions, k);
    var result := states[k].readers[r].result;
    if result.Some? {
      RunInv(cfg, states, actions, k);
      forall e: Elem | e.key == key && e in Visible(states[k]) ensures result == Some(e) {
        OneVisiblePerKey(cfg, states[k], e, result.value);
      }
    } else {
      assert forall e: Elem :: result == Some(e) <==> e.key == key && e in Visible(states[n]);
    }
  }

  /** The promise to callers: an element whose add reported success at step `m` is what every
      get for its key returns that began after it, whenever it finishes. */
  lemma CompletedAddIsFound(
      cfg: Config, states: seq<State>, actions: seq<Action>, m: nat, n: nat, k: nat, r: nat, e: Elem)
    requires Run(cfg, states, actions) && m < n < k < |states|
    requires actions[m] == WriterStep && !states[m].writer.Idle? && states[m].writer.elem == e
    requires states[m + 1].writer == Idle(Some(Added))
    requires actions[n] == CallGet(r, e.key) && SameCall(actions, r, n, k)
    requires r in states[k].readers && states[k].readers[r].Returned?
    ensures states[k].readers[r].result == Some(e)
  {
    RunInv(cfg, states, actions, m);
    assert StepAt(cfg, states, actions, m);
    AddReports(cfg, states[m]);
    VisibleForever(cfg, states, actions, m + 1, n);
    CallRemembered(cfg, states, actions, r, e.key, n, k);
    LocklessSafety(cfg, states, actions, k);
  }
}
