/** What a call of the lockless hash table does between its beginning and its return,
    whatever the other processes do meanwhile: what an add reports and changes, and how many
    steps of their own adds and gets take.

    About the same code as LocklessHash, modules/mod_common/ngx_comm_shm.c. */
module LocklessCalls {
  import opened Sequences
  import opened LocklessHash

  ghost predicate HasKey(v: set<Elem>, key: nat) {
    exists e :: e in v && e.key == key
  }

  /** What an add reports of a table that held `before` in `used` nodes when it was called. */
  ghost function Report(cfg: Config, e: Elem, before: set<Elem>, used: nat): Outcome {
    if HasKey(before, e.key) then Present else if used < cfg.maxN then Added else OutOfMemory
  }

  // ------------------------------------------------- adds

  /** An add of `e` is under way, or has returned; it was called when the table held `before`
      in `used` nodes. */
  ghost predicate Adding(cfg: Config, e: Elem, before: set<Elem>, used: nat, s: State) {
    match s.writer
    case Idle(last) =>
      var report := Report(cfg, e, before, used);
      && last == Some(report) && Visible(s) == (if report == Added then before + {e} else before)
      && |s.nodes| == used + if report == Added then 1 else 0
    case Probe(elem, _, _) => elem == e && Visible(s) == before && |s.nodes| == used
    case Allocate(elem, _, _) => elem == e && Visible(s) == before && |s.nodes| == used && !HasKey(before, e.key)
    case Tally(elem) => elem == e && Visible(s) == before + {e} && Claimed(cfg, e, before, used, s)
    case _ => s.writer.elem == e && Visible(s) == before && Claimed(cfg, e, before, used, s)
  }

  /** The add has its node. */
  ghost predicate Claimed(cfg: Config, e: Elem, before: set<Elem>, used: nat, s: State) {
    |s.nodes| == used + 1 && used < cfg.maxN && !HasKey(before, e.key)
  }

  /** A probe that came to the end of the chain has ruled the key out. */
  lemma ProbedAbsent(cfg: Config, s: State)
    requires MemoryOk(cfg, s) && s.writer.Allocate?
    ensures !HasKey(Visible(s), s.writer.elem.key)
  {
    var home := BucketOf(cfg, s.writer.elem.key);
    forall e | e in Visible(s) ensures e.key != s.writer.elem.key {
      var b, j :| 0 <= b < |s.chains| && b < |s.buckets| && 0 <= j < |s.chains[b]| && j < s.buckets[b].count
                  && e == ElemAt(s, s.chains[b][j]);
      assert ChainOk(cfg, s, b) && LinkOk(cfg, s, b, j) && CountOk(cfg, s, home);
    }
  }

  lemma AddStep(cfg: Config, e: Elem, before: set<Elem>, used: nat, s: State)
    requires MemoryOk(cfg, s) && Adding(cfg, e, before, used, s) && !s.writer.Idle?
    ensures Adding(cfg, e, before, used, MoveWriter(cfg, s))
  {
    var t := MoveWriter(cfg, s);
    VisibleChange(cfg, s);
    WriterStepMemory(cfg, s);
    if s.writer.Probe? {
      ProbeMoves(cfg, s);
      if t.writer.Allocate? {
        ProbedAbsent(cfg, t);
      } else if t.writer.Idle? {
        ProbePresent(cfg, s);
      }
    }
  }

  lemma ReadersChangeNothing(cfg: Config, s: State, a: Action)
    requires Shaped(cfg, s) && Enabled(s, a) && (a.CallGet? || a.ReaderStep?)
    ensures var t := Next(cfg, s, a);
            Visible(t) == Visible(s) && t.writer == s.writer && t.nodes == s.nodes && t.chains == s.chains
  {
    var t := Next(cfg, s, a);
    assert forall x :: ElemAt(t, x) == ElemAt(s, x);
  }

  lemma AddStepAny(cfg: Config, e: Elem, before: set<Elem>, used: nat, s: State, a: Action)
    requires Inv(cfg, s) && Adding(cfg, e, before, used, s) && Enabled(s, a) && !a.CallAdd?
    ensures Adding(cfg, e, before, used, Next(cfg, s, a))
  {
    if a.WriterStep? {
      AddStep(cfg, e, before, used, s);
    } else {
      ReadersChangeNothing(cfg, s, a);
    }
  }

  lemma RunStep(cfg: Config, states: seq<State>, actions: seq<Action>, i: nat)
    requires Run(cfg, states, actions) && i < |actions|
    ensures Inv(cfg, states[i]) && Enabled(states[i], actions[i])
    ensures states[i + 1] == Next(cfg, states[i], actions[i])
  {
    RunInv(cfg, states, actions, i);
    assert StepAt(cfg, states, actions, i);
  }

  lemma AddBegins(cfg: Config, s: State, e: Elem)
    requires Inv(cfg, s) && s.writer.Idle?
    ensures Adding(cfg, e, Visible(s), |s.nodes|, Next(cfg, s, CallAdd(e)))
  {
    var t := Next(cfg, s, CallAdd(e));
    assert forall x :: ElemAt(t, x) == ElemAt(s, x);
    assert Visible(t) == Visible(s);
  }

  /** No other add was called after step `n` and before step `k`. */
  ghost predicate SameAdd(actions: seq<Action>, n: nat, k: nat)
    requires n <= k <= |actions|
  {
    forall j :: n < j < k ==> !actions[j].CallAdd?
  }

  /** From its first step on. */
  lemma {:induction false} AddGoesOn(
      cfg: Config, states: seq<State>, actions: seq<Action>, e: Elem, before: set<Elem>, used: nat, n: nat, k: nat)
    requires Run(cfg, states, actions) && n <= k < |states| && Adding(cfg, e, before, used, states[n])
    requires forall j :: n <= j < k ==> !actions[j].CallAdd?
    ensures Adding(cfg, e, before, used, states[k])
    decreases k
  {
    if n < k {
      AddGoesOn(cfg, states, actions, e, before, used, n, k - 1);
      AddStepAt(cfg, states, actions, e, before, used, k - 1);
    }
  }

  lemma AddStepAt(cfg: Config, states: seq<State>, actions: seq<Action>, e: Elem, before: set<Elem>, used: nat, i: nat)
    requires Run(cfg, states, actions) && i < |actions| && !actions[i].CallAdd?
    requires Adding(cfg, e, before, used, states[i])
    ensures Adding(cfg, e, before, used, states[i + 1])
  {
    RunStep(cfg, states, actions, i);
    AddStepAny(cfg, e, before, used, states[i], actions[i]);
  }

  /** An add that has returned reports exactly what the table held when it was called: present
      if its key was visible, out of memory if it was not and no node was free, and otherwise
      success; then, and only then, its element is visible, and nothing else has changed. */
  lemma AddAnswers(cfg: Config, states: seq<State>, actions: seq<Action>, e: Elem, n: nat, k: nat)
    requires Run(cfg, states, actions) && n < k < |states|
    requires actions[n] == CallAdd(e) && SameAdd(actions, n, k) && states[k].writer.Idle?
    ensures states[k].writer.last == Some(
              if exists d :: d in Visible(states[n]) && d.key == e.key then Present
              else if |states[n].nodes| < cfg.maxN then Added
              else OutOfMemory)
    ensures Visible(states[k]) ==
              Visible(states[n]) + if states[k].writer.last == Some(Added) then {e} else {}
  {
    RunStep(cfg, states, actions, n);
    AddBegins(cfg, states[n], e);
    AddGoesOn(cfg, states, actions, e, Visible(states[n]), |states[n].nodes|, n + 1, k);
  }

  /** An add that was called and has reported success is found by every get that begins
      afterwards, whenever it finishes. */
  lemma AddedIsFound(
      cfg: Config, states: seq<State>, actions: seq<Action>, e: Elem, m: nat, n: nat, k: nat, r: nat)
    requires Run(cfg, states, actions) && m < n < k < |states|
    requires actions[m] == CallAdd(e) && SameAdd(actions, m, n) && states[n].writer == Idle(Some(Added))
    requires actions[n] == CallGet(r, e.key) && SameCall(actions, r, n, k)
    requires r in states[k].readers && states[k].readers[r].Returned?
    ensures states[k].readers[r].result == Some(e)
  {
    AddAnswers(cfg, states, actions, e, m, n);
    CallRemembered(cfg, states, actions, r, e.key, n, k);
    LocklessSafety(cfg, states, actions, k);
  }

  /** How many steps the writer still has to take. */
  function AddLeft(cfg: Config, s: State): int
    requires Shaped(cfg, s)
  {
    match s.writer
    case Idle(_) => 0
    case Probe(elem, _, pos) => |s.chains[BucketOf(cfg, elem.key)]| - pos + 6
    case Allocate(_, _, _) => 5
    case Fill(_, _, _, _) => 4
    case Link(_, _, _, _) => 3
    case Bump(_) => 2
    case Tally(_) => 1
  }

  lemma AddNearer(cfg: Config, s: State)
    requires MemoryOk(cfg, s) && !s.writer.Idle?
    ensures Shaped(cfg, MoveWriter(cfg, s)) && 0 <= AddLeft(cfg, MoveWriter(cfg, s)) < AddLeft(cfg, s)
  {
    WriterStepMemory(cfg, s);
    if s.writer.Probe? {
      ProbeMoves(cfg, s);
    } else if s.writer.Link? && s.writer.pos != 0 {
      var home := BucketOf(cfg, s.writer.elem.key);
      assert ChainOk(cfg, s, home) && LinkOk(cfg, s, home, s.writer.pos - 1);
    }
  }

  lemma AddLeftOf(cfg: Config, s: State, a: Action)
    requires Inv(cfg, s) && Enabled(s, a) && !a.CallAdd?
    ensures var t := Next(cfg, s, a);
            Shaped(cfg, t) && AddLeft(cfg, t) + (if a.WriterStep? then 1 else 0) <= AddLeft(cfg, s)
  {
    if a.WriterStep? {
      AddNearer(cfg, s);
    } else {
      ReadersChangeNothing(cfg, s, a);
    }
  }

  lemma AddLeftMeans(cfg: Config, s: State)
    requires Inv(cfg, s)
    ensures 0 <= AddLeft(cfg, s) && (AddLeft(cfg, s) == 0 <==> s.writer.Idle?)
    ensures s.writer.Idle? || Enabled(s, WriterStep)
  {
  }

  /** How often `a` happened from step `n` on and before step `k`. */
  function Times(actions: seq<Action>, a: Action, n: nat, k: nat): nat
    requires n <= k <= |actions|
  {
    if n == k then 0 else Times(actions, a, n, k - 1) + if actions[k - 1] == a then 1 else 0
  }

  lemma {:induction false} Countdown(left: seq<int>, actions: seq<Action>, a: Action, n: nat, k: nat)
    requires n <= k <= |actions| < |left|
    requires forall i :: n <= i < k ==> left[i + 1] + (if actions[i] == a then 1 else 0) <= left[i]
    ensures Times(actions, a, n, k) + left[k] <= left[n]
    decreases k
  {
    if n < k {
      Countdown(left, actions, a, n, k - 1);
      assert left[k - 1 + 1] + (if actions[k - 1] == a then 1 else 0) <= left[k - 1];
    }
  }

  lemma AddLeftAfter(cfg: Config, states: seq<State>, actions: seq<Action>, n: nat, k: nat)
    requires Run(cfg, states, actions) && n <= k < |states|
    requires forall j :: n <= j < k ==> !actions[j].CallAdd?
    ensures Shaped(cfg, states[n]) && Shaped(cfg, states[k])
    ensures Times(actions, WriterStep, n, k) + AddLeft(cfg, states[k]) <= AddLeft(cfg, states[n])
  {
    RunInv(cfg, states, actions, n);
    RunInv(cfg, states, actions, k);
    var left := seq(|states|, i requires 0 <= i < |states| =>
                      if Shaped(cfg, states[i]) then AddLeft(cfg, states[i]) else 0);
    forall i | n <= i < k ensures left[i + 1] + (if actions[i] == WriterStep then 1 else 0) <= left[i] {
      AddLeftAt(cfg, states, actions, i);
    }
    Countdown(left, actions, WriterStep, n, k);
  }

  lemma AddLeftAt(cfg: Config, states: seq<State>, actions: seq<Action>, i: nat)
    requires Run(cfg, states, actions) && i < |actions| && !actions[i].CallAdd?
    ensures Shaped(cfg, states[i]) && Shaped(cfg, states[i + 1])
    ensures AddLeft(cfg, states[i + 1]) + (if actions[i] == WriterStep then 1 else 0) <= AddLeft(cfg, states[i])
  {
    RunStep(cfg, states, actions, i);
    AddLeftOf(cfg, states[i], actions[i]);
  }

  /** An add never waits: it returns after at most six steps of its own more than there are
      nodes in its chain, and until it has returned its next step can be taken. */
  lemma AddNeverWaits(cfg: Config, states: seq<State>, actions: seq<Action>, e: Elem, n: nat, k: nat)
    requires Run(cfg, states, actions) && n < k < |states|
    requires actions[n] == CallAdd(e) && SameAdd(actions, n, k)
    ensures Shaped(cfg, states[n])
    ensures Times(actions, WriterStep, n + 1, k) <= |states[n].chains[BucketOf(cfg, e.key)]| + 6
    ensures Times(actions, WriterStep, n + 1, k) == |states[n].chains[BucketOf(cfg, e.key)]| + 6 ==>
              states[k].writer.Idle?
    ensures states[k].writer.Idle? || Enabled(states[k], WriterStep)
  {
    RunStep(cfg, states, actions, n);
    AddLeftAfter(cfg, states, actions, n + 1, k);
    RunInv(cfg, states, actions, k);
    AddLeftMeans(cfg, states[k]);
  }

  // ------------------------------------------------- gets

  /** How many steps a get that has not returned has taken. */
  function GetTaken(r: Reader): nat {
    match r
    case Resting => 0
    case LoadHead(_, _, _) => 0
    case TestCount(_, _, _, _, i) => 1 + 3 * i
    case Compare(_, _, _, _, i) => 2 + 3 * i
    case LoadNext(_, _, _, _, i) => 3 + 3 * i
    case Returned(_, _, _) => 0
  }

  lemma GetNearer(cfg: Config, s: State, r: Reader)
    requires Inv(cfg, s) && ReaderOk(cfg, s, r) && !r.Resting? && !r.Returned?
    ensures var q := MoveReader(cfg, s, r);
            && !q.Resting? && q.key == r.key && (!q.Returned? ==> GetTaken(q) == GetTaken(r) + 1)
            && GetTaken(r) + 1 <= 3 * |s.chains[BucketOf(cfg, r.key)]| + 2
  {
    assert CountOk(cfg, s, BucketOf(cfg, r.key));
  }

  lemma ChainsGrow(cfg: Config, s: State, a: Action, b: nat)
    requires Inv(cfg, s) && Enabled(s, a) && b < cfg.bucketCount
    ensures Shaped(cfg, Next(cfg, s, a)) && |s.chains[b]| <= |Next(cfg, s, a).chains[b]|
  {
    StepInv(cfg, s, a);
    if a.WriterStep? {
      WriterStepMemory(cfg, s);
      assert GrowsAt(s, MoveWriter(cfg, s), b);
    }
  }

  /** The get for `key` by reader `r` has taken `steps` steps. */
  ghost predicate Getting(cfg: Config, s: State, r: nat, key: nat, steps: nat) {
    && Shaped(cfg, s) && r in s.readers && !s.readers[r].Resting? && s.readers[r].key == key
    && steps <= 3 * |s.chains[BucketOf(cfg, key)]| + 2
    && (!s.readers[r].Returned? ==> steps == GetTaken(s.readers[r]))
  }

  lemma GetStep(cfg: Config, s: State, r: nat, key: nat, steps: nat, a: Action)
    requires Inv(cfg, s) && Getting(cfg, s, r, key, steps) && Enabled(s, a) && !(a.CallGet? && a.reader == r)
    ensures Getting(cfg, Next(cfg, s, a), r, key, steps + if a == ReaderStep(r) then 1 else 0)
  {
    ChainsGrow(cfg, s, a, BucketOf(cfg, key));
    if a == ReaderStep(r) {
      GetNearer(cfg, s, s.readers[r]);
    } else if a.WriterStep? {
      WriterLeavesReaders(cfg, s);
    }
  }

  lemma GetBegins(cfg: Config, states: seq<State>, actions: seq<Action>, r: nat, key: nat, n: nat)
    requires Run(cfg, states, actions) && n < |actions| && actions[n] == CallGet(r, key)
    ensures Getting(cfg, states[n + 1], r, key, 0)
  {
    RunStep(cfg, states, actions, n);
  }

  lemma {:induction false} GetGoesOn(
      cfg: Config, states: seq<State>, actions: seq<Action>, r: nat, key: nat, n: nat, k: nat)
    requires Run(cfg, states, actions) && n <= k < |states| && Getting(cfg, states[n], r, key, 0)
    requires forall j :: n <= j < k ==> !(actions[j].CallGet? && actions[j].reader == r)
    ensures Getting(cfg, states[k], r, key, Times(actions, ReaderStep(r), n, k))
    decreases k
  {
    if n < k {
      GetGoesOn(cfg, states, actions, r, key, n, k - 1);
      GetStepAt(cfg, states, actions, r, key, Times(actions, ReaderStep(r), n, k - 1), k - 1);
    }
  }

  lemma GetStepAt(cfg: Config, states: seq<State>, actions: seq<Action>, r: nat, key: nat, steps: nat, i: nat)
    requires Run(cfg, states, actions) && i < |actions| && !(actions[i].CallGet? && actions[i].reader == r)
    requires Getting(cfg, states[i], r, key, steps)
    ensures Getting(cfg, states[i + 1], r, key, steps + if actions[i] == ReaderStep(r) then 1 else 0)
  {
    RunStep(cfg, states, actions, i);
    GetStep(cfg, states[i], r, key, steps, actions[i]);
  }

  /** A get never waits: it has returned after at most three steps of its own for each node
      that its chain has by then, and two more; until then its next step can be taken. */
  lemma GetNeverWaits(cfg: Config, states: seq<State>, actions: seq<Action>, r: nat, key: nat, n: nat, k: nat)
    requires Run(cfg, states, actions) && n < k < |states|
    requires actions[n] == CallGet(r, key) && SameCall(actions, r, n, k)
    ensures Shaped(cfg, states[k]) && r in states[k].readers
    ensures Times(actions, ReaderStep(r), n + 1, k) <= 3 * |states[k].chains[BucketOf(cfg, key)]| + 2
    ensures states[k].readers[r].Returned? || Enabled(states[k], ReaderStep(r))
  {
    GetBegins(cfg, states, actions, r, key, n);
    GetGoesOn(cfg, states, actions, r, key, n + 1, k);
  }
}
