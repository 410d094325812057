/** The batch read never gets stuck: whatever happened so far, the current batch can still
    call back, and if nothing failed the whole file can still arrive.

    About the same code as TfsBatch, modules/ngx_http_tfs_module/ngx_http_tfs.c. */
module TfsBatchProgress {
  import opened Sequences
  import opened TfsBatch

  /** `actions`, each taken where it is enabled, lead from `s` to `t`. */
  ghost predicate Leads(data: seq<seq<Byte>>, s: State, actions: seq<Action>, t: State)
    decreases |actions|
  {
    if actions == [] then s == t
    else Enabled(data, s, actions[0]) && Leads(data, Next(data, s, actions[0]), actions[1..], t)
  }

  lemma LeadsOn(data: seq<seq<Byte>>, s: State, a: Action, actions: seq<Action>, t: State)
    requires Enabled(data, s, a) && Leads(data, Next(data, s, a), actions, t)
    ensures Leads(data, s, [a] + actions, t)
  {
    assert ([a] + actions)[1..] == actions;
  }

  lemma {:induction false} LeadsJoin(
      data: seq<seq<Byte>>, s: State, first: seq<Action>, t: State, second: seq<Action>, u: State)
    requires Leads(data, s, first, t) && Leads(data, t, second, u)
    ensures Leads(data, s, first + second, u)
    decreases |first|
  {
    if first == [] {
      assert first + second == second;
    } else {
      LeadsJoin(data, Next(data, s, first[0]), first[1..], t, second, u);
      assert (first + second)[0] == first[0] && (first + second)[1..] == first[1..] + second;
    }
  }

  lemma {:induction false} LeadsInv(data: seq<seq<Byte>>, s: State, actions: seq<Action>, t: State)
    requires Inv(data, s) && Leads(data, s, actions, t)
    ensures Inv(data, t)
    decreases |actions|
  {
    if actions != [] {
      StepInv(data, s, actions[0]);
      LeadsInv(data, Next(data, s, actions[0]), actions[1..], t);
    }
  }

  // ------------------------------------------------- one step towards the end

  /** A step that brings the end of the batch nearer: fetch and write what the sub-request in
      turn still lacks. */
  ghost function Choose(data: seq<seq<Byte>>, s: State): Action
    requires Inv(data, s) && s.phase.InBatch?
  {
    match s.control
    case Rest =>
      var i, size := s.spDone, |data[s.spCurr]|;
      var sub := s.subs[i];
      if !sub.started then Connect(i)
      else if !sub.readDone && sub.received < size then Arrive(i, size - sub.received)
      else if !sub.readDone then AllRead(i)
      else ClientWritable(i)
    case InWrite(i) =>
      var sub, sent := s.subs[i], s.sent[s.spCurr];
      if sent < sub.received then Written(sub.received - sent)
      else if sub.readDone then Finished
      else Blocked
    case _ => Call
  }

  lemma ChoiceEnabled(data: seq<seq<Byte>>, s: State)
    requires Inv(data, s) && s.phase.InBatch?
    ensures Enabled(data, s, Choose(data, s))
  {
    if s.control.Rest? {
      var i := s.spDone;
      assert SubOk(data, s, i);
      forall j | 0 <= j < i ensures s.subs[j].started {
        assert SubOk(data, s, j);
      }
    } else if s.control.InWrite? {
      assert SubOk(data, s, s.control.i);
    }
  }

  /** What the sub-request in turn still has to go through. */
  function Missing(data: seq<seq<Byte>>, s: State): (m: nat)
    ensures m <= 3
  {
    if s.spDone < |s.subs| then
      var sub := s.subs[s.spDone];
      (if sub.started then 0 else 1) + (if sub.received < |Segment(data, s, s.spDone)| then 1 else 0)
      + (if sub.readDone then 0 else 1)
    else 0
  }

  function Unsent(s: State): (m: nat)
    ensures m <= 1
  {
    if s.spDone < |s.subs| && s.spCurr < |s.sent| && s.sent[s.spCurr] < s.subs[s.spDone].received then 1 else 0
  }

  /** How far the running chain of calls is from its next event. */
  function Depth(s: State): (m: nat)
    ensures m <= 6
  {
    match s.control
    case InEnd => 0
    case InFinalize(i, _) => if i == s.spDone then 1 else 4
    case InWrite(i) => if i < |s.subs| && s.subs[i].readDone then 2 else 4
    case Rest => 3
    case InSend(_) => 5
    case InNext(_) => 6
  }

  function Measure(data: seq<seq<Byte>>, s: State): nat {
    var left := if s.spDone <= s.spCount then s.spCount - s.spDone else 0;
    ((left * 4 + Missing(data, s)) * 2 + Unsent(s)) * 8 + Depth(s)
  }

  /** No sub-request has failed so far, nor is about to. */
  ghost predicate Clean(s: State) {
    && s.spFail == 0
    && (forall i :: s.spDone <= i < |s.subs| ==> s.subs[i].statusOk && s.subs[i].fails == 0)
    && !(s.control.InFinalize? && s.control.rc == RcFailed)
  }

  /** What a step inside a batch does: it brings the end nearer, or it is the end. */
  ghost predicate Advances(data: seq<seq<Byte>>, s: State, t: State) {
    && t.batches == s.batches
    && (t.phase.InBatch? ==>
          && Measure(data, t) < Measure(data, s) && t.segmentIndex == s.segmentIndex && t.spCount == s.spCount)
    && (Clean(s) ==> if t.phase.InBatch? then Clean(t)
                     else t.phase != Over(true) && t.segmentIndex == s.segmentIndex + s.spCount)
  }

  lemma ConnectAdvances(data: seq<seq<Byte>>, s: State)
    requires ProtocolOk(data, s) && Enabled(data, s, Connect(s.spDone))
    ensures Advances(data, s, Next(data, s, Connect(s.spDone)))
  {
  }

  lemma ArriveAdvances(data: seq<seq<Byte>>, s: State, n: nat)
    requires ProtocolOk(data, s) && Enabled(data, s, Arrive(s.spDone, n))
    requires 0 < n && s.subs[s.spDone].received + n == |Segment(data, s, s.spDone)|
    ensures Advances(data, s, Next(data, s, Arrive(s.spDone, n)))
  {
  }

  lemma AllReadAdvances(data: seq<seq<Byte>>, s: State)
    requires ProtocolOk(data, s) && Enabled(data, s, AllRead(s.spDone)) && !s.subs[s.spDone].readDone
    ensures Advances(data, s, Next(data, s, AllRead(s.spDone)))
  {
  }

  lemma WritableAdvances(data: seq<seq<Byte>>, s: State)
    requires ProtocolOk(data, s) && Enabled(data, s, ClientWritable(s.spDone)) && s.subs[s.spDone].readDone
    ensures Advances(data, s, Next(data, s, ClientWritable(s.spDone)))
  {
  }

  lemma EventAdvances(data: seq<seq<Byte>>, s: State)
    requires Inv(data, s) && s.phase.InBatch? && s.control.Rest? && Enabled(data, s, Choose(data, s))
    ensures Advances(data, s, Next(data, s, Choose(data, s)))
  {
    match Choose(data, s)
    case Connect(_) => ConnectAdvances(data, s);
    case Arrive(_, n) => ArriveAdvances(data, s, n);
    case AllRead(_) => AllReadAdvances(data, s);
    case ClientWritable(_) => WritableAdvances(data, s);
  }

  lemma WrittenAdvances(data: seq<seq<Byte>>, s: State, n: nat)
    requires ProtocolOk(data, s) && Enabled(data, s, Written(n)) && s.spCurr < |s.sent|
    requires 0 < n && s.sent[s.spCurr] + n == s.subs[s.spDone].received
    ensures Advances(data, s, Next(data, s, Written(n)))
  {
  }

  lemma WriteEndsAdvances(data: seq<seq<Byte>>, s: State, a: Action)
    requires ProtocolOk(data, s) && Enabled(data, s, a)
    requires a.Finished? || (a.Blocked? && !s.subs[s.spDone].readDone)
    ensures Advances(data, s, Next(data, s, a))
  {
  }

  lemma WriteAdvances(data: seq<seq<Byte>>, s: State)
    requires Inv(data, s) && s.phase.InBatch? && s.control.InWrite? && Enabled(data, s, Choose(data, s))
    ensures Advances(data, s, Next(data, s, Choose(data, s)))
  {
    var a := Choose(data, s);
    if a.Written? {
      WrittenAdvances(data, s, a.bytes);
    } else {
      WriteEndsAdvances(data, s, a);
    }
  }

  lemma WakeAdvances(data: seq<seq<Byte>>, s: State)
    requires ProtocolOk(data, s) && s.control.InNext?
    ensures Advances(data, s, CallStep(data, s))
  {
  }

  lemma SendAdvances(data: seq<seq<Byte>>, s: State)
    requires ProtocolOk(data, s) && s.control.InSend?
    ensures Advances(data, s, CallStep(data, s))
  {
  }

  lemma WaitTurnAdvances(data: seq<seq<Byte>>, s: State)
    requires ProtocolOk(data, s) && s.control.InFinalize? && s.spCurr != s.segmentIndex + s.control.i
    ensures Advances(data, s, CallStep(data, s))
  {
  }

  lemma TurnPassesAdvances(data: seq<seq<Byte>>, s: State)
    requires ProtocolOk(data, s) && s.control.InFinalize? && s.spCurr == s.segmentIndex + s.control.i
    ensures Advances(data, s, CallStep(data, s))
  {
    var t := CallStep(data, s);
    assert t.spCount - t.spDone == s.spCount - s.spDone - 1;
    assert forall i :: t.spDone <= i < |t.subs| ==> t.subs[i] == s.subs[i];
  }

  lemma EndAdvances(data: seq<seq<Byte>>, s: State)
    requires ProtocolOk(data, s) && s.control.InEnd?
    ensures Advances(data, s, CallStep(data, s))
  {
  }

  lemma CallAdvances(data: seq<seq<Byte>>, s: State)
    requires Inv(data, s) && s.phase.InBatch? && Enabled(data, s, Call)
    ensures Advances(data, s, CallStep(data, s))
  {
    match s.control
    case InNext(_) => WakeAdvances(data, s);
    case InSend(_) => SendAdvances(data, s);
    case InFinalize(i, _) =>
      if s.spCurr == s.segmentIndex + i {
        TurnPassesAdvances(data, s);
      } else {
        WaitTurnAdvances(data, s);
      }
    case InEnd => EndAdvances(data, s);
  }

  lemma ChoiceAdvances(data: seq<seq<Byte>>, s: State)
    requires Inv(data, s) && s.phase.InBatch?
    ensures Enabled(data, s, Choose(data, s)) && Advances(data, s, Next(data, s, Choose(data, s)))
  {
    ChoiceEnabled(data, s);
    if s.control.Rest? {
      EventAdvances(data, s);
    } else if s.control.InWrite? {
      WriteAdvances(data, s);
    } else {
      CallAdvances(data, s);
    }
  }

  // ------------------------------------------------- chains of calls

  /** How many calls a chain can still make: four for each sub-request to come. */
  function CallsLeft(s: State): nat {
    var left := if s.spDone <= s.spCount then s.spCount - s.spDone else 0;
    left * 4 + match s.control { case InNext(_) => 4 case InSend(_) => 3 case InFinalize(_, _) => 2 case InEnd => 1
                                 case Rest => 0 case InWrite(_) => 0 }
  }

  lemma CallTakesOne(data: seq<seq<Byte>>, s: State)
    requires ProtocolOk(data, s) && Enabled(data, s, Call)
    ensures CallsLeft(CallStep(data, s)) < CallsLeft(s)
  {
  }

  /** Wake-ups end by themselves: `actions` that are all calls are no more than that. */
  lemma {:induction false} ChainEnds(data: seq<seq<Byte>>, s: State, actions: seq<Action>, t: State)
    requires Inv(data, s) && Leads(data, s, actions, t) && forall k :: 0 <= k < |actions| ==> actions[k] == Call
    ensures |actions| + CallsLeft(t) <= CallsLeft(s)
    decreases |actions|
  {
    if actions != [] {
      StepInv(data, s, Call);
      CallTakesOne(data, s);
      ChainEnds(data, CallStep(data, s), actions[1..], t);
    }
  }

  /** In every run a chain of calls is at most 36 long: eight sub-requests and a start. */
  lemma ChainsAreShort(data: seq<seq<Byte>>, states: seq<State>, actions: seq<Action>, n: nat, k: nat)
    requires Run(data, states, actions) && n <= k <= |actions|
    requires forall j :: n <= j < k ==> actions[j] == Call
    ensures k - n <= 36
  {
    RunInv(data, states, actions, n);
    RunLeads(data, states, actions, n, k);
    ChainEnds(data, states[n], actions[n..k], states[k]);
  }

  lemma {:induction false} RunLeads(data: seq<seq<Byte>>, states: seq<State>, actions: seq<Action>, n: nat, k: nat)
    requires Run(data, states, actions) && n <= k <= |actions|
    ensures Leads(data, states[n], actions[n..k], states[k])
    decreases k - n
  {
    if n < k {
      RunLeads(data, states, actions, n + 1, k);
      assert StepAt(data, states, actions, n);
      LeadsOn(data, states[n], actions[n], actions[n + 1..k], states[k]);
      assert actions[n..k] == [actions[n]] + actions[n + 1..k];
    }
  }

  // ------------------------------------------------- to the end

  /** `t` is where the batch of `s` has called back, without a failure if there was none. */
  ghost predicate Ended(s: State, t: State) {
    && !t.phase.InBatch? && t.callbacks == s.callbacks + 1 && t.batches == s.batches
    && (Clean(s) ==> t.phase != Over(true) && t.segmentIndex == s.segmentIndex + s.spCount)
  }

  lemma EndedVia(data: seq<seq<Byte>>, s: State, s': State, t: State)
    requires CountersOk(data, s) && CountersOk(data, s') && s.phase.InBatch? && s'.phase.InBatch?
    requires Advances(data, s, s') && Ended(s', t)
    ensures Ended(s, t)
  {
  }

  lemma EndedNow(data: seq<seq<Byte>>, s: State, t: State)
    requires CountersOk(data, s) && CountersOk(data, t) && s.phase.InBatch? && !t.phase.InBatch?
    requires Advances(data, s, t)
    ensures Ended(s, t)
  {
  }

  lemma TakeStep(data: seq<seq<Byte>>, s: State) returns (a: Action, t: State)
    requires Inv(data, s) && s.phase.InBatch?
    ensures Enabled(data, s, a) && t == Next(data, s, a) && Inv(data, t) && Advances(data, s, t)
  {
    ChoiceAdvances(data, s);
    a := Choose(data, s);
    t := Next(data, s, a);
    StepInv(data, s, a);
  }

  lemma {:induction false} BatchEnds(data: seq<seq<Byte>>, s: State)
    requires Inv(data, s) && s.phase.InBatch?
    ensures exists actions, t :: Leads(data, s, actions, t) && Ended(s, t)
    decreases Measure(data, s)
  {
    var a, s' := TakeStep(data, s);
    if s'.phase.InBatch? {
      BatchEnds(data, s');
      var actions, t :| Leads(data, s', actions, t) && Ended(s', t);
      LeadsOn(data, s, a, actions, t);
      EndedVia(data, s, s', t);
    } else {
      assert Leads(data, s', [], s');
      LeadsOn(data, s, a, [], s');
      EndedNow(data, s, s');
    }
  }

  /** From every state of every run that is inside a batch, the batch can still call back; it
      can do so without a failure if nothing has failed yet. */
  lemma BatchCanEnd(data: seq<seq<Byte>>, states: seq<State>, actions: seq<Action>, n: nat)
    requires Run(data, states, actions) && n < |states| && states[n].phase.InBatch?
    ensures exists more, t :: Leads(data, states[n], more, t) && Ended(states[n], t)
  {
    RunInv(data, states, actions, n);
    BatchEnds(data, states[n]);
  }

  /** The next batch takes as many segments as are left, up to eight. */
  function BatchSize(data: seq<seq<Byte>>, s: State): nat {
    if s.segmentIndex + MAX_BATCH_COUNT <= |data| then MAX_BATCH_COUNT
    else if s.segmentIndex <= |data| then |data| - s.segmentIndex
    else 0
  }

  lemma StartedClean(data: seq<seq<Byte>>, s: State, n: nat)
    requires Inv(data, s) && s.phase.Between? && n == BatchSize(data, s)
    ensures Enabled(data, s, StartBatch(n)) && Clean(Next(data, s, StartBatch(n)))
  {
    assert forall i :: 0 <= i < n ==> StartState(s, n).subs[i] == FreshSub(0);
  }

  lemma {:induction false} AllArrives(data: seq<seq<Byte>>, s: State)
    requires Inv(data, s) && s.phase != Over(true) && (s.phase.InBatch? ==> Clean(s))
    ensures exists actions, t :: Leads(data, s, actions, t) && t.phase == Over(false) && t.out == Flatten(data)
    decreases |data| - s.segmentIndex, if s.phase.InBatch? then 0 else 1
  {
    if s.phase.InBatch? {
      BatchEnds(data, s);
      var first, t :| Leads(data, s, first, t) && Ended(s, t);
      LeadsInv(data, s, first, t);
      AllArrives(data, t);
      var second, u :| Leads(data, t, second, u) && u.phase == Over(false) && u.out == Flatten(data);
      LeadsJoin(data, s, first, t, second, u);
    } else if s.phase.Between? {
      var n := BatchSize(data, s);
      StartedClean(data, s, n);
      var s' := Next(data, s, StartBatch(n));
      StepInv(data, s, StartBatch(n));
      AllArrives(data, s');
      var actions, t :| Leads(data, s', actions, t) && t.phase == Over(false) && t.out == Flatten(data);
      LeadsOn(data, s, StartBatch(n), actions, t);
    } else {
      OverIsWhole(data, s);
      assert Leads(data, s, [], s);
    }
  }

  /** From every state of every run in which nothing has failed yet, the whole file can still
      arrive. */
  lemma FileCanArrive(data: seq<seq<Byte>>, states: seq<State>, actions: seq<Action>, n: nat)
    requires Run(data, states, actions) && n < |states|
    requires states[n].phase != Over(true) && (states[n].phase.InBatch? ==> Clean(states[n]))
    ensures exists more, t :: Leads(data, states[n], more, t) && t.phase == Over(false) && t.out == Flatten(data)
  {
    RunInv(data, states, actions, n);
    AllArrives(data, states[n]);
  }

  // ------------------------------------------------- failures

  /** The request has failed, or its batch holds a failure. */
  ghost predicate Doomed(s: State) {
    s.phase == Over(true) || (s.phase.InBatch? && !Clean(s))
  }

  /** What makes a request fail: a data server that reports an error, a broken connection to
      one, or a client that has gone. */
  predicate Fails(a: Action) {
    a.BadStatus? || a.Broken? || a.ClientGone?
  }

  lemma FailureCounts(data: seq<seq<Byte>>, s: State, a: Action)
    requires Inv(data, s) && Enabled(data, s, a) && Fails(a)
    ensures Doomed(Next(data, s, a))
  {
    if a.BadStatus? && s.spFail == 0 {
      var t := Next(data, s, a);
      assert SubOk(data, s, a.i);
      assert t.spDone <= a.i < |t.subs| && !t.subs[a.i].statusOk;
    }
  }

  /** Failures are not forgotten. */
  lemma FailureStays(data: seq<seq<Byte>>, s: State, a: Action)
    requires Inv(data, s) && Enabled(data, s, a) && Doomed(s)
    ensures Doomed(Next(data, s, a))
  {
    if s.phase.InBatch? && s.spFail == 0 {
      if a.Call? {
        CallKeepsFailure(data, s);
      } else {
        EventKeepsFailure(data, s, a);
      }
    }
  }

  lemma EventKeepsFailure(data: seq<seq<Byte>>, s: State, a: Action)
    requires Inv(data, s) && Enabled(data, s, a) && !a.Call? && s.phase.InBatch? && !Clean(s) && s.spFail == 0
    ensures Doomed(Next(data, s, a))
  {
    var t := Next(data, s, a);
    var i :| s.spDone <= i < |s.subs| && !(s.subs[i].statusOk && s.subs[i].fails == 0);
    assert !(t.subs[i].statusOk && t.subs[i].fails == 0);
  }

  lemma CallKeepsFailure(data: seq<seq<Byte>>, s: State)
    requires Inv(data, s) && Enabled(data, s, Call) && s.phase.InBatch? && !Clean(s) && s.spFail == 0
    ensures Doomed(CallStep(data, s))
  {
    var t := CallStep(data, s);
    if s.control.InFinalize? && s.control.rc == RcFailed {
      assert t.spFail > 0 || t.subs[s.control.i].fails > 0;
    } else {
      var i :| s.spDone <= i < |s.subs| && !(s.subs[i].statusOk && s.subs[i].fails == 0);
      assert SubOk(data, s, i);
      if s.control.InEnd? {
        assert false;
      }
      assert !(t.subs[i].statusOk && t.subs[i].fails == 0);
      assert t.spDone <= i || t.spFail > 0;
    }
  }

  /** Nothing else is a failure. */
  lemma NoOtherFailure(data: seq<seq<Byte>>, s: State, a: Action)
    requires Inv(data, s) && Enabled(data, s, a) && !Fails(a) && !Doomed(s)
    ensures !Doomed(Next(data, s, a))
  {
    if a.StartBatch? {
      assert forall i :: 0 <= i < a.count ==> StartState(s, a.count).subs[i] == FreshSub(0);
    } else if a.Call? {
      CallAdvances(data, s);
    } else {
      CleanEvent(data, s, a);
    }
  }

  lemma CleanEvent(data: seq<seq<Byte>>, s: State, a: Action)
    requires Enabled(data, s, a) && !Fails(a) && !a.StartBatch? && !a.Call? && s.phase.InBatch? && Clean(s)
    ensures Next(data, s, a).phase.InBatch? && Clean(Next(data, s, a))
  {
    var t := Next(data, s, a);
    assert |t.subs| == |s.subs| && t.spDone == s.spDone;
    assert forall i :: 0 <= i < |s.subs| ==>
             t.subs[i].statusOk == s.subs[i].statusOk && t.subs[i].fails == s.subs[i].fails;
  }

  lemma {:induction false} DoomedLeads(data: seq<seq<Byte>>, s: State, actions: seq<Action>, t: State)
    requires Inv(data, s) && Leads(data, s, actions, t)
    ensures Doomed(t) <==> Doomed(s) || exists k :: 0 <= k < |actions| && Fails(actions[k])
    decreases |actions|
  {
    if actions != [] {
      var a, rest := actions[0], actions[1..];
      StepInv(data, s, a);
      DoomedLeads(data, Next(data, s, a), rest, t);
      DoomedStep(data, s, a);
      assert forall k :: 0 <= k < |rest| ==> rest[k] == actions[k + 1];
      if k :| 0 <= k < |actions| && Fails(actions[k]) && 0 < k {
        assert Fails(rest[k - 1]);
      }
    }
  }

  lemma DoomedStep(data: seq<seq<Byte>>, s: State, a: Action)
    requires Inv(data, s) && Enabled(data, s, a)
    ensures Doomed(Next(data, s, a)) <==> Doomed(s) || Fails(a)
  {
    if Fails(a) {
      FailureCounts(data, s, a);
    } else if Doomed(s) {
      FailureStays(data, s, a);
    } else {
      NoOtherFailure(data, s, a);
    }
  }

  /** In every run: the request has failed, or will when its batch ends, if and only if a data
      server reported an error, a connection broke or the client went; it never ends well then,
      and never badly otherwise. */
  lemma FailsIff(data: seq<seq<Byte>>, states: seq<State>, actions: seq<Action>, n: nat)
    requires Run(data, states, actions) && n < |states|
    ensures var failed := exists k :: 0 <= k < n && Fails(actions[k]);
            && (states[n].phase == Over(true) ==> failed)
            && (states[n].phase == Over(false) || states[n].phase.Between? ==> !failed)
            && (states[n].phase.InBatch? ==> (Clean(states[n]) <==> !failed))
  {
    RunInv(data, states, actions, 0);
    RunLeads(data, states, actions, 0, n);
    DoomedLeads(data, states[0], actions[0..n], states[n]);
    assert forall k :: 0 <= k < n ==> actions[0..n][k] == actions[k];
  }

  /** The whole file can still arrive if and only if nothing has failed. */
  lemma FileCanArriveIff(data: seq<seq<Byte>>, states: seq<State>, actions: seq<Action>, n: nat)
    requires Run(data, states, actions) && n < |states|
    ensures (exists more, t :: Leads(data, states[n], more, t) && t.phase == Over(false) && t.out == Flatten(data))
       <==> !exists k :: 0 <= k < n && Fails(actions[k])
  {
    RunInv(data, states, actions, n);
    FailsIff(data, states, actions, n);
    if exists k :: 0 <= k < n && Fails(actions[k]) {
      forall more, t | Leads(data, states[n], more, t) ensures t.phase != Over(false) {
        DoomedLeads(data, states[n], more, t);
      }
    } else {
      AllArrives(data, states[n]);
    }
  }

  // ------------------------------------------------- what goes out early, and what no more

  lemma LeadsTwo(data: seq<seq<Byte>>, s: State, a: Action, b: Action)
    requires Enabled(data, s, a) && Enabled(data, Next(data, s, a), b)
    ensures Leads(data, s, [a, b], Next(data, Next(data, s, a), b))
  {
    var t := Next(data, s, a);
    assert Leads(data, Next(data, t, b), [], Next(data, t, b));
    LeadsOn(data, t, b, [], Next(data, t, b));
    LeadsOn(data, s, a, [b], Next(data, t, b));
    assert [a] + [b] == [a, b] && [b] + [] == [b];
  }

  lemma OverflowWrites(data: seq<seq<Byte>>, s: State, i: nat) returns (t: State)
    requires Inv(data, s) && Enabled(data, s, Overflow(i)) && s.subs[i].statusOk && i == s.spDone
    ensures Leads(data, s, [Overflow(i), Call], t)
    ensures t == s.(subs := s.subs[i := s.subs[i].(writing := true)], control := InWrite(i))
  {
    LeadsTwo(data, s, Overflow(i), Call);
    t := Next(data, Next(data, s, Overflow(i)), Call);
  }

  lemma WriteOut(data: seq<seq<Byte>>, s: State, n: nat) returns (t: State)
    requires Enabled(data, s, Written(n))
    ensures Leads(data, s, [Written(n), Blocked], t)
    ensures var j := s.segmentIndex + s.control.i;
            t.sent == s.sent[j := s.sent[j] + n] && t.control.Rest? && t.phase == s.phase
  {
    LeadsTwo(data, s, Written(n), Blocked);
    t := Next(data, Next(data, s, Written(n)), Blocked);
  }

  /** A sub-request in turn whose buffer overflows hands on what it has before all has arrived. */
  lemma OverflowSends(data: seq<seq<Byte>>, s: State, i: nat) returns (u: State, t: State)
    requires Inv(data, s) && Enabled(data, s, Overflow(i)) && s.subs[i].statusOk && i == s.spDone
    requires s.sent[s.spCurr] <= s.subs[i].received
    ensures Leads(data, s, [Overflow(i), Call], u)
    ensures Leads(data, u, [Written(s.subs[i].received - s.sent[s.spCurr]), Blocked], t)
    ensures t.control.Rest? && t.phase.InBatch? && t.sent == s.sent[s.spCurr := s.subs[i].received]
  {
    u := OverflowWrites(data, s, i);
    t := WriteOut(data, u, s.subs[i].received - s.sent[s.spCurr]);
  }

  /** One that is not in turn waits for it. */
  lemma OverflowWaits(data: seq<seq<Byte>>, s: State, i: nat) returns (t: State)
    requires Inv(data, s) && Enabled(data, s, Overflow(i)) && s.subs[i].statusOk && i != s.spDone
    ensures Leads(data, s, [Overflow(i), Call], t)
    ensures t == s.(subs := s.subs[i := s.subs[i].(ready := true)])
  {
    LeadsTwo(data, s, Overflow(i), Call);
    t := Next(data, Next(data, s, Overflow(i)), Call);
  }

  /** Since a failure in the batch of `s`, no sub-request has begun to write, and those that do
      not write have sent nothing more. */
  ghost predicate Silent(s: State, t: State) {
    && |t.sent| == |s.sent| && t.segmentIndex == s.segmentIndex
    && (t.phase == Over(true) ||
        (t.phase.InBatch? && t.spFail > 0 && !t.control.InSend? && |t.subs| == |s.subs|))
    && forall i :: 0 <= i < |s.subs| && !s.subs[i].writing ==> SilentAt(s, t, i)
  }

  ghost predicate SilentAt(s: State, t: State, i: nat) {
    var j := s.segmentIndex + i;
    && (t.phase.InBatch? && i < |t.subs| ==> !t.subs[i].writing)
    && (j < |s.sent| && j < |t.sent| ==> t.sent[j] == s.sent[j])
  }

  /** Once the batch holds a failure, a call begins no write. */
  lemma SilentCall(data: seq<seq<Byte>>, t: State)
    requires ProtocolOk(data, t) && t.phase.InBatch? && t.spFail > 0 && !t.control.InSend? && Enabled(data, t, Call)
    ensures var u := CallStep(data, t);
            && u.sent == t.sent && u.segmentIndex == t.segmentIndex
            && (u.phase == Over(true) || (u.phase.InBatch? && u.spFail > 0 && !u.control.InSend?))
            && |u.subs| == |t.subs| && forall i :: 0 <= i < |t.subs| ==> u.subs[i].writing == t.subs[i].writing
  {
  }

  /** Neither does an event but an overflow, and what is written belongs to a writer. */
  lemma SilentEvent(data: seq<seq<Byte>>, t: State, a: Action)
    requires ProtocolOk(data, t) && t.phase.InBatch? && t.spFail > 0
    requires Enabled(data, t, a) && !a.Call? && !a.Overflow?
    ensures var u := Next(data, t, a);
            && |u.sent| == |t.sent| && u.segmentIndex == t.segmentIndex
            && u.phase.InBatch? && u.spFail > 0 && !u.control.InSend?
            && |u.subs| == |t.subs| && (forall i :: 0 <= i < |t.subs| ==> u.subs[i].writing == t.subs[i].writing)
            && forall i :: 0 <= i < |t.subs| && !t.subs[i].writing && t.segmentIndex + i < |t.sent| ==>
                 u.sent[t.segmentIndex + i] == t.sent[t.segmentIndex + i]
  {
  }

  lemma SilentStep(data: seq<seq<Byte>>, s: State, t: State, a: Action)
    requires Inv(data, t) && Enabled(data, t, a) && !a.Overflow? && Silent(s, t)
    ensures Silent(s, Next(data, t, a))
  {
    var u := Next(data, t, a);
    if a.Call? {
      SilentCall(data, t);
    } else {
      SilentEvent(data, t, a);
    }
    forall i | 0 <= i < |s.subs| && !s.subs[i].writing ensures SilentAt(s, u, i) {
      assert SilentAt(s, t, i);
    }
  }

  /** After a failure only sub-requests that are writing already, or whose buffers overflow, send
      anything more: what finishes or is woken afterwards is only counted. */
  lemma SilentAfterFailure(data: seq<seq<Byte>>, s: State, actions: seq<Action>, t: State)
    requires Inv(data, s) && s.phase.InBatch? && s.spFail > 0 && !s.control.InSend?
    requires Leads(data, s, actions, t) && forall k :: 0 <= k < |actions| ==> !actions[k].Overflow?
    ensures forall i :: 0 <= i < |s.subs| && !s.subs[i].writing ==>
              var j := s.segmentIndex + i;
              j < |s.sent| == |t.sent| ==> t.sent[j] == s.sent[j]
  {
    SilentFrom(data, s, s, actions, t);
    forall i | 0 <= i < |s.subs| && !s.subs[i].writing ensures SilentAt(s, t, i) {
    }
  }

  lemma {:induction false} SilentFrom(data: seq<seq<Byte>>, s: State, r: State, actions: seq<Action>, t: State)
    requires Inv(data, r) && Silent(s, r)
    requires Leads(data, r, actions, t) && forall k :: 0 <= k < |actions| ==> !actions[k].Overflow?
    ensures Silent(s, t)
    decreases |actions|
  {
    if actions != [] {
      StepInv(data, r, actions[0]);
      SilentStep(data, s, r, actions[0]);
      SilentFrom(data, s, Next(data, r, actions[0]), actions[1..], t);
    }
  }
}
