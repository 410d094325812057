/** The parallel batch read of the TFS client: up to eight sub-requests fetch segments at
    the same time, finish in any order, and take turns writing to the client.

    Models ngx_http_tfs_batch_process_start/_next/_end and the sub-process parts of
    ngx_http_tfs_send_response, _finalize_request and _finalize_state in
    modules/ngx_http_tfs_module/ngx_http_tfs.c. The event loop is single threaded: an event
    starts a chain of calls, and `Control` is the call that runs next. */
module TfsBatch {
  import opened Sequences

  const MAX_BATCH_COUNT: nat := 8

  /** A sub-request. `index` of a sub-request is its place in the batch; its `sp_curr` is the
      batch's first segment plus that place. */
  datatype Sub = Sub(
    started: bool,     // ngx_http_tfs_connect was called
    ready: bool,       // sp_ready
    fails: nat,        // its own sp_fail_count
    statusOk: bool,    // tfs_status == NGX_OK
    received: nat,     // bytes of the segment that arrived
    readDone: bool,    // NGX_HTTP_TFS_STATE_READ_DONE
    writing: bool,     // passed the turn test and owns the client connection
    freed: bool)       // ngx_http_tfs_free_st

  datatype Rc = RcDone | RcFailed

  datatype Control =
    | Rest
    | InNext(i: nat)             // ngx_http_tfs_batch_process_next
    | InSend(i: nat)             // ngx_http_tfs_send_response
    | InWrite(i: nat)            // ngx_http_tfs_process_non_buffered_request
    | InFinalize(i: nat, rc: Rc) // ngx_http_tfs_finalize_request
    | InEnd                      // ngx_http_tfs_batch_process_end

  datatype Phase = Between | InBatch | Over(failed: bool)

  datatype State = State(
    phase: Phase, control: Control,
    segmentIndex: nat, subs: seq<Sub>,
    spCount: nat, spDone: nat, spFail: nat, spSucc: nat, spCurr: nat,
    batches: nat, callbacks: nat,
    sent: seq<nat>,    // how many bytes of each segment went to the client
    out: seq<Byte>)    // everything the client received

  /** What the environment does. The first group needs the event loop to be at rest, the
      second picks the next thing that happens inside a running chain of calls. */
  datatype Action =
    | StartBatch(count: nat)
    | Connect(i: nat)
    | Arrive(i: nat, bytes: nat)
    | Overflow(i: nat)
    | AllRead(i: nat)
    | BadStatus(i: nat)
    | Broken(i: nat)
    | ClientWritable(i: nat)
    | Call
    | Written(bytes: nat)
    | Blocked
    | Finished
    | ClientGone

  function Segment(data: seq<seq<Byte>>, s: State, i: nat): seq<Byte> {
    if s.segmentIndex + i < |data| then data[s.segmentIndex + i] else []
  }

  predicate Alive(s: State, i: nat) {
    s.phase.InBatch? && s.control.Rest? && i < |s.subs| && s.subs[i].started && !s.subs[i].freed
  }

  predicate Enabled(data: seq<seq<Byte>>, s: State, a: Action) {
    match a
    case StartBatch(n) =>
      s.phase.Between? && s.control.Rest? && 0 < n <= MAX_BATCH_COUNT && s.segmentIndex + n <= |data|
    case Connect(i) =>
      && s.phase.InBatch? && s.control.Rest? && i < |s.subs| && !s.subs[i].started
      && (forall j :: 0 <= j < i ==> s.subs[j].started)
    case Arrive(i, n) =>
      Alive(s, i) && !s.subs[i].readDone && s.subs[i].received + n <= |Segment(data, s, i)|
    case Overflow(i) => Alive(s, i) && !s.subs[i].readDone
    case AllRead(i) => Alive(s, i) && s.subs[i].received == |Segment(data, s, i)|
    case BadStatus(i) => Alive(s, i)
    case Broken(i) => Alive(s, i)
    case ClientWritable(i) => Alive(s, i) && s.subs[i].writing
    case Call => !s.control.Rest? && !s.control.InWrite?
    case Written(n) =>
      && s.control.InWrite? && s.control.i < |s.subs| && s.segmentIndex + s.control.i < |s.sent|
      && s.sent[s.segmentIndex + s.control.i] + n <= s.subs[s.control.i].received
    case Blocked => s.control.InWrite?
    case Finished =>
      && s.control.InWrite? && s.control.i < |s.subs| && s.segmentIndex + s.control.i < |s.sent|
      && s.subs[s.control.i].readDone && s.sent[s.segmentIndex + s.control.i] == s.subs[s.control.i].received
    case ClientGone => s.control.InWrite?
  }

  function UpdateSub(s: State, i: nat, sub: Sub): State
    requires i < |s.subs|
  {
    s.(subs := s.subs[i := sub])
  }

  /** ngx_http_tfs_finalize_state for a sub-request: once one failed, all fail. */
  function AfterState(s: State, i: nat): Control {
    if s.spFail > 0 then InFinalize(i, RcFailed) else InSend(i)
  }

  function FreshSub(fails: nat): Sub {
    Sub(false, false, fails, true, 0, false, false, false)
  }

  /** ngx_http_tfs_batch_process_start. A recycled sub-request keeps its `sp_fail_count`. */
  function StartState(s: State, n: nat): State {
    s.(phase := InBatch, spCount := n, spDone := 0, spFail := 0, spSucc := 0, spCurr := s.segmentIndex,
       batches := s.batches + 1,
       subs := seq(n, i requires 0 <= i < n => FreshSub(if i < |s.subs| then s.subs[i].fails else 0)))
  }

  function Next(data: seq<seq<Byte>>, s: State, a: Action): State
    requires Enabled(data, s, a)
  {
    match a
    case StartBatch(n) => StartState(s, n)
    case Connect(i) => UpdateSub(s, i, s.subs[i].(started := true))
    case Arrive(i, n) => UpdateSub(s, i, s.subs[i].(received := s.subs[i].received + n))
    case Overflow(i) => s.(control := InSend(i))
    case AllRead(i) => UpdateSub(s, i, s.subs[i].(readDone := true)).(control := AfterState(s, i))
    case BadStatus(i) =>
      if s.spFail > 0 then s.(control := AfterState(s, i))
      else UpdateSub(s, i, s.subs[i].(statusOk := false)).(control := AfterState(s, i))
    case Broken(i) => s.(control := InFinalize(i, RcFailed))
    case ClientWritable(i) => s.(control := InWrite(i))
    case Call => CallStep(data, s)
    case Written(n) =>
      var j := s.segmentIndex + s.control.i;
      s.(sent := s.sent[j := s.sent[j] + n],
         out := s.out + if s.sent[j] + n <= |Segment(data, s, s.control.i)|
                        then Segment(data, s, s.control.i)[s.sent[j]..s.sent[j] + n] else [])
    case Blocked => s.(control := Rest)
    case Finished => s.(control := InFinalize(s.control.i, RcDone))
    case ClientGone => s.(control := InFinalize(s.control.i, RcFailed))
  }

  function CallStep(data: seq<seq<Byte>>, s: State): State
    requires !s.control.Rest? && !s.control.InWrite?
  {
    match s.control
    case InNext(i) =>
      if i >= |s.subs| || !s.subs[i].ready then s.(control := Rest)
      else if s.subs[i].fails > 0 || s.spFail > 0 then s.(control := InFinalize(i, RcFailed))
      else s.(control := InSend(i))
    case InSend(i) =>
      if i >= |s.subs| then s.(control := Rest)
      else if !s.subs[i].statusOk then s.(control := InFinalize(i, RcFailed))
      else if s.spCurr != s.segmentIndex + i then UpdateSub(s, i, s.subs[i].(ready := true)).(control := Rest)
      else UpdateSub(s, i, s.subs[i].(writing := true)).(control := InWrite(i))
    case InFinalize(i, rc) =>
      if i >= |s.subs| then s.(control := Rest)
      else if s.spCurr != s.segmentIndex + i then
        var fails := s.subs[i].fails + if rc == RcDone then 0 else 1;
        UpdateSub(s, i, s.subs[i].(ready := true, fails := fails)).(control := Rest)
      else
        var t := UpdateSub(s, i, s.subs[i].(freed := true));
        var u := t.(spSucc := s.spSucc + (if rc == RcDone then 1 else 0),
                    spFail := s.spFail + (if rc == RcDone then 0 else 1),
                    spDone := s.spDone + 1, spCurr := s.spCurr + 1);
        u.(control := if u.spDone == u.spCount then InEnd else InNext(i + 1))
    case InEnd =>
      var t := s.(callbacks := s.callbacks + 1, control := Rest);
      if s.spFail > 0 then t.(phase := Over(true))
      else
        var index := s.segmentIndex + s.spCount;
        t.(segmentIndex := index, phase := if index < |data| then Between else Over(false))
  }

  ghost predicate Initial(data: seq<seq<Byte>>, s: State) {
    && data != []
    && s == State(Between, Rest, 0, [], 0, 0, 0, 0, 0, 0, 0, seq(|data|, _ => 0), [])
  }

  // ------------------------------------------------------------------ invariants

  /** The parts of each segment that the client has, in segment order. */
  ghost function SentParts(data: seq<seq<Byte>>, sent: seq<nat>): (parts: seq<seq<Byte>>)
    requires |sent| == |data| && forall j :: 0 <= j < |data| ==> sent[j] <= |data[j]|
    ensures |parts| == |data| && forall j :: 0 <= j < |data| ==> parts[j] == data[j][..sent[j]]
  {
    seq(|data|, j requires 0 <= j < |data| => data[j][..sent[j]])
  }

  /** Bytes go out in segment order; no byte of a segment goes out before its turn. */
  ghost predicate OutputOk(data: seq<seq<Byte>>, s: State) {
    && |s.sent| == |data|
    && (forall j :: 0 <= j < |data| ==> s.sent[j] <= |data[j]|)
    && s.out == Flatten(SentParts(data, s.sent))
    && (forall j :: Turn(s) < j < |data| ==> s.sent[j] == 0)
    && (s.phase.Between? ==> forall j :: s.segmentIndex <= j < |data| ==> s.sent[j] == 0)
    && (s.phase.InBatch? ==> forall j :: s.segmentIndex + s.spCount <= j < |data| ==> s.sent[j] == 0)
  }

  /** The segment whose turn it is. */
  function Turn(s: State): nat {
    if s.phase.InBatch? then s.spCurr else s.segmentIndex + s.spCount
  }

  /** As long as nothing failed, every earlier segment went out whole. */
  ghost predicate WholeSoFar(data: seq<seq<Byte>>, s: State)
    requires |s.sent| == |data|
  {
    && (s.phase.InBatch? && s.spFail == 0 ==> forall j :: 0 <= j < s.spCurr && j < |data| ==> s.sent[j] == |data[j]|)
    && (s.phase.InBatch? ==> forall j :: 0 <= j < s.segmentIndex && j < |data| ==> s.sent[j] == |data[j]|)
    && (s.phase.Between? || s.phase == Over(false) ==>
          forall j :: 0 <= j < s.segmentIndex && j < |data| ==> s.sent[j] == |data[j]|)
  }

  ghost predicate CountersOk(data: seq<seq<Byte>>, s: State) {
    && s.callbacks + (if s.phase.InBatch? then 1 else 0) == s.batches
    && (s.phase.InBatch? ==>
          && |s.subs| == s.spCount && 0 < s.spCount <= MAX_BATCH_COUNT && s.segmentIndex + s.spCount <= |data|
          && s.spDone == s.spSucc + s.spFail
          && s.spCurr == s.segmentIndex + s.spDone
          && s.spDone <= s.spCount
          && (s.spDone == s.spCount <==> s.control.InEnd?))
    && (!s.phase.InBatch? ==> s.control.Rest?)
    && (s.phase.Between? ==> s.segmentIndex < |data|)
    && (s.phase == Over(false) ==> s.segmentIndex == |data|)
    && (s.phase.Between? ==> forall i :: 0 <= i < |s.subs| ==> s.subs[i].fails == 0)
  }

  /** A sub-request that has something to say (all data, a bad status or a failure out of
      turn) is marked ready or is already writing. */
  ghost predicate SubOk(data: seq<seq<Byte>>, s: State, i: nat)
    requires i < |s.subs|
  {
    var sub := s.subs[i];
    && sub.received <= |Segment(data, s, i)|
    && (sub.freed <==> i < s.spDone)
    && (sub.readDone ==> sub.received == |Segment(data, s, i)|)
    && (sub.writing ==> i <= s.spDone && sub.fails == 0)
    && (!sub.freed && (sub.readDone || !sub.statusOk || sub.fails > 0) ==> sub.ready || sub.writing || Reporting(s, i))
    && (s.spFail == 0 ==> sub.fails > 0 ==> s.spDone <= i)
    && (!sub.statusOk && (sub.freed || sub.writing) ==> s.spFail > 0 || (Reporting(s, i) && !sub.freed))
    && (!sub.freed && sub.ready && i == s.spDone ==> sub.writing || Reporting(s, i) || s.control == InNext(i))
    && (!sub.started ==>
         && !sub.ready && !sub.writing && !sub.freed
         && sub.fails == 0 && sub.statusOk && !sub.readDone && sub.received == 0)
  }

  /** The running call reports on sub-request `i`. */
  predicate Reporting(s: State, i: nat) {
    (s.control.InSend? || s.control.InFinalize?) && s.control.i == i
  }

  ghost predicate ControlOk(data: seq<seq<Byte>>, s: State) {
    match s.control
    case Rest => true
    case InNext(i) => s.phase.InBatch? && i < |s.subs| && i == s.spDone
    case InSend(i) =>
      && s.phase.InBatch? && i < |s.subs| && s.spDone <= i && s.subs[i].started
      && (i == s.spDone ==> s.subs[i].fails == 0)
    case InWrite(i) =>
      && s.phase.InBatch? && i < |s.subs| && i == s.spDone && s.subs[i].writing && s.subs[i].started
      && (s.subs[i].statusOk || s.spFail > 0)
    case InFinalize(i, rc) =>
      && s.phase.InBatch? && i < |s.subs| && s.spDone <= i && s.subs[i].started
      && (rc == RcDone ==>
           && i == s.spDone && s.subs[i].fails == 0 && (s.subs[i].statusOk || s.spFail > 0)
           && s.segmentIndex + i < |s.sent|
           && s.sent[s.segmentIndex + i] == |Segment(data, s, i)|)
    case InEnd => s.phase.InBatch?
  }

  ghost predicate ProtocolOk(data: seq<seq<Byte>>, s: State) {
    && CountersOk(data, s)
    && ControlOk(data, s)
    && (s.phase.InBatch? ==> forall i :: 0 <= i < |s.subs| ==> SubOk(data, s, i))
  }

  ghost predicate Inv(data: seq<seq<Byte>>, s: State) {
    && OutputOk(data, s)
    && WholeSoFar(data, s)
    && ProtocolOk(data, s)
  }

  lemma InitialInv(data: seq<seq<Byte>>, s: State)
    requires Initial(data, s)
    ensures Inv(data, s)
  {
    FlattenEmpties(SentParts(data, s.sent));
  }

  // ------------------------------------------------------------------ every step

  /** Steps that leave output, counters and phase alone keep what is said about them. */
  lemma SameOutput(data: seq<seq<Byte>>, s: State, t: State)
    requires Inv(data, s) && ProtocolOk(data, t)
    requires t == s.(subs := t.subs, control := t.control)
    ensures Inv(data, t)
  {
    assert SentParts(data, t.sent) == SentParts(data, s.sent);
  }

  lemma ProgressOk(data: seq<seq<Byte>>, s: State, a: Action)
    requires ProtocolOk(data, s) && Enabled(data, s, a) && (a.Connect? || a.Arrive?)
    ensures ProtocolOk(data, Next(data, s, a))
  {
    var t := Next(data, s, a);
    assert SubOk(data, s, a.i);
    forall i | 0 <= i < |t.subs| ensures SubOk(data, t, i) {
      assert SubOk(data, s, i);
    }
  }

  lemma HandOverOk(data: seq<seq<Byte>>, s: State, a: Action)
    requires ProtocolOk(data, s) && Enabled(data, s, a) && (a.Overflow? || a.Broken? || a.ClientWritable?)
    ensures ProtocolOk(data, Next(data, s, a))
  {
    var t := Next(data, s, a);
    assert SubOk(data, s, a.i);
    forall i | 0 <= i < |t.subs| ensures SubOk(data, t, i) {
      assert SubOk(data, s, i);
    }
  }

  lemma ReportOk(data: seq<seq<Byte>>, s: State, a: Action)
    requires ProtocolOk(data, s) && Enabled(data, s, a) && (a.AllRead? || a.BadStatus?)
    ensures ProtocolOk(data, Next(data, s, a))
  {
    var t := Next(data, s, a);
    assert SubOk(data, s, a.i);
    forall i | 0 <= i < |t.subs| ensures SubOk(data, t, i) {
      assert SubOk(data, s, i);
    }
  }

  /** Sending the next bytes of a segment when nothing of later segments went out. */
  lemma SendMore(data: seq<seq<Byte>>, sent: seq<nat>, j: nat, n: nat)
    requires |sent| == |data| && (forall k :: 0 <= k < |data| ==> sent[k] <= |data[k]|)
    requires j < |data| && sent[j] + n <= |data[j]| && (forall k :: j < k < |data| ==> sent[k] == 0)
    ensures Flatten(SentParts(data, sent[j := sent[j] + n]))
            == Flatten(SentParts(data, sent)) + data[j][sent[j]..sent[j] + n]
  {
    var parts := SentParts(data, sent);
    var more := data[j][sent[j]..sent[j] + n];
    FlattenExtend(parts, j, more);
    assert data[j][..sent[j] + n] == parts[j] + more;
    assert SentParts(data, sent[j := sent[j] + n]) == parts[j := parts[j] + more];
  }

  lemma SentMore(data: seq<seq<Byte>>, sent: seq<nat>, j: nat, n: nat, sent': seq<nat>, out: seq<Byte>, out': seq<Byte>)
    requires |sent| == |data| && (forall k :: 0 <= k < |data| ==> sent[k] <= |data[k]|)
    requires j < |data| && sent[j] + n <= |data[j]| && (forall k :: j < k < |data| ==> sent[k] == 0)
    requires sent' == sent[j := sent[j] + n] && out' == out + data[j][sent[j]..sent[j] + n]
    requires out == Flatten(SentParts(data, sent))
    ensures |sent'| == |data| && (forall k :: 0 <= k < |data| ==> sent'[k] <= |data[k]|)
    ensures out' == Flatten(SentParts(data, sent'))
  {
    SendMore(data, sent, j, n);
  }

  lemma WrittenInv(data: seq<seq<Byte>>, s: State, n: nat)
    requires Inv(data, s) && Enabled(data, s, Written(n))
    ensures Inv(data, Next(data, s, Written(n)))
    ensures var j := s.spCurr;
            j < |data| && s.sent[j] + n <= |data[j]|
            && Next(data, s, Written(n)).out == s.out + data[j][s.sent[j]..s.sent[j] + n]
  {
    WrittenBytes(data, s, n);
    WrittenOutput(data, s, n);
    WrittenWhole(data, s, n);
    WrittenOk(data, s, n);
  }

  lemma WrittenOk(data: seq<seq<Byte>>, s: State, n: nat)
    requires ProtocolOk(data, s) && Enabled(data, s, Written(n))
    ensures ProtocolOk(data, Next(data, s, Written(n)))
  {
    var t := Next(data, s, Written(n));
    forall k | 0 <= k < |t.subs| ensures SubOk(data, t, k) {
      assert SubOk(data, s, k);
    }
  }

  /** Which bytes a write appends. */
  lemma WrittenBytes(data: seq<seq<Byte>>, s: State, n: nat)
    requires Inv(data, s) && Enabled(data, s, Written(n))
    ensures var j, t := s.spCurr, Next(data, s, Written(n));
            j < |data| && s.sent[j] + n <= |data[j]|
            && t.out == s.out + data[j][s.sent[j]..s.sent[j] + n] && t.sent == s.sent[j := s.sent[j] + n]
            && t.phase == s.phase && t.spCurr == s.spCurr && t.spFail == s.spFail
            && t.segmentIndex == s.segmentIndex && t.spCount == s.spCount
  {
    assert SubOk(data, s, s.control.i);
  }

  lemma WrittenOutput(data: seq<seq<Byte>>, s: State, n: nat)
    requires Inv(data, s) && Enabled(data, s, Written(n))
    ensures OutputOk(data, Next(data, s, Written(n)))
  {
    WrittenBytes(data, s, n);
    WrittenOut(data, s, n);
  }

  lemma WrittenOut(data: seq<seq<Byte>>, s: State, n: nat)
    requires Inv(data, s) && Enabled(data, s, Written(n))
    ensures var t := Next(data, s, Written(n));
            |t.sent| == |data| && (forall j :: 0 <= j < |data| ==> t.sent[j] <= |data[j]|)
            && t.out == Flatten(SentParts(data, t.sent))
  {
    WrittenBytes(data, s, n);
    var t := Next(data, s, Written(n));
    SentMore(data, s.sent, s.spCurr, n, t.sent, s.out, t.out);
  }

  lemma WrittenWhole(data: seq<seq<Byte>>, s: State, n: nat)
    requires Inv(data, s) && Enabled(data, s, Written(n))
    ensures WholeSoFar(data, Next(data, s, Written(n)))
  {
    WrittenBytes(data, s, n);
    var t, j := Next(data, s, Written(n)), s.spCurr;
    assert forall k :: 0 <= k < |data| && k != j ==> t.sent[k] == s.sent[k];
  }

  lemma StartInv(data: seq<seq<Byte>>, s: State, n: nat)
    requires Inv(data, s) && Enabled(data, s, StartBatch(n))
    ensures Inv(data, Next(data, s, StartBatch(n)))
  {
    var t := StartState(s, n);
    assert SentParts(data, t.sent) == SentParts(data, s.sent);
    forall i | 0 <= i < |t.subs| ensures t.subs[i] == FreshSub(0) && SubOk(data, t, i) {
    }
  }

  lemma TurnPassesOutput(data: seq<seq<Byte>>, s: State)
    requires Inv(data, s) && s.control.InFinalize? && s.spCurr == s.segmentIndex + s.control.i
    ensures OutputOk(data, CallStep(data, s)) && WholeSoFar(data, CallStep(data, s))
  {
    var t := CallStep(data, s);
    assert t.sent == s.sent && t.out == s.out && t.phase == s.phase && t.segmentIndex == s.segmentIndex;
    assert SentParts(data, t.sent) == SentParts(data, s.sent);
  }

  lemma TurnPassesProtocol(data: seq<seq<Byte>>, s: State)
    requires ProtocolOk(data, s) && s.control.InFinalize? && s.spCurr == s.segmentIndex + s.control.i
    ensures ProtocolOk(data, CallStep(data, s))
  {
    var t := CallStep(data, s);
    assert SubOk(data, s, s.control.i);
    forall i | 0 <= i < |t.subs| ensures SubOk(data, t, i) {
      assert SubOk(data, s, i);
    }
  }

  lemma TurnPassesInv(data: seq<seq<Byte>>, s: State)
    requires Inv(data, s) && s.control.InFinalize? && s.spCurr == s.segmentIndex + s.control.i
    ensures Inv(data, CallStep(data, s))
  {
    TurnPassesOutput(data, s);
    TurnPassesProtocol(data, s);
  }

  lemma EndInv(data: seq<seq<Byte>>, s: State)
    requires Inv(data, s) && s.control.InEnd?
    ensures Inv(data, CallStep(data, s))
  {
    var t := CallStep(data, s);
    assert SentParts(data, t.sent) == SentParts(data, s.sent);
    forall i | 0 <= i < |t.subs| ensures s.spFail == 0 ==> t.subs[i].fails == 0 {
      assert SubOk(data, s, i);
    }
  }

  lemma WakeOk(data: seq<seq<Byte>>, s: State)
    requires ProtocolOk(data, s) && s.control.InNext?
    ensures ProtocolOk(data, CallStep(data, s))
  {
    var t := CallStep(data, s);
    assert SubOk(data, s, s.control.i);
    forall i | 0 <= i < |t.subs| ensures SubOk(data, t, i) {
      assert SubOk(data, s, i);
    }
  }

  lemma SendOk(data: seq<seq<Byte>>, s: State)
    requires ProtocolOk(data, s) && s.control.InSend?
    ensures ProtocolOk(data, CallStep(data, s))
  {
    var t := CallStep(data, s);
    assert SubOk(data, s, s.control.i);
    forall i | 0 <= i < |t.subs| ensures SubOk(data, t, i) {
      assert SubOk(data, s, i);
    }
  }

  lemma WaitTurnOk(data: seq<seq<Byte>>, s: State)
    requires ProtocolOk(data, s) && s.control.InFinalize? && s.spCurr != s.segmentIndex + s.control.i
    ensures ProtocolOk(data, CallStep(data, s))
  {
    var t := CallStep(data, s);
    assert SubOk(data, s, s.control.i);
    forall i | 0 <= i < |t.subs| ensures SubOk(data, t, i) {
      assert SubOk(data, s, i);
    }
  }

  /** The calls of a chain that do not pass the turn on. */
  lemma CallOk(data: seq<seq<Byte>>, s: State)
    requires ProtocolOk(data, s) && Enabled(data, s, Call)
    requires s.control.InNext? || s.control.InSend?
             || (s.control.InFinalize? && s.spCurr != s.segmentIndex + s.control.i)
    ensures ProtocolOk(data, CallStep(data, s))
  {
    match s.control
    case InNext(_) => WakeOk(data, s);
    case InSend(_) => SendOk(data, s);
    case InFinalize(_, _) => WaitTurnOk(data, s);
  }

  /** The steps that only move sub-requests and the control. */
  lemma QuietStepOk(data: seq<seq<Byte>>, s: State, a: Action)
    requires ProtocolOk(data, s) && Enabled(data, s, a) && !a.StartBatch? && !a.Written? && !a.Call?
    ensures ProtocolOk(data, Next(data, s, a))
  {
    if a.Connect? || a.Arrive? {
      ProgressOk(data, s, a);
    } else if a.AllRead? || a.BadStatus? {
      ReportOk(data, s, a);
    } else if a.Overflow? || a.Broken? || a.ClientWritable? {
      HandOverOk(data, s, a);
    } else {
      WritePathOk(data, s, a);
    }
  }

  /** The calls that pass no turn on touch sub-requests and the control only. */
  lemma CallTouches(data: seq<seq<Byte>>, s: State)
    requires s.control.InNext? || s.control.InSend?
             || (s.control.InFinalize? && s.spCurr != s.segmentIndex + s.control.i)
    ensures var t := CallStep(data, s); t == s.(subs := t.subs, control := t.control)
  {
  }

  lemma CallInv(data: seq<seq<Byte>>, s: State)
    requires Inv(data, s) && Enabled(data, s, Call)
    ensures Inv(data, CallStep(data, s))
  {
    if s.control.InEnd? {
      EndInv(data, s);
    } else if s.control.InFinalize? && s.spCurr == s.segmentIndex + s.control.i {
      TurnPassesInv(data, s);
    } else {
      CallOk(data, s);
      CallTouches(data, s);
      SameOutput(data, s, CallStep(data, s));
    }
  }

  /** So do all other steps but the start of a batch and a write. */
  lemma QuietTouches(data: seq<seq<Byte>>, s: State, a: Action)
    requires Enabled(data, s, a) && !a.StartBatch? && !a.Written? && !a.Call?
    ensures var t := Next(data, s, a); t == s.(subs := t.subs, control := t.control)
  {
  }

  /** Every step of every interleaving keeps the invariant. */
  lemma StepInv(data: seq<seq<Byte>>, s: State, a: Action)
    requires Inv(data, s) && Enabled(data, s, a)
    ensures Inv(data, Next(data, s, a))
  {
    if a.StartBatch? {
      StartInv(data, s, a.count);
    } else if a.Written? {
      WrittenInv(data, s, a.bytes);
    } else if a.Call? {
      CallInv(data, s);
    } else {
      QuietStepOk(data, s, a);
      QuietTouches(data, s, a);
      SameOutput(data, s, Next(data, s, a));
    }
  }

  lemma WritePathOk(data: seq<seq<Byte>>, s: State, a: Action)
    requires ProtocolOk(data, s) && Enabled(data, s, a) && (a.Blocked? || a.Finished? || a.ClientGone?)
    ensures ProtocolOk(data, Next(data, s, a))
  {
    var t := Next(data, s, a);
    assert SubOk(data, s, s.control.i);
    forall i | 0 <= i < |t.subs| ensures SubOk(data, t, i) {
      assert SubOk(data, s, i);
    }
  }

  // ------------------------------------------------------------------ whole runs

  ghost predicate Run(data: seq<seq<Byte>>, states: seq<State>, actions: seq<Action>) {
    && |states| == |actions| + 1
    && Initial(data, states[0])
    && forall i :: 0 <= i < |actions| ==> StepAt(data, states, actions, i)
  }

  ghost predicate StepAt(data: seq<seq<Byte>>, states: seq<State>, actions: seq<Action>, i: nat)
    requires |states| == |actions| + 1 && i < |actions|
  {
    Enabled(data, states[i], actions[i]) && states[i + 1] == Next(data, states[i], actions[i])
  }

  lemma {:induction false} RunInv(data: seq<seq<Byte>>, states: seq<State>, actions: seq<Action>, n: nat)
    requires Run(data, states, actions) && n < |states|
    ensures Inv(data, states[n])
  {
    if n == 0 {
      InitialInv(data, states[0]);
    } else {
      RunInv(data, states, actions, n - 1);
      assert StepAt(data, states, actions, n - 1);
      StepInv(data, states[n - 1], actions[n - 1]);
    }
  }

  /** Over every completion order: the counters agree; at rest the sub-request whose turn it
      is is never ready without having been woken, nor does it hold all its data without
      writing; a sub-request whose data server reported an error counts as failed once it is
      done; and each batch calls its parent back exactly once. */
  lemma TurnsAndWakeups(data: seq<seq<Byte>>, states: seq<State>, actions: seq<Action>, n: nat)
    requires Run(data, states, actions) && n < |states|
    ensures var s := states[n];
            && (s.phase.InBatch? ==>
                  && s.spDone == s.spSucc + s.spFail == s.spCurr - s.segmentIndex
                  && s.spDone <= s.spCount == |s.subs|
                  && s.callbacks + 1 == s.batches)
            && (!s.phase.InBatch? ==> s.callbacks == s.batches)
            && (s.phase.InBatch? && s.control.Rest? ==>
                  && s.spDone < s.spCount
                  && var turn := s.subs[s.spDone];
                     !turn.freed && (turn.ready || turn.readDone ==> turn.writing))
            && (s.phase.InBatch? ==>
                  forall i :: 0 <= i < |s.subs| && s.subs[i].freed && !s.subs[i].statusOk ==> s.spFail > 0)
  {
    RunInv(data, states, actions, n);
    var s := states[n];
    if s.phase.InBatch? {
      forall i | 0 <= i < |s.subs| && s.subs[i].freed && !s.subs[i].statusOk ensures s.spFail > 0 {
        assert SubOk(data, s, i);
      }
    }
    if s.phase.InBatch? && s.control.Rest? {
      assert SubOk(data, s, s.spDone);
    }
  }

  /** Whole segments, then part of one, then nothing. */
  lemma PartsInOrder(data: seq<seq<Byte>>, sent: seq<nat>, k: nat)
    requires |sent| == |data| && (forall j :: 0 <= j < |data| ==> sent[j] <= |data[j]|) && k < |data|
    requires forall j :: 0 <= j < k ==> sent[j] == |data[j]|
    requires forall j :: k < j < |data| ==> sent[j] == 0
    ensures Flatten(SentParts(data, sent)) == Flatten(data[..k]) + data[k][..sent[k]]
  {
    var parts := SentParts(data, sent);
    forall j | 0 <= j < k ensures parts[j] == data[j] {
    }
    assert parts == data[..k] + ([parts[k]] + parts[k + 1..]);
    FlattenConcat(data[..k], [parts[k]] + parts[k + 1..]);
    FlattenConcat([parts[k]], parts[k + 1..]);
    FlattenEmpties(parts[k + 1..]);
    assert Flatten([parts[k]]) == parts[k];
  }

  /** A request that ended well has sent everything. */
  lemma OverIsWhole(data: seq<seq<Byte>>, s: State)
    requires Inv(data, s) && s.phase == Over(false)
    ensures s.out == Flatten(data)
  {
    forall j | 0 <= j < |data| ensures SentParts(data, s.sent)[j] == data[j] {
      assert s.sent[j] == |data[j]|;
    }
    assert SentParts(data, s.sent) == data;
  }

  /** What the client has at any time: prefixes of the segments in order, nothing beyond the
      segment whose turn it is, and, while nothing failed, all of every earlier segment. */
  lemma OutputInOrder(data: seq<seq<Byte>>, states: seq<State>, actions: seq<Action>, n: nat)
    requires Run(data, states, actions) && n < |states|
    ensures var s := states[n];
            && |s.sent| == |data|
            && (forall j :: 0 <= j < |data| ==> s.sent[j] <= |data[j]|)
            && s.out == Flatten(SentParts(data, s.sent))
            && (s.phase.InBatch? ==> forall j :: s.spCurr < j < |data| ==> s.sent[j] == 0)
            && (s.phase.InBatch? && s.spFail == 0 && s.spCurr < |data| ==>
                  s.out == Flatten(data[..s.spCurr]) + data[s.spCurr][..s.sent[s.spCurr]])
            && (s.phase == Over(false) ==> s.out == Flatten(data))
  {
    RunInv(data, states, actions, n);
    var s := states[n];
    if s.phase == Over(false) {
      OverIsWhole(data, s);
    } else if s.phase.InBatch? && s.spFail == 0 && s.spCurr < |data| {
      PartsInOrder(data, s.sent, s.spCurr);
    }
  }

  /** Only a write sends, and only of the segment in turn. */
  lemma SentInTurn(data: seq<seq<Byte>>, s: State, a: Action)
    requires Inv(data, s) && Enabled(data, s, a)
    ensures var t := Next(data, s, a);
            |s.sent| == |t.sent| == |data|
            && forall j :: 0 <= j < |data| && t.sent[j] != s.sent[j] ==> s.phase.InBatch? && s.spCurr == j
  {
    if a.Written? {
      WrittenBytes(data, s, a.bytes);
    } else if a.Call? {
      assert CallStep(data, s).sent == s.sent;
    } else if !a.StartBatch? {
      QuietTouches(data, s, a);
    }
  }

  /** Segment j's bytes go out only while sp_curr is j. */
  lemma BytesOnlyInTurn(data: seq<seq<Byte>>, states: seq<State>, actions: seq<Action>, n: nat)
    requires Run(data, states, actions) && n < |actions|
    ensures var s, t := states[n], states[n + 1];
            |s.sent| == |t.sent| == |data|
            && forall j :: 0 <= j < |data| && t.sent[j] != s.sent[j] ==> s.phase.InBatch? && s.spCurr == j
  {
    RunInv(data, states, actions, n);
    assert StepAt(data, states, actions, n);
    SentInTurn(data, states[n], actions[n]);
  }
}
