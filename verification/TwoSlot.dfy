/** The two-slot switch of the strategy process: updates go to the slot that is not current,
    readers in other processes follow `current`.

    Models modules/mod_strategy/ngx_proc_strategy_module.c as a state machine over the steps
    that other processes can see. Slot contents are numbers. */
module TwoSlot {

  datatype Slot = Slot(data: int, valid: bool)

  /** Where the callback is: not running, inside the application's update of a slot, or done
      with it and about to switch. */
  datatype Phase = Idle | Updating(slot: nat) | Switching

  /** What a reader holds: the slot it was given, what was in it, how many switches happened
      since, and whether an update of that slot has begun since. */
  datatype Reader = Reader(slot: nat, seen: int, switches: nat, overwritten: bool)

  /** `served` is the data the current slot is meant to hold, `newest` the data of the latest
      successful update of any slot. */
  datatype State = State(
    slots: seq<Slot>, current: nat, phase: Phase, readers: map<nat, Reader>,
    served: int, newest: int, callbackUpdates: nat)

  datatype Action =
    | Callback(needUpdate: bool)            // check_update's verdict; no check means true
    | Scribble(data: int)                   // the update writes some of the slot
    | UpdateDone(ok: bool, data: int)       // the update returns, having written `data`
    | Switch
    | Fetch(reader: nat)                    // a worker reads `current`

  /** ngx_strategy_slot_init: both slots are updated, slot 0 is current. */
  function Init(ok0: bool, data0: int, ok1: bool, data1: int): State {
    State([Slot(data0, ok0), Slot(data1, ok1)], 0, Idle, map[], data0, if ok1 then data1 else data0, 0)
  }

  function Other(i: nat): (j: nat)
    requires i < 2
    ensures j < 2 && j != i
  {
    (i + 1) % 2
  }

  predicate Enabled(s: State, a: Action) {
    match a
    case Callback(_) => s.phase.Idle? && s.current < 2
    case Scribble(_) => s.phase.Updating? && s.phase.slot < |s.slots|
    case UpdateDone(_, _) => s.phase.Updating? && s.phase.slot < |s.slots|
    case Switch => s.phase.Switching? && s.current < 2
    case Fetch(_) => s.current < |s.slots|
  }

  function Next(s: State, a: Action): State
    requires Enabled(s, a)
  {
    match a
    case Callback(need) =>
      if !need then s
      else
        var slot := Other(s.current);
        s.(phase := Updating(slot),
           readers := map r | r in s.readers ::
             if s.readers[r].slot == slot then s.readers[r].(overwritten := true) else s.readers[r])
    case Scribble(data) =>
      s.(slots := s.slots[s.phase.slot := s.slots[s.phase.slot].(data := data)])
    case UpdateDone(ok, data) =>
      if ok then
        s.(slots := s.slots[s.phase.slot := Slot(data, true)], phase := Switching,
           newest := data, callbackUpdates := s.callbackUpdates + 1)
      else s.(slots := s.slots[s.phase.slot := s.slots[s.phase.slot].(data := data)], phase := Idle)
    case Switch =>
      s.(current := Other(s.current), phase := Idle, served := s.newest,
         readers := map r | r in s.readers :: s.readers[r].(switches := s.readers[r].switches + 1))
    case Fetch(r) =>
      s.(readers := s.readers[r := Reader(s.current, s.slots[s.current].data, 0, false)])
  }

  /** ngx_strategy_get_current_slot: the data a reader gets, or nothing. */
  datatype Answer = Nothing | Data(value: int)

  function Get(s: State): Answer
    requires s.current < |s.slots|
  {
    if s.slots[s.current].valid then Data(s.slots[s.current].data) else Nothing
  }

  ghost predicate ReaderOk(s: State, r: Reader)
    requires |s.slots| == 2
  {
    && r.slot < 2
    && (r.switches == 0 ==> r.slot == s.current && !r.overwritten)
    && (!r.overwritten ==> s.slots[r.slot].data == r.seen)
    && (s.phase == Updating(r.slot) ==> r.overwritten)
    && (s.phase.Switching? && r.slot != s.current ==> r.overwritten)
  }

  ghost predicate Inv(s: State) {
    && |s.slots| == 2 && s.current < 2
    && (s.phase.Updating? ==> s.phase.slot == Other(s.current))
    && s.slots[s.current].data == s.served
    && (s.phase.Switching? ==> s.slots[Other(s.current)] == Slot(s.newest, true) && s.callbackUpdates > 0)
    && (!s.phase.Switching? && s.callbackUpdates > 0 ==> s.served == s.newest && s.slots[s.current].valid)
    && (forall r :: r in s.readers ==> ReaderOk(s, s.readers[r]))
  }

  lemma StepInv(s: State, a: Action)
    requires Inv(s) && Enabled(s, a)
    ensures Inv(Next(s, a))
  {
    var s' := Next(s, a);
    forall r | r in s'.readers ensures ReaderOk(s', s'.readers[r]) {
      if r in s.readers {
        assert ReaderOk(s, s.readers[r]);
      }
    }
  }

  /** Every run: actions that are not possible when their turn comes do not happen. */
  function Run(s: State, actions: seq<Action>): State
    decreases |actions|
  {
    if actions == [] then s
    else if Enabled(s, actions[0]) then Run(Next(s, actions[0]), actions[1..])
    else Run(s, actions[1..])
  }

  lemma {:induction false} RunInv(s: State, actions: seq<Action>)
    requires Inv(s)
    ensures Inv(Run(s, actions))
    decreases |actions|
  {
    if actions != [] {
      if Enabled(s, actions[0]) {
        StepInv(s, actions[0]);
        RunInv(Next(s, actions[0]), actions[1..]);
      } else {
        RunInv(s, actions[1..]);
      }
    }
  }

  /** In every reachable state: the slot being updated is never the current one; a reader gets
      nothing, or the data of the latest successful update the callback switched to (of slot 0's
      first update before any switch); and what a reader was given stays as it was until an
      update begins after a switch. */
  lemma ReadersSeeWholeUpdates(ok0: bool, data0: int, ok1: bool, data1: int, actions: seq<Action>)
    ensures var s := Run(Init(ok0, data0, ok1, data1), actions);
            && |s.slots| == 2 && s.current < 2
            && (s.phase.Updating? ==> s.phase.slot != s.current)
            && (Get(s).Data? ==> Get(s).value == s.served)
            && (forall r :: r in s.readers && s.readers[r].slot < 2 && !s.readers[r].overwritten ==>
                  s.slots[s.readers[r].slot].data == s.readers[r].seen)
            && (forall r :: r in s.readers && s.readers[r].overwritten ==> s.readers[r].switches > 0)
  {
    RunInv(Init(ok0, data0, ok1, data1), actions);
    var s := Run(Init(ok0, data0, ok1, data1), actions);
    forall r | r in s.readers ensures ReaderOk(s, s.readers[r]) {
    }
  }

  lemma {:induction false} UpdatesGrow(s: State, actions: seq<Action>)
    ensures Run(s, actions).callbackUpdates >= s.callbackUpdates
    decreases |actions|
  {
    if actions != [] {
      UpdatesGrow(if Enabled(s, actions[0]) then Next(s, actions[0]) else s, actions[1..]);
    }
  }

  /** Without a successful update nothing changes for readers. */
  lemma {:induction false} QuietRun(s: State, actions: seq<Action>)
    requires Inv(s) && !s.phase.Switching?
    ensures var t := Run(s, actions);
            t.callbackUpdates == s.callbackUpdates && |t.slots| == 2 ==>
              t.newest == s.newest && t.current == s.current && t.slots[t.current] == s.slots[s.current]
    decreases |actions|
  {
    if actions != [] {
      if Enabled(s, actions[0]) {
        var s' := Next(s, actions[0]);
        StepInv(s, actions[0]);
        if s'.phase.Switching? {
          UpdatesGrow(s', actions[1..]);
        } else {
          QuietRun(s', actions[1..]);
        }
      } else {
        QuietRun(s, actions[1..]);
      }
    }
  }

  /** Between callbacks, readers get the newest data there is if and only if a callback has
      updated a slot, or the start left slot 1 without newer data. */
  lemma NewestIsServed(ok0: bool, data0: int, ok1: bool, data1: int, actions: seq<Action>)
    ensures var s := Run(Init(ok0, data0, ok1, data1), actions);
            s.current < |s.slots| && !s.phase.Switching? ==>
              (Get(s) == Data(s.newest) <==> s.callbackUpdates > 0 || (ok0 && (!ok1 || data0 == data1)))
  {
    var i := Init(ok0, data0, ok1, data1);
    RunInv(i, actions);
    QuietRun(i, actions);
  }

  /** After a start that put 1 into slot 0 and then 2 into slot 1, readers get 1. */
  lemma StaleAfterStart()
    ensures var s := Run(Init(true, 1, true, 2), []);
            s.current < |s.slots| && Get(s) == Data(1) && s.newest == 2
  {
  }

  /** A callback that finds something new and updates well: whatever it scribbles on the way,
      readers then get the new data, and the slot they had before is as it was. */
  lemma UpdateIsServed(s: State, scribble: int, d: int)
    requires Inv(s) && s.phase.Idle?
    ensures var t := Run(s, [Callback(true), Scribble(scribble), UpdateDone(true, d), Switch]);
            && Inv(t) && t.phase.Idle? && Get(t) == Data(d)
            && t.current != s.current && t.slots[s.current] == s.slots[s.current]
  {
    var s1 := Next(s, Callback(true));
    var s2 := Next(s1, Scribble(scribble));
    var s3 := Next(s2, UpdateDone(true, d));
    RunInv(s, [Callback(true), Scribble(scribble), UpdateDone(true, d), Switch]);
    assert Run(s3, [Switch]) == Next(s3, Switch);
    assert Run(s2, [UpdateDone(true, d), Switch]) == Run(s3, [Switch]);
    assert Run(s1, [Scribble(scribble), UpdateDone(true, d), Switch]) == Run(s2, [UpdateDone(true, d), Switch]);
  }

  /** One that has nothing to do, or fails, leaves readers what they had. */
  lemma NoUpdateNoChange(s: State, scribble: int, d: int)
    requires Inv(s) && s.phase.Idle?
    ensures Run(s, [Callback(false)]) == s
    ensures var t := Run(s, [Callback(true), Scribble(scribble), UpdateDone(false, d)]);
            Inv(t) && t.phase.Idle? && Get(t) == Get(s)
  {
    var s1 := Next(s, Callback(true));
    var s2 := Next(s1, Scribble(scribble));
    RunInv(s, [Callback(true), Scribble(scribble), UpdateDone(false, d)]);
    assert Run(s2, [UpdateDone(false, d)]) == Next(s2, UpdateDone(false, d));
    assert Run(s1, [Scribble(scribble), UpdateDone(false, d)]) == Run(s2, [UpdateDone(false, d)]);
  }

  /** What a reader fetches is what there is to get. */
  lemma FetchGets(s: State, r: nat)
    requires Inv(s)
    ensures var t := Next(s, Fetch(r));
            r in t.readers && (Get(s).Data? ==> t.readers[r].seen == Get(s).value) && Get(t) == Get(s)
  {
  }
}
