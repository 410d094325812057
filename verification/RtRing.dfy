/** The response-time ring of the sysguard module: one slot per second, refined by the log
    of completed requests.

    Models modules/ngx_http_sysguard_module/ngx_http_sysguard_module.c. The clock is a
    parameter that never goes back. */
module RtRing {

  datatype Slot = Slot(sec: int, msec: int, requests: nat, stamp: nat)

  /** A request completed in second `at`, `sec` seconds and `msec` milliseconds after it
      started; either difference may be negative on its own. */
  datatype Done = Done(at: nat, sec: int, msec: int)

  datatype Totals = Totals(sec: int, msec: int, requests: nat)

  function Plus(a: Totals, b: Totals): Totals {
    Totals(a.sec + b.sec, a.msec + b.msec, a.requests + b.requests)
  }

  /** The requests of `log` completed in the seconds from `lo` to `hi`. */
  function Window(log: seq<Done>, lo: int, hi: int): Totals {
    if log == [] then Totals(0, 0, 0)
    else
      var d := log[|log| - 1];
      var t := Window(log[..|log| - 1], lo, hi);
      if lo <= d.at <= hi then Plus(t, Totals(d.sec, d.msec, 1)) else t
  }

  lemma {:induction false} WindowSplit(log: seq<Done>, lo: int, mid: int, hi: int)
    requires lo <= mid + 1 && mid <= hi
    ensures Window(log, lo, hi) == Plus(Window(log, lo, mid), Window(log, mid + 1, hi))
  {
    if log != [] {
      WindowSplit(log[..|log| - 1], lo, mid, hi);
    }
  }

  lemma {:induction false} WindowEmpty(log: seq<Done>, lo: int, hi: int)
    requires forall k :: 0 <= k < |log| ==> !(lo <= log[k].at <= hi)
    ensures Window(log, lo, hi) == Totals(0, 0, 0)
  {
    if log != [] {
      WindowEmpty(log[..|log| - 1], lo, hi);
    }
  }

  lemma {:induction false} WindowHits(log: seq<Done>, k: nat, lo: int, hi: int)
    requires k < |log| && lo <= log[k].at <= hi
    ensures Window(log, lo, hi).requests > 0
  {
    if k < |log| - 1 {
      WindowHits(log[..|log| - 1], k, lo, hi);
    }
  }

  /** The loop stops one slot short of the period: it counts every request of the last `n`
      seconds if and only if none completed in the oldest of them. With one slot it counts
      nothing. */
  lemma OldestSecondLeftOut(log: seq<Done>, last: int, n: nat)
    requires n > 0
    ensures Window(log, last - n + 2, last).requests == Window(log, last - n + 1, last).requests
       <==> forall k :: 0 <= k < |log| ==> log[k].at != last - n + 1
    ensures n == 1 ==> Window(log, last - n + 2, last) == Totals(0, 0, 0)
  {
    var t := last - n + 1;
    WindowSplit(log, t, t, last);
    if k :| 0 <= k < |log| && log[k].at == t {
      WindowHits(log, k, t, t);
    } else {
      WindowEmpty(log, t, t);
    }
    if n == 1 {
      WindowEmpty(log, last + 1, last);
    }
  }

  /** A request of second 9 is missing from the two seconds that end with second 10. */
  lemma OldestRequestMissed()
    ensures var log := [Done(9, 0, 5)];
            Window(log, 10, 10).requests == 0 && Window(log, 9, 10).requests == 1
  {
    var log := [Done(9, 0, 5)];
    assert log[..|log| - 1] == [];
  }

  lemma WindowSnoc(log: seq<Done>, d: Done, lo: int, hi: int)
    ensures var t := Window(log, lo, hi);
            Window(log + [d], lo, hi) ==
              if lo <= d.at <= hi then Totals(t.sec + d.sec, t.msec + d.msec, t.requests + 1) else t
  {
    assert (log + [d])[..|log|] == log;
  }

  /** The slot `d` places before slot `c`. */
  function Back(c: nat, d: nat, n: nat): (i: nat)
    requires c < n && d < n
    ensures i < n && (i == c <==> d == 0)
  {
    if d <= c then c - d else c + n - d
  }

  lemma Forward(c: nat, off: nat, n: nat)
    requires c < n && off < n
    ensures (c + off) % n == if c + off < n then c + off else c + off - n
  {
    if c + off >= n {
      assert (c + off) % n == (c + off - n) % n;
    }
  }

  function Shown(s: Slot): Totals {
    Totals(s.sec, s.msec, s.requests)
  }

  /** A slot holds the second `t` of the log, or another second and the log has nothing
      for `t`. */
  ghost predicate Holds(s: Slot, log: seq<Done>, t: int) {
    Window(log, t, t) == if s.stamp == t && t != 0 then Shown(s) else Totals(0, 0, 0)
  }

  /** The last `n` seconds of the log are in the slots, the latest in slot `current`. */
  ghost predicate Refines(slots: seq<Slot>, current: nat, log: seq<Done>) {
    && current < |slots| && slots[current].stamp > 0
    && (forall i :: 0 <= i < |slots| ==> slots[i].stamp <= slots[current].stamp)
    && (forall k :: 0 <= k < |log| ==> log[k].at <= slots[current].stamp)
    && (forall d :: 0 <= d < |slots| ==> Holds(slots[Back(current, d, |slots|)], log, slots[current].stamp - d))
  }

  lemma InitRefines(slots: seq<Slot>)
    requires |slots| > 0 && slots[0].stamp > 0 && Shown(slots[0]) == Totals(0, 0, 0)
    requires forall i :: 0 < i < |slots| ==> slots[i] == Slot(0, 0, 0, 0)
    ensures Refines(slots, 0, [])
  {
  }

  /** Moving on by `off` seconds, over however many skipped seconds, and clearing the slot
      reached there keeps the refinement. */
  lemma AdvanceRefines(slots: seq<Slot>, current: nat, log: seq<Done>, off: nat, next: nat, slots': seq<Slot>)
    requires Refines(slots, current, log) && off > 0 && next == (current + off) % |slots|
    requires slots' == slots[next := Slot(0, 0, 0, slots[current].stamp + off)]
    ensures Refines(slots', next, log)
  {
    var n, last := |slots|, slots[current].stamp + off;
    forall d | 0 <= d < n ensures Holds(slots'[Back(next, d, n)], log, last - d) {
      if d < off {
        WindowEmpty(log, last - d, last - d);
      } else {
        Forward(current, off, n);
        assert Back(next, d, n) == Back(current, d - off, n);
        assert Holds(slots[Back(current, d - off, n)], log, slots[current].stamp - (d - off));
      }
    }
  }

  /** Counting a request into the current slot keeps the refinement. */
  lemma CountRefines(slots: seq<Slot>, current: nat, log: seq<Done>, sec: int, msec: int)
    requires Refines(slots, current, log)
    ensures var s := slots[current];
            Refines(slots[current := Slot(s.sec + sec, s.msec + msec, s.requests + 1, s.stamp)], current,
                    log + [Done(s.stamp, sec, msec)])
  {
    var s := slots[current];
    var slots' := slots[current := Slot(s.sec + sec, s.msec + msec, s.requests + 1, s.stamp)];
    var log' := log + [Done(s.stamp, sec, msec)];
    forall d | 0 <= d < |slots| ensures Holds(slots'[Back(current, d, |slots|)], log', s.stamp - d) {
      assert Holds(slots[Back(current, d, |slots|)], log, s.stamp - d);
      WindowSnoc(log, Done(s.stamp, sec, msec), s.stamp - d, s.stamp - d);
    }
  }

  /** The window one second further back: with the slot for that second, if it has it. */
  lemma OneMoreSlot(slots: seq<Slot>, current: nat, log: seq<Done>, d: nat)
    requires Refines(slots, current, log) && d < |slots|
    ensures var last, node := slots[current].stamp, slots[Back(current, d, |slots|)];
            Window(log, last - d, last) ==
              if node.stamp != 0 && last - node.stamp == d then Plus(Window(log, last - d + 1, last), Shown(node))
              else Window(log, last - d + 1, last)
  {
    var last := slots[current].stamp;
    assert Holds(slots[Back(current, d, |slots|)], log, last - d);
    WindowSplit(log, last - d, last - d, last);
  }

  /** Mean latency in milliseconds, rounded down; 0 without requests or when the clocks of
      the requests disagree so far that the sum is negative. */
  ghost predicate IsMean(t: Totals, rt: nat) {
    var total := if t.sec * 1000 + t.msec > 0 then t.sec * 1000 + t.msec else 0;
    if t.requests == 0 then rt == 0 else rt * t.requests <= total < (rt + 1) * t.requests
  }

  method Mean(t: Totals) returns (rt: nat)
    ensures IsMean(t, rt) && (t.requests == 0 ==> rt == 0)
  {
    var msec := t.msec + t.sec * 1000;
    msec := if msec > 0 then msec else 0;
    rt := 0;
    if t.requests != 0 && msec > 0 {
      msec := msec / t.requests;
      rt := msec / 1000 * 1000 + msec % 1000;
    }
  }

  class Ring {
    const slots: array<Slot>
    var current: nat
    var cachedRt: nat
    var cachedRtExptime: int
    ghost var log: seq<Done>

    ghost predicate Valid()
      reads this, slots
    {
      Refines(slots[..], current, log)
    }

    /** The ring part of ngx_http_sysguard_merge_conf. */
    constructor (rtPeriod: nat, now: nat)
      requires rtPeriod > 0 && now > 0
      ensures Valid() && log == [] && slots.Length == rtPeriod && slots[current].stamp == now
      ensures fresh(slots)
    {
      slots := new Slot[rtPeriod](i => Slot(0, 0, 0, 0));
      current, cachedRt, cachedRtExptime, log := 0, 0, 0, [];
      new;
      slots[0] := slots[0].(stamp := now);
      InitRefines(slots[..]);
    }

    /** ngx_http_sysguard_update_rt_node */
    method UpdateRtNode(curSec: nat, curMsec: nat, startSec: nat, startMsec: nat)
      requires Valid() && slots[current].stamp <= curSec
      modifies `current, `log, slots
      ensures Valid() && slots[current].stamp == curSec
      ensures log == old(log) + [Done(curSec, curSec - startSec, curMsec - startMsec)]
    {
      var off := curSec - slots[current].stamp;
      if off != 0 {
        MoveOn(off);
      }
      Count(curSec - startSec, curMsec - startMsec);
    }

    /** Adds a request to the current slot. */
    method Count(sec: int, msec: int)
      requires Valid()
      modifies `log, slots
      ensures Valid() && slots[current].stamp == old(slots[current].stamp)
      ensures log == old(log) + [Done(slots[current].stamp, sec, msec)]
    {
      ghost var before := slots[..];
      CountRefines(before, current, log, sec, msec);
      var node := slots[current];
      slots[current] := Slot(node.sec + sec, node.msec + msec, node.requests + 1, node.stamp);
      assert slots[..] == before[current := slots[current]];
      log := log + [Done(node.stamp, sec, msec)];
    }

    /** Moves on to the slot `off` seconds later and clears it. */
    method MoveOn(off: nat)
      requires Valid() && off > 0
      modifies `current, slots
      ensures Valid() && slots[current].stamp == old(slots[current].stamp) + off
    {
      ghost var before := slots[..];
      var next, stamp := (current + off) % slots.Length, slots[current].stamp + off;
      slots[next] := Slot(0, 0, 0, stamp);
      assert slots[..] == before[next := Slot(0, 0, 0, stamp)];
      AdvanceRefines(before, current, log, off, next, slots[..]);
      current := next;
    }

    /** The loop of ngx_http_sysguard_update_rt: every slot but the oldest, newest first. */
    method SumSlots() returns (t: Totals)
      requires Valid()
      ensures var last := slots[current].stamp;
              t == Window(log, last - slots.Length + 2, last)
    {
      var n, last := slots.Length, slots[current].stamp;
      var i, head, processed := current, (current + 1) % n, 0;
      if n > 1 {
        Forward(current, 1, n);
      }
      t := Totals(0, 0, 0);
      WindowEmpty(log, last + 1, last);
      while i != head && processed < n
        invariant 0 <= processed < n && i == Back(current, processed, n)
        invariant t == Window(log, last - processed + 1, last)
        decreases n - processed
      {
        var node := slots[i];
        OneMoreSlot(slots[..], current, log, processed);
        if !(node.stamp == 0 || last - node.stamp != processed) {
          t := Plus(t, Shown(node));
        }
        if i == 0 {
          i := n;
        }
        i, processed := i - 1, processed + 1;
      }
    }

    /** ngx_http_sysguard_update_rt */
    method UpdateRt(now: nat, exptime: int)
      requires Valid()
      modifies `cachedRt, `cachedRtExptime
      ensures var last := slots[current].stamp;
              IsMean(Window(log, last - slots.Length + 2, last), cachedRt)
      ensures slots.Length == 1 ==> cachedRt == 0
      ensures cachedRtExptime == now + exptime
    {
      OldestSecondLeftOut(log, slots[current].stamp, slots.Length);
      cachedRtExptime := now + exptime;
      var t := SumSlots();
      cachedRt := Mean(t);
    }
  }
}
