/**
 * The browser build's frame-driven timer service
 * (Sources/HelbreathRaylib/Platform/Web/WebTimerService.cpp): timers keyed
 * by a 32-bit id accumulate frame time and fire once their interval is
 * reached; one-shot timers and cancelled timers are dropped at the end of
 * the next `update`.
 *
 * Seconds are `float` in the source and `real` here. A callback is an
 * opaque value; `update` reports which timers fired, in the order their
 * callbacks run, instead of running them.
 */
module TimerServiceModel {

  /** One more than the largest `TimerID` (`uint32_t`). */
  const ID_LIMIT: nat := 0x1_0000_0000

  /** `Timer` (WebTimerService.h:23-32). */
  datatype Timer = Timer(callback: nat, interval: real, accumulated: real, repeating: bool, active: bool)

  /** A new timer: nothing accumulated yet, and active. */
  function NewTimer(callback: nat, interval: real, repeating: bool): (t: Timer)
    ensures t.active && t.accumulated == 0.0 && t.interval == interval && t.repeating == repeating
  {
    Timer(callback, interval, 0.0, repeating, true)
  }

  /** The timer's callback runs in this update: it is active and its interval is reached. */
  predicate Fires(t: Timer, dt: real)
  {
    t.active && t.accumulated + dt >= t.interval
  }

  /** A one-shot timer that fires in this update: it is queued for removal. */
  predicate Expires(t: Timer, dt: real)
  {
    Fires(t, dt) && !t.repeating
  }

  /** What one update does to one timer (WebTimerService.cpp:34-50). */
  function Step(t: Timer, dt: real): (r: Timer)
    ensures r.callback == t.callback && r.interval == t.interval && r.repeating == t.repeating
    ensures !t.active ==> r == t
    ensures t.active && !Fires(t, dt) ==> r.active && r.accumulated == t.accumulated + dt
    ensures Fires(t, dt) && t.repeating ==> r.active && r.accumulated == t.accumulated + dt - t.interval
    ensures Expires(t, dt) ==> !r.active
  {
    if !t.active then t
    else
      var acc := t.accumulated + dt;
      if acc >= t.interval then
        if t.repeating then t.(accumulated := acc - t.interval) else t.(accumulated := acc, active := false)
      else t.(accumulated := acc)
  }

  /**
   * A repeating timer whose frames are no longer than its interval keeps
   * less than one interval accumulated, so it never falls behind.
   */
  lemma RepeatingStaysBehindOneInterval(t: Timer, dt: real)
    requires t.active && t.repeating && 0.0 <= t.accumulated < t.interval && 0.0 <= dt <= t.interval
    ensures var r := Step(t, dt); r.active && 0.0 <= r.accumulated < r.interval
  {
  }

  /** An inactive timer accumulates nothing and never fires. */
  lemma InactiveIsFrozen(t: Timer, dt: real)
    requires !t.active
    ensures Step(t, dt) == t && !Fires(t, dt)
  {
  }

  /** Every key of `m` below `n`. */
  ghost predicate KeysBelow(m: map<nat, Timer>, n: nat)
  {
    forall k | k in m :: k < n
  }

  /** `k` is the least id of `s`. */
  predicate IsLeast(k: nat, s: set<nat>)
  {
    k in s && forall x | x in s :: k <= x
  }

  /** Every finite non-empty set of ids has a least element. */
  lemma {:induction false} HasLeast(s: set<nat>)
    requires s != {}
    ensures exists k :: IsLeast(k, s)
    decreases |s|
  {
    var y :| y in s;
    if s == {y} {
      assert IsLeast(y, s);
    } else {
      HasLeast(s - {y});
      var k :| IsLeast(k, s - {y});
      var m := if y < k then y else k;
      forall x | x in s
        ensures m <= x
      {
        if x != y {
          assert x in s - {y};
        }
      }
      assert IsLeast(m, s);
    }
  }

  /**
   * The state of the first loop of `update` with the ids in `remaining`
   * still to visit: every visited timer has taken its `Step`, the visited
   * one-shot timers that fired are queued for removal, and `fired` lists
   * the visited timers that fired, in ascending order and below every
   * remaining id.
   */
  ghost predicate AdvancedBut(t0: map<nat, Timer>, q0: seq<nat>, t: map<nat, Timer>, q: seq<nat>,
                              fired: seq<nat>, remaining: set<nat>, dt: real)
  {
    remaining <= t.Keys && t.Keys == t0.Keys &&
    (forall k | k in t :: t[k] == if k in remaining then t0[k] else Step(t0[k], dt)) &&
    (forall k :: k in q <==> k in q0 || (k in t0 && k !in remaining && Expires(t0[k], dt))) &&
    (forall k :: k in fired <==> k in t0 && k !in remaining && Fires(t0[k], dt)) &&
    (forall i, j | 0 <= i < j < |fired| :: fired[i] < fired[j]) &&
    (forall i, k | 0 <= i < |fired| && k in remaining :: fired[i] < k)
  }

  /** Stepping the least remaining timer keeps the loop state, with that id visited. */
  lemma AdvanceStep(t0: map<nat, Timer>, q0: seq<nat>, t: map<nat, Timer>, q: seq<nat>,
                    fired: seq<nat>, remaining: set<nat>, dt: real,
                    id: nat, t': map<nat, Timer>, q': seq<nat>, fired': seq<nat>)
    requires AdvancedBut(t0, q0, t, q, fired, remaining, dt) && IsLeast(id, remaining)
    requires t' == t[id := Step(t[id], dt)]
    requires q' == q + (if Expires(t[id], dt) then [id] else [])
    requires fired' == if Fires(t[id], dt) then fired + [id] else fired
    ensures AdvancedBut(t0, q0, t', q', fired', remaining - {id}, dt)
  {
    var rest := remaining - {id};
    assert t[id] == t0[id];
    forall k | k in t'
      ensures t'[k] == if k in rest then t0[k] else Step(t0[k], dt)
    {
    }
    forall i, k | 0 <= i < |fired'| && k in rest
      ensures fired'[i] < k
    {
      if i == |fired| {
        assert fired'[i] == id;
      }
    }
  }

  /** `WebTimerService`. */
  class WebTimerService {
    var nextId: nat
    var timers: map<nat, Timer>
    var toRemove: seq<nat>

    /** Ids are 32-bit, and every id in use was handed out before the current counter. */
    ghost predicate Valid()
      reads this
    {
      1 <= nextId < ID_LIMIT && KeysBelow(timers, nextId)
    }

    /** The constructor (WebTimerService.cpp:3-5): ids start at 1. */
    constructor ()
      ensures Valid() && nextId == 1 && timers == map[] && toRemove == []
    {
      nextId := 1;
      timers := map[];
      toRemove := [];
    }

    /**
     * The common part of `scheduleRepeating` and `scheduleOnce`: take the
     * next id, advance the 32-bit counter (wrapping to 0 after the largest
     * id), and `emplace` the timer, which keeps an existing timer with the
     * same id.
     */
    method Schedule(callback: nat, interval: real, repeating: bool) returns (id: nat)
      requires nextId < ID_LIMIT
      modifies this
      ensures id == old(nextId) && nextId == (old(nextId) + 1) % ID_LIMIT
      ensures id in old(timers) ==> timers == old(timers)
      ensures id !in old(timers) ==> timers == old(timers)[id := NewTimer(callback, interval, repeating)]
      ensures toRemove == old(toRemove)
      ensures old(Valid()) && old(nextId) + 1 < ID_LIMIT ==>
        Valid() && nextId == old(nextId) + 1 && timers == old(timers)[id := NewTimer(callback, interval, repeating)]
    {
      id := nextId;
      nextId := (nextId + 1) % ID_LIMIT;
      if id !in timers {
        timers := timers[id := NewTimer(callback, interval, repeating)];
      }
    }

    /** `scheduleRepeating` (WebTimerService.cpp:7-11): returns the new timer's id. */
    method ScheduleRepeating(callback: nat, intervalSeconds: real) returns (id: nat)
      requires Valid() && nextId + 1 < ID_LIMIT
      modifies this
      ensures Valid() && id == old(nextId) && nextId == old(nextId) + 1 && id > 0
      ensures id !in old(timers) && timers == old(timers)[id := NewTimer(callback, intervalSeconds, true)]
      ensures toRemove == old(toRemove)
    {
      id := Schedule(callback, intervalSeconds, true);
    }

    /** `scheduleOnce` (WebTimerService.cpp:13-16): the id is used but not returned. */
    method ScheduleOnce(callback: nat, delaySeconds: real)
      requires Valid() && nextId + 1 < ID_LIMIT
      modifies this
      ensures Valid() && nextId == old(nextId) + 1
      ensures old(nextId) !in old(timers) && timers == old(timers)[old(nextId) := NewTimer(callback, delaySeconds, false)]
      ensures toRemove == old(toRemove)
    {
      var _ := Schedule(callback, delaySeconds, false);
    }

    /** `cancel` (WebTimerService.cpp:18-24): a known timer is deactivated and queued for removal; an unknown id changes nothing. */
    method Cancel(id: nat)
      requires Valid()
      modifies this
      ensures Valid() && nextId == old(nextId)
      ensures id !in old(timers) ==> timers == old(timers) && toRemove == old(toRemove)
      ensures id in old(timers) ==>
        timers == old(timers)[id := old(timers)[id].(active := false)] && toRemove == old(toRemove) + [id]
    {
      if id in timers {
        timers := timers[id := timers[id].(active := false)];
        toRemove := toRemove + [id];
      }
    }

    /** `cancelAll` (WebTimerService.cpp:26-29): no timers are left. */
    method CancelAll()
      requires Valid()
      modifies this
      ensures Valid() && timers == map[] && toRemove == [] && nextId == old(nextId)
    {
      timers := map[];
      toRemove := [];
    }

    /**
     * `update` (WebTimerService.cpp:31-58): every timer takes one `Step` in
     * ascending id order; `fired` lists, in that order, the timers whose
     * callback runs. Afterwards the timers queued by `cancel` and the
     * one-shot timers that fired are gone.
     */
    method Update(dt: real) returns (fired: seq<nat>)
      requires Valid()
      modifies this
      ensures Valid() && nextId == old(nextId) && toRemove == []
      ensures timers == map k | k in old(timers) && k !in old(toRemove) && !Expires(old(timers)[k], dt) :: Step(old(timers)[k], dt)
      ensures forall k :: k in fired <==> k in old(timers) && Fires(old(timers)[k], dt)
      ensures forall i, j | 0 <= i < j < |fired| :: fired[i] < fired[j]
      ensures forall k | k in fired && !old(timers)[k].repeating :: k !in timers
      ensures forall k | k in old(toRemove) :: k !in timers
      ensures forall k | k in old(timers) && !old(timers)[k].active :: k !in fired
    {
      fired := AdvanceAll(dt);
      RemoveQueued();
    }

    /** The first loop of `update`: every timer steps, in ascending id order. */
    method AdvanceAll(dt: real) returns (fired: seq<nat>)
      requires Valid()
      modifies this
      ensures Valid() && nextId == old(nextId)
      ensures timers.Keys == old(timers).Keys
      ensures forall k | k in timers :: timers[k] == Step(old(timers)[k], dt)
      ensures forall k :: k in toRemove <==> k in old(toRemove) || (k in old(timers) && Expires(old(timers)[k], dt))
      ensures forall k :: k in fired <==> k in old(timers) && Fires(old(timers)[k], dt)
      ensures forall i, j | 0 <= i < j < |fired| :: fired[i] < fired[j]
    {
      fired := [];
      var remaining := timers.Keys;
      while remaining != {}
        invariant Valid() && nextId == old(nextId)
        invariant AdvancedBut(old(timers), old(toRemove), timers, toRemove, fired, remaining, dt)
        decreases |remaining|
      {
        HasLeast(remaining);
        var id :| IsLeast(id, remaining);
        ghost var t, q, f := timers, toRemove, fired;
        var fires := AdvanceOne(id, dt);
        if fires {
          fired := fired + [id];
        }
        AdvanceStep(old(timers), old(toRemove), t, q, f, remaining, dt, id, timers, toRemove, fired);
        remaining := remaining - {id};
      }
    }

    /** One pass of the first loop of `update` (WebTimerService.cpp:34-50), for the timer `id`. */
    method AdvanceOne(id: nat, dt: real) returns (fires: bool)
      requires Valid() && id in timers
      modifies this
      ensures Valid() && nextId == old(nextId)
      ensures fires == Fires(old(timers)[id], dt)
      ensures timers == old(timers)[id := Step(old(timers)[id], dt)]
      ensures toRemove == old(toRemove) + (if Expires(old(timers)[id], dt) then [id] else [])
    {
      fires := false;
      var t := timers[id];
      if !t.active {
        return;
      }
      var acc := t.accumulated + dt;
      if acc >= t.interval {
        fires := true;
        if t.repeating {
          t := t.(accumulated := acc - t.interval);
        } else {
          t := t.(accumulated := acc, active := false);
          toRemove := toRemove + [id];
        }
      } else {
        t := t.(accumulated := acc);
      }
      timers := timers[id := t];
    }

    /** The second loop of `update`: every queued id is erased, then the queue is emptied. */
    method RemoveQueued()
      requires Valid()
      modifies this
      ensures Valid() && nextId == old(nextId) && toRemove == []
      ensures timers == map k | k in old(timers) && k !in old(toRemove) :: old(timers)[k]
    {
      var i := 0;
      while i < |toRemove|
        invariant 0 <= i <= |toRemove| && toRemove == old(toRemove)
        invariant Valid() && nextId == old(nextId)
        invariant timers == map k | k in old(timers) && k !in toRemove[..i] :: old(timers)[k]
      {
        assert toRemove[..i + 1] == toRemove[..i] + [toRemove[i]];
        timers := timers - {toRemove[i]};
        i := i + 1;
      }
      assert toRemove[..i] == toRemove;
      toRemove := [];
    }
  }
}
