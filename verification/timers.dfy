/** KTimeout: one running timer for each id in the table, and none besides. */
module Timers {
  import opened Choice
  import opened Options

  // Some number is above all elements.
  lemma {:induction false} BoundExists(s: set<int>) returns (b: int)
    ensures b >= 0 && forall x :: x in s ==> x <= b
  {
    if s == {} {
      b := 0;
    } else {
      var x := Pick(s);
      var c := BoundExists(s - {x});
      b := if x > c then x else c;
      forall y | y in s ensures y <= b {
        assert y == x || y in s - {x};
      }
    }
  }

  // A running timer: the interval it was started with, and how many timers had been started before it.
  datatype Running = Running(interval: int, start: nat)

  class KTimeout {
    // id -> timer
    var timers: map<int, int>
    // the timers of this object that are running
    var running: map<int, Running>
    // how many timers have been started so far
    var starts: nat

    ghost predicate Valid()
      reads this
    {
      && running.Keys == timers.Values
      && (forall id :: id in timers ==> timers[id] > 0)
      && (forall i, j :: i in timers && j in timers && timers[i] == timers[j] ==> i == j)
    }

    // What an id's timer is doing.
    ghost function Of(id: int): Running
      requires Valid() && id in timers
      reads this
    {
      assert timers[id] in timers.Values;
      running[timers[id]]
    }

    // All timers run with this interval.
    ghost predicate AllAt(interval: int)
      requires Valid()
      reads this
    {
      forall id :: id in timers ==> Of(id).interval == interval
    }

    lemma NoneAt(interval: int)
      requires Valid() && timers == map[]
      ensures AllAt(interval)
    {
    }

    constructor ()
      ensures Valid() && timers == map[]
    {
      timers, running, starts := map[], map[], 0;
    }

    // The event loop picks any positive number that is not in use.
    method StartTimer(timeout: int) returns (t: int)
      modifies this`running, this`starts
      ensures t > 0 && t !in old(running) && starts == old(starts) + 1
      ensures running == old(running)[t := Running(timeout, old(starts))]
    {
      ghost var b := BoundExists(running.Keys);
      assert b + 1 > 0 && b + 1 !in running;
      t :| t > 0 && t !in running;
      running := running[t := Running(timeout, starts)];
      starts := starts + 1;
    }

    method KillTimer(t: int)
      modifies this`running
      ensures running == old(running) - {t}
    {
      running := running - {t};
    }

    method Clear()
      requires Valid()
      modifies this`timers, this`running
      ensures Valid() && timers == map[] && running == map[]
    {
      var left := timers.Values;
      while left != {}
        invariant running.Keys == left && timers == old(timers)
        decreases left
      {
        ghost var some := Pick(left);
        var t :| t in left;
        KillTimer(t);
        left := left - {t};
      }
      timers := map[];
    }

    method RemoveTimer(id: int)
      requires Valid()
      modifies this`timers, this`running
      ensures Valid() && timers == old(timers) - {id}
      ensures forall i :: i in timers ==> Of(i) == old(Of(i))
    {
      ghost var before := timers;
      var timerId := if id in timers then timers[id] else 0;
      if timerId != 0 {
        KillTimer(timerId);
      }
      timers := timers - {id};
      forall t ensures t in running <==> t in timers.Values {
        if t in timers.Values {
          var i := KeyOf(timers, t);
          assert i in before && before[i] == t;
        }
        if t in running {
          assert t in before.Values;
          var i := KeyOf(before, t);
          assert i in timers;
        }
      }
    }

    // Nothing happens when the id has a timer already.
    method AddTimer(id: int, timeout: int)
      requires Valid()
      modifies this
      ensures Valid() && timers.Keys == old(timers.Keys) + {id} && starts >= old(starts)
      ensures forall i :: i in old(timers) ==> timers[i] == old(timers)[i] && Of(i) == old(Of(i))
      ensures id !in old(timers) ==> Of(id) == Running(timeout, old(starts))
      ensures old(AllAt(timeout)) ==> AllAt(timeout)
    {
      if id in timers {
        return;
      }
      var t := StartTimer(timeout);
      Put(id, t);
    }

    // Enters a timer that has just been started.
    method Put(id: int, t: int)
      requires t > 0 && t !in timers.Values && id !in timers && running.Keys == timers.Values + {t}
      requires forall i :: i in timers ==> timers[i] > 0
      requires forall i, j :: i in timers && j in timers && timers[i] == timers[j] ==> i == j
      modifies this`timers
      ensures Valid() && timers == old(timers)[id := t]
    {
      ghost var before := timers;
      timers := timers[id := t];
      forall v ensures v in running <==> v in timers.Values {
        if v in before.Values {
          var i := KeyOf(before, v);
          assert timers[i] == v;
        }
        assert timers[id] == t;
      }
    }

    // Starts the timer of an id that has one anew; other timers are left alone.
    method ResetTimer(id: int, timeout: int)
      requires Valid()
      modifies this
      ensures Valid() && timers.Keys == old(timers.Keys)
      ensures forall i :: i in timers && i != id ==> timers[i] == old(timers)[i] && Of(i) == old(Of(i))
      ensures id in timers ==> Of(id) == Running(timeout, old(starts)) && starts == old(starts) + 1
      ensures old(AllAt(timeout)) ==> AllAt(timeout)
    {
      var timerId := if id in timers then timers[id] else 0;
      if timerId != 0 {
        RemoveTimer(id);
        var t := StartTimer(timeout);
        Put(id, t);
      }
    }

    // The id that a running timer stands for is announced; there is exactly one.
    method TimerEvent(t: int) returns (id: Option<int>)
      requires Valid()
      ensures id.Some? ==> id.value in timers && timers[id.value] == t
      ensures id.None? <==> t !in running
    {
      var left := timers.Keys;
      while left != {}
        invariant left <= timers.Keys
        invariant forall i :: i in timers && i !in left ==> timers[i] != t
        decreases left
      {
        ghost var some := Pick(left);
        var i :| i in left;
        if timers[i] == t {
          assert t in timers.Values;
          return Some(i);
        }
        left := left - {i};
      }
      id := None;
      if t in running {
        ghost var i := KeyOf(timers, t);
        assert false;
      }
    }
  }
}
