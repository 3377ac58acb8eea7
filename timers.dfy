/**
  The browser's repeating timers, as far as the program can observe them: a
  table of the intervals that are still live (handle to period), the handle
  held in the program's `interval` variable, and the next handle the browser
  will hand out. Handle 0 is never handed out and stands for the variable's
  initial null, which clearing ignores. When and how often a live timer fires
  is not modelled.
 */
module Timers {

  datatype TimerTable = TimerTable(live: map<nat, int>, interval: nat, nextHandle: nat)

  /** No timer is live and the interval variable is null. */
  const Idle: TimerTable := TimerTable(map[], 0, 1)

  /** Handles are positive and every handle already used lies below nextHandle. */
  predicate WellFormed(t: TimerTable)
  {
    0 < t.nextHandle && t.interval < t.nextHandle &&
    forall h :: h in t.live ==> 0 < h < t.nextHandle
  }

  /** `interval = setInterval(..., period)`: a new live timer whose handle is
      stored in the interval variable; every timer live before stays live. */
  function SetInterval(t: TimerTable, period: int): (u: TimerTable)
    requires WellFormed(t)
    ensures WellFormed(u)
    ensures u.interval != 0 && u.interval !in t.live
    ensures u.live.Keys == t.live.Keys + {u.interval} && u.live[u.interval] == period
    ensures forall h :: h in t.live ==> u.live[h] == t.live[h]
  {
    TimerTable(t.live[t.nextHandle := period], t.nextHandle, t.nextHandle + 1)
  }

  /** `clearInterval(interval)`: only the timer named by the interval variable
      stops; the variable keeps its (now stale) handle. */
  function ClearInterval(t: TimerTable): (u: TimerTable)
    requires WellFormed(t)
    ensures WellFormed(u)
    ensures u.live.Keys == t.live.Keys - {t.interval}
    ensures forall h :: h in u.live ==> u.live[h] == t.live[h]
    ensures u.interval == t.interval && u.nextHandle == t.nextHandle
  {
    t.(live := t.live - {t.interval})
  }

  /** Clearing the interval variable's timer and then setting a new one, when
      no other timer is live, leaves exactly one live timer: the new one. */
  lemma ReArmKeepsOneTimer(t: TimerTable, period: int)
    requires WellFormed(t) && t.live.Keys <= {t.interval}
    ensures var u := SetInterval(ClearInterval(t), period);
            u.live.Keys == {u.interval} && u.live[u.interval] == period
  {
    var c := ClearInterval(t);
    assert c.live.Keys == {};
  }
}
