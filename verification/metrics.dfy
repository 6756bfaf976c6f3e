/** The two Prometheus counters the handlers increment: the total number of
    requests and the false-positive reports, one child counter per domain
    child. */
module Metrics {

  /** The value of the child counter labelled `child`; a child never used
      reads as zero. */
  function Count(counters: map<string, nat>, child: string): nat {
    if child in counters then counters[child] else 0
  }

  /** `counter.labels(child).inc()`: creates the child if needed and adds one
      to it; every other child keeps its value. */
  function Bump(counters: map<string, nat>, child: string): (bumped: map<string, nat>)
    ensures bumped.Keys == counters.Keys + {child}
    ensures Count(bumped, child) == Count(counters, child) + 1
    ensures forall other :: other != child ==> Count(bumped, other) == Count(counters, other)
  {
    counters[child := Count(counters, child) + 1]
  }

  class Registry {
    var requests: nat
    var falsePositives: map<string, nat>

    constructor ()
      ensures requests == 0 && falsePositives == map[]
    {
      requests := 0;
      falsePositives := map[];
    }

    method IncRequests()
      modifies this
      ensures requests == old(requests) + 1
      ensures falsePositives == old(falsePositives)
    {
      requests := requests + 1;
    }

    method IncFalsePositive(child: string)
      modifies this
      ensures falsePositives == Bump(old(falsePositives), child)
      ensures requests == old(requests)
    {
      falsePositives := Bump(falsePositives, child);
    }
  }
}
