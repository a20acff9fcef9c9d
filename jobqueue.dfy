/**
 * `createQueue(limit)`: a queue that lets at most `limit` jobs run at once
 * and starts the others in the order they were handed in, one each time a
 * running job settles. A job is identified by the number of jobs handed in
 * before it; what the job does and when it settles are not modelled, so
 * settling is a call the environment makes.
 */
module JobQueue {

  /** The number of detail pages fetched at once. */
  const FetchConcurrency: nat := 4

  class Queue {
    /** The most jobs allowed to run at once. */
    const limit: nat
    /** `active`: how many jobs have started and not yet settled. */
    var active: nat
    /** `q`: the jobs handed in and not yet started, oldest first. */
    var q: seq<nat>
    /** The identity the next job handed in receives. */
    var nextId: nat
    /** The jobs started so far, in the order they were started. */
    ghost var started: seq<nat>
    /** The started jobs that have not settled. */
    ghost var running: set<nat>

    /** The bookkeeping every step keeps, busy or not. */
    ghost predicate Core()
      reads this
    {
      && active <= limit
      && (forall k :: 0 <= k < |started| ==> started[k] == k)
      && (forall k :: 0 <= k < |q| ==> q[k] == |started| + k)
      && nextId == |started| + |q|
      && (forall id :: id in running ==> id < |started|)
      && |running| == active
    }

    /**
     * Between calls: no more than `limit` jobs run, jobs start in the order
     * they were handed in, and nothing waits while a slot is free.
     */
    ghost predicate Valid()
      reads this
    {
      Core() && (active < limit ==> q == [])
    }

    constructor (limit: nat)
      ensures Valid()
      ensures this.limit == limit && active == 0 && q == [] && nextId == 0
      ensures started == [] && running == {}
    {
      this.limit := limit;
      active := 0;
      q := [];
      nextId := 0;
      started := [];
      running := {};
    }

    /** `next()`: starts the oldest waiting job when a slot is free, and at most one. */
    method Next()
      requires Core()
      modifies this
      ensures Core()
      ensures if old(active) < limit && old(q) != [] then
                && active == old(active) + 1
                && q == old(q)[1..]
                && started == old(started) + [old(q)[0]]
                && running == old(running) + {old(q)[0]}
              else
                active == old(active) && q == old(q) && started == old(started) && running == old(running)
      ensures nextId == old(nextId)
    {
      if active >= limit {
        return;
      }
      if q == [] {
        return;
      }
      var job := q[0];
      q := q[1..];
      assert job !in running;
      active := active + 1;
      started := started + [job];
      running := running + {job};
    }

    /** Handing a job in: it is queued and `next()` runs. */
    method Submit() returns (id: nat)
      requires Valid()
      modifies this
      ensures Valid()
      ensures id == old(nextId) && nextId == old(nextId) + 1
      ensures if old(active) < limit then
                && active == old(active) + 1 && q == []
                && started == old(started) + [id] && running == old(running) + {id}
              else
                && active == old(active) && q == old(q) + [id]
                && started == old(started) && running == old(running)
    {
      id := nextId;
      q := q + [id];
      nextId := nextId + 1;
      Next();
    }

    /** A running job settles: `active--` and `next()`, which starts the oldest waiting job. */
    method Complete(id: nat)
      requires Valid()
      requires id in running
      modifies this
      ensures Valid()
      ensures nextId == old(nextId)
      ensures if old(q) == [] then
                && active == old(active) - 1 && q == []
                && started == old(started) && running == old(running) - {id}
              else
                && active == old(active) && q == old(q)[1..]
                && started == old(started) + [old(q)[0]]
                && running == old(running) - {id} + {old(q)[0]}
    {
      active := active - 1;
      running := running - {id};
      Next();
    }
  }

  /** `runQueued`: the queue the detail-page fetches go through, `FETCH_CONCURRENCY` (four) at a time. */
  method NewFetchQueue() returns (queue: Queue)
    ensures fresh(queue)
    ensures queue.Valid() && queue.limit == FetchConcurrency
    ensures queue.active == 0 && queue.q == [] && queue.started == []
  {
    queue := new Queue(FetchConcurrency);
  }
}
