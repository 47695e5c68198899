/**
 * The ordering guarantee of `concurrent.futures.Executor.map`: every task
 * is submitted up front, the tasks finish in whatever order the pool runs
 * them, and the results are read back future by future in submission
 * order. Concurrency itself is not modelled; a completion order stands
 * for one run of the pool.
 */
module Executor {
  import opened Seqs

  /**
   * One possible run of a pool given `n` tasks: `n` completions, each
   * naming a submitted task, among which every task appears, so each task
   * finishes exactly once.
   */
  predicate IsCompletionOrder(order: seq<nat>, n: nat) {
    && |order| == n
    && (forall k :: 0 <= k < |order| ==> order[k] < n)
    && (forall i: nat :: i < n ==> i in order)
  }

  /**
   * The futures' result slots after the tasks named by `order` finish, in
   * that order, starting from `slots`; a finished task `i` holds `f(tasks[i])`.
   */
  function Complete<A, B>(f: A -> B, tasks: seq<A>, order: seq<nat>, slots: map<nat, B>): (done: map<nat, B>)
    requires forall k :: 0 <= k < |order| ==> order[k] < |tasks|
    ensures forall i: nat :: i in done <==> i in slots || i in order
    ensures forall i: nat :: i in order ==> i < |tasks| && done[i] == f(tasks[i])
    ensures forall i: nat :: i in slots && i !in order ==> done[i] == slots[i]
    decreases |order|
  {
    if order == [] then slots
    else Complete(f, tasks, order[1..], slots[order[0] := f(tasks[order[0]])])
  }

  /** The results read back from the slots future by future, in submission order. */
  function Gather<B>(slots: map<nat, B>, n: nat): (results: seq<B>)
    requires forall i: nat :: i < n ==> i in slots
    ensures |results| == n
    ensures forall i :: 0 <= i < n ==> results[i] == slots[i]
  {
    if n == 0 then [] else Gather(slots, n - 1) + [slots[n - 1]]
  }

  /** One run of `executor.map(f, tasks)`: the pool finishes tasks in `order`, the caller gathers. */
  function RunMap<A, B>(f: A -> B, tasks: seq<A>, order: seq<nat>): seq<B>
    requires IsCompletionOrder(order, |tasks|)
  {
    Gather(Complete(f, tasks, order, map[]), |tasks|)
  }

  /** Whatever order the tasks finish in, the gathered results are the sequential map. */
  lemma RunMapIsMap<A, B>(f: A -> B, tasks: seq<A>, order: seq<nat>)
    requires IsCompletionOrder(order, |tasks|)
    ensures RunMap(f, tasks, order) == Map(f, tasks)
  {
  }
}
