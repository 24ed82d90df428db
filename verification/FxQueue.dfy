/** The effects queue of one element: functions wait in it behind a sentinel that stands for
    the one that is running. */
module FxQueue {
  datatype Item = InProgress | Fn(id: nat)

  // `added` and `started` record what has been queued and called so far, `unfinished` how
  // many of the called functions have not signalled yet.
  datatype Fx = Fx(queue: seq<Item>, added: seq<nat>, started: seq<nat>, unfinished: nat)

  // What can happen to the queue. A stray signal comes from a function that has signalled
  // before, or from outside; replacing is queue(type, array) with an array of functions, which
  // drops those that wait.
  datatype Event = Enqueue(id: nat) | Signal | Stray | Replace(ids: seq<nat>)

  function Fns(ids: seq<nat>): seq<Item> {
    seq(|ids|, i requires 0 <= i < |ids| => Fn(ids[i]))
  }

  // jQuery.dequeue
  function Dequeue(s: Fx): Fx {
    var q := if s.queue != [] && s.queue[0].InProgress? then s.queue[1..] else s.queue;
    if q == [] || !q[0].Fn? then s.(queue := if q == [] then [] else q[1..])
    else s.(queue := [InProgress] + q[1..], started := s.started + [q[0].id], unfinished := s.unfinished + 1)
  }

  // jQuery.fn.queue: starts the queue unless the sentinel shows that it runs
  function AutoStart(s: Fx): Fx {
    if s.queue != [] && s.queue[0].InProgress? then s else Dequeue(s)
  }

  function Step(s: Fx, e: Event): Fx
    requires e.Signal? ==> s.unfinished > 0
  {
    match e
    case Enqueue(id) => AutoStart(s.(queue := s.queue + [Fn(id)], added := s.added + [id]))
    case Signal => Dequeue(s.(unfinished := s.unfinished - 1))
    case Stray => Dequeue(s)
    case Replace(ids) => AutoStart(s.(queue := Fns(ids), added := s.started + ids))
  }

  const EMPTY := Fx([], [], [], 0)

  // The functions not called yet, in order; the sentinel is at the head exactly while one runs.
  ghost predicate Good(s: Fx) {
    && s.unfinished <= 1 && s.started <= s.added
    && s.queue == (if s.unfinished == 1 then [InProgress] else []) + Fns(s.added[|s.started|..])
    && (s.unfinished == 0 ==> s.started == s.added)
  }

  // The events that a good queue survives
  predicate Harmless(s: Fx, e: Event) {
    (e.Stray? || e.Replace?) ==> s.unfinished == 0
  }

  lemma FnsStart(ids: seq<nat>)
    requires ids != []
    ensures Fns(ids) == [Fn(ids[0])] + Fns(ids[1..])
  {
  }

  lemma FnsAppend(ids: seq<nat>, id: nat)
    ensures Fns(ids + [id]) == Fns(ids) + [Fn(id)]
  {
  }

  // With nobody running, the next waiting function is called.
  lemma DequeueStartsNext(s: Fx)
    requires s.unfinished == 0 && s.started <= s.added
    requires s.queue == Fns(s.added[|s.started|..]) || s.queue == [InProgress] + Fns(s.added[|s.started|..])
    ensures Good(Dequeue(s)) && Dequeue(s).added == s.added
    ensures |s.started| < |s.added| ==> Dequeue(s).started == s.added[..|s.started| + 1]
    ensures |s.started| == |s.added| ==> Dequeue(s).started == s.started
  {
    var n := |s.started|;
    var wait := s.added[n..];
    if wait != [] {
      FnsStart(wait);
      assert wait[1..] == s.added[n + 1..];
      assert ([InProgress] + Fns(wait))[1..] == Fns(wait);
      assert s.added[..n + 1] == s.started + [wait[0]];
    } else {
      assert s.started == s.added;
      assert ([InProgress] + Fns(wait))[1..] == [];
    }
  }

  lemma StepKeepsGood(s: Fx, e: Event)
    requires Good(s) && Harmless(s, e) && (e.Signal? ==> s.unfinished > 0)
    ensures Good(Step(s, e))
  {
    match e {
      case Enqueue(id) =>
        var t := s.(queue := s.queue + [Fn(id)], added := s.added + [id]);
        assert t.added[|s.started|..] == s.added[|s.started|..] + [id];
        FnsAppend(s.added[|s.started|..], id);
        if s.unfinished == 1 {
          assert t.queue == [InProgress] + Fns(t.added[|s.started|..]);
        } else {
          DequeueStartsNext(t);
        }
      case Signal => DequeueStartsNext(s.(unfinished := 0));
      case Stray => DequeueStartsNext(s);
      case Replace(ids) =>
        var t := s.(queue := Fns(ids), added := s.started + ids);
        assert t.added[|t.started|..] == ids;
        DequeueStartsNext(t);
    }
  }

  predicate Allowed(s: Fx, es: seq<Event>)
    decreases |es|
  {
    es == [] ||
    ((es[0].Signal? ==> s.unfinished > 0) && Harmless(s, es[0]) && Allowed(Step(s, es[0]), es[1..]))
  }

  function Run(s: Fx, es: seq<Event>): Fx
    requires Allowed(s, es)
    decreases |es|
  {
    if es == [] then s else Run(Step(s, es[0]), es[1..])
  }

  lemma {:induction false} RunIsGood(s: Fx, es: seq<Event>)
    requires Good(s) && Allowed(s, es)
    ensures Good(Run(s, es))
    decreases |es|
  {
    hide Good, Step, Harmless;
    if es != [] {
      assert Harmless(s, es[0]);
      StepKeepsGood(s, es[0]);
      RunIsGood(Step(s, es[0]), es[1..]);
    }
  }

  /** Over every run in which each function signals once while it runs, functions are called in
      the order in which they were queued, each once, and never two unfinished together; the
      sentinel is at the head exactly while one is unfinished; and when none is, all have been
      called. */
  lemma QueueRunsInOrder(es: seq<Event>)
    requires Allowed(EMPTY, es)
    ensures var s := Run(EMPTY, es);
            && s.started <= s.added && s.unfinished <= 1
            && (s.queue != [] && s.queue[0].InProgress? <==> s.unfinished == 1)
            && (s.unfinished == 0 ==> s.started == s.added)
  {
    RunIsGood(EMPTY, es);
    var s := Run(EMPTY, es);
    if s.unfinished == 0 {
      assert s.added[|s.started|..] == [];
    }
  }

  /** A stray signal, or a replaced queue, empty or not, does harm exactly while a function runs:
      then a second one is running with it at once or as soon as the next is queued. */
  lemma HarmMeansTwoRunning(s: Fx, e: Event, id: nat)
    requires Good(s) && (e.Stray? || e.Replace?)
    ensures s.unfinished == 0 ==> Good(Step(s, e)) && Step(Step(s, e), Enqueue(id)).unfinished == 1
    ensures s.unfinished == 1 ==>
              Step(s, e).unfinished == 2 || Step(Step(s, e), Enqueue(id)).unfinished == 2
  {
    if s.unfinished == 0 {
      StepKeepsGood(s, e);
      StepKeepsGood(Step(s, e), Enqueue(id));
      EnqueueRuns(Step(s, e), id);
    } else {
      var wait := s.added[|s.started|..];
      assert s.queue[1..] == Fns(wait);
      match e {
        case Stray => if wait != [] { FnsStart(wait); } else { EnqueueOnNothing(Step(s, e), id); }
        case Replace(ids) => if ids != [] { FnsStart(ids); } else { EnqueueOnNothing(Step(s, e), id); }
      }
    }
  }

  lemma EnqueueRuns(s: Fx, id: nat)
    requires Good(s)
    ensures Step(s, Enqueue(id)).unfinished == 1
  {
    if s.unfinished == 0 {
      assert s.added[|s.started|..] == [];
      EnqueueOnNothing(s, id);
    }
  }

  lemma EnqueueOnNothing(s: Fx, id: nat)
    requires s.queue == []
    ensures Step(s, Enqueue(id)).unfinished == s.unfinished + 1
  {
    assert ([] + [Fn(id)])[0] == Fn(id);
  }

  class Queue {
    var queue: seq<Item>
    ghost var added: seq<nat>
    ghost var started: seq<nat>
    ghost var unfinished: nat

    constructor ()
      ensures Now() == EMPTY
    {
      queue, added, started, unfinished := [], [], [], 0;
    }

    ghost function Now(): Fx
      reads this
    {
      Fx(queue, added, started, unfinished)
    }

    method Shift() returns (head: seq<Item>)
      modifies this`queue
      ensures old(queue) == head + queue && |head| <= 1 && (old(queue) != [] ==> |head| == 1)
    {
      if queue == [] {
        return [];
      }
      head := queue[..1];
      queue := queue[1..];
    }

    method DequeueNext()
      modifies this
      ensures Now() == Dequeue(old(Now()))
    {
      var fn := Shift();
      // The sentinel goes, whether or not a function follows
      if fn != [] && fn[0].InProgress? {
        fn := Shift();
      }
      if fn != [] && fn[0].Fn? {
        queue := [InProgress] + queue;
        // fn.call: whatever it does to the queue is an event of its own
        started := started + [fn[0].id];
        unfinished := unfinished + 1;
      }
    }

    method Start()
      modifies this
      ensures Now() == AutoStart(old(Now()))
    {
      if !(queue != [] && queue[0].InProgress?) {
        DequeueNext();
      }
    }

    method Add(id: nat)
      modifies this
      ensures Now() == Step(old(Now()), Enqueue(id))
    {
      queue := queue + [Fn(id)];
      added := added + [id];
      Start();
    }

    // The callback handed to the function that is running
    method Next()
      requires unfinished > 0
      modifies this
      ensures Now() == Step(old(Now()), Signal)
    {
      unfinished := unfinished - 1;
      DequeueNext();
    }

    method ReplaceBy(ids: seq<nat>)
      modifies this
      ensures Now() == Step(old(Now()), Replace(ids))
    {
      queue := Fns(ids);
      added := started + ids;
      Start();
    }
  }
}
