/** The life of ajax requests: ready state changes, timeouts and aborts in any order, one
    completion for each request, and the global count of the requests under way. */
module AjaxRequests {
  import opened Wrappers

  // `live` says that `xhr` is not null, `done` is requestDone, `hooked` that the handler has not
  // been replaced by a no-op; `completed` counts the calls of complete().
  datatype Request = Request(global: bool, async: bool, live: bool, done: bool, hooked: bool,
                             readyState: nat, completed: nat)

  datatype Notice = AjaxStart | AjaxStop

  // jQuery.active, and the global notices that were triggered
  datatype Tally = Tally(active: int, notices: seq<Notice>)

  // What the handler is called with
  datatype Cause = Plain | TimedOut | Aborted

  // A request and the tally, which is all that a callback of the request can change
  datatype Local = Local(r: Request, t: Tally)

  // ---------- The callbacks ----------

  function Entered(t: Tally): Tally {
    Tally(t.active + 1, if t.active == 0 then t.notices + [AjaxStart] else t.notices)
  }

  function Left(t: Tally): Tally {
    Tally(t.active - 1, if t.active - 1 == 0 then t.notices + [AjaxStop] else t.notices)
  }

  function Complete(l: Local): Local {
    Local(l.r.(completed := l.r.completed + 1), if l.r.global then Left(l.t) else l.t)
  }

  // onreadystatechange. Timing out aborts the transfer, which comes back here as an abort of
  // a request that is done.
  function Handle(l: Local, cause: Cause): Local {
    if !l.r.live || l.r.readyState == 0 || cause.Aborted? then
      var l1 := if l.r.done then l else Complete(l);
      l1.(r := l1.r.(done := true, hooked := if l1.r.live then false else l1.r.hooked))
    else if !l.r.done && (l.r.readyState == 4 || cause.TimedOut?) then
      var l1 := Complete(l.(r := l.r.(done := true, hooked := false)));
      var l2 := if cause.TimedOut? then l1.(r := l1.r.(readyState := 0)) else l1;
      if l2.r.async then l2.(r := l2.r.(live := false)) else l2
    else l
  }

  datatype Event =
    | StateChange(readyState: nat)
    | Timeout
    | Abort(fires: Option<nat>)  // some browsers report a state change while they abort
    | Return                     // send returned, for a request that is not asynchronous
    | SendFails                  // send threw

  function Change(l: Local, readyState: nat): Local {
    var l1 := l.(r := l.r.(readyState := readyState));
    if l1.r.hooked then Handle(l1, Plain) else l1
  }

  function React(l: Local, e: Event): Local {
    match e
    case StateChange(n) => Change(l, n)
    case Timeout => if l.r.async && l.r.live && !l.r.done then Handle(l, TimedOut) else l
    case Abort(fires) =>
      var l1 := if !l.r.live then l else
                  var l2 := if fires.Some? then Change(l, fires.value) else l;
                  l2.(r := l2.r.(readyState := 0));
      Handle(l1, Aborted)
    case Return => if l.r.async then l else Handle(l, Plain)
    case SendFails => Complete(l)
  }

  // ---------- One request ----------

  ghost predicate Sound(r: Request) {
    (!r.live ==> r.done) && r.hooked == !r.done
  }

  // The event settles the request, whatever has happened to it before.
  predicate Terminal(r: Request, e: Event) {
    match e
    case StateChange(n) => n == 0 || n == 4
    case Timeout => r.async
    case Abort(_) => true
    case Return => !r.async && (r.readyState == 0 || r.readyState == 4)
    case SendFails => false
  }

  // The reaction to e: it is done with by a terminal event, and completes when that is news,
  // and each time sending fails; the tally changes only when it completes.
  ghost predicate Accounts(l: Local, e: Event, l': Local) {
    && l'.r.global == l.r.global && l'.r.async == l.r.async
    && l'.r.done == (l.r.done || Terminal(l.r, e))
    && l'.r.completed == l.r.completed + (if e.SendFails? || (l'.r.done && !l.r.done) then 1 else 0)
    && l'.t == if l'.r.global && l'.r.completed > l.r.completed then Left(l.t) else l.t
  }

  lemma ReactAccounts(l: Local, e: Event)
    requires Sound(l.r)
    ensures Sound(React(l, e).r) && Accounts(l, e, React(l, e))
  {
  }

  // ---------- All requests ----------

  datatype World = World(requests: seq<Request>, tally: Tally)

  datatype Act =
    | Start(global: bool, async: bool, accepted: bool)  // `accepted`: beforeSend did not refuse
    | On(i: nat, event: Event)

  predicate Enabled(w: World, a: Act) {
    a.On? ==> a.i < |w.requests|
  }

  function Step(w: World, a: Act): World
    requires Enabled(w, a)
  {
    match a
    case Start(global, async, accepted) =>
      var t := if global then Entered(w.tally) else w.tally;
      if !accepted then World(w.requests, if global then Left(t) else t)
      else World(w.requests + [Request(global, async, true, false, true, 1, 0)], t)
    case On(i, e) =>
      var l := React(Local(w.requests[i], w.tally), e);
      World(w.requests[i := l.r], l.t)
  }

  function UnderWay(rs: seq<Request>): nat {
    if rs == [] then 0
    else (if rs[0].global && rs[0].completed == 0 then 1 else 0) + UnderWay(rs[1..])
  }

  // The completions of global requests beyond the first one of each
  function Surplus(rs: seq<Request>): nat {
    if rs == [] then 0
    else (if rs[0].global && rs[0].completed > 1 then rs[0].completed - 1 else 0) + Surplus(rs[1..])
  }

  // Start and stop notices alternate, and the last one is a start just while the count is positive.
  ghost predicate Alternating(t: Tally) {
    && (forall k | 0 <= k < |t.notices| :: t.notices[k] == if k % 2 == 0 then AjaxStart else AjaxStop)
    && (|t.notices| % 2 == 1 <==> t.active > 0)
  }

  ghost predicate Good(w: World) {
    && (forall i | 0 <= i < |w.requests| :: Sound(w.requests[i]))
    && w.tally.active == UnderWay(w.requests) - Surplus(w.requests) && Alternating(w.tally)
  }

  lemma {:induction false} CountsAppend(rs: seq<Request>, r: Request)
    ensures UnderWay(rs + [r]) == UnderWay(rs) + UnderWay([r])
    ensures Surplus(rs + [r]) == Surplus(rs) + Surplus([r])
  {
    if rs != [] {
      assert (rs + [r])[1..] == rs[1..] + [r];
      CountsAppend(rs[1..], r);
    } else {
      assert rs + [r] == [r];
    }
  }

  lemma {:induction false} CountsUpdate(rs: seq<Request>, i: nat, r: Request)
    requires i < |rs|
    ensures UnderWay(rs[i := r]) == UnderWay(rs) - UnderWay([rs[i]]) + UnderWay([r])
    ensures Surplus(rs[i := r]) == Surplus(rs) - Surplus([rs[i]]) + Surplus([r])
  {
    if i > 0 {
      assert rs[i := r][1..] == rs[1..][i - 1 := r];
      CountsUpdate(rs[1..], i - 1, r);
    } else {
      assert rs[i := r][1..] == rs[1..];
    }
  }

  lemma {:induction false} SurplusCounts(rs: seq<Request>)
    ensures Surplus(rs) == 0 <==> forall i | 0 <= i < |rs| && rs[i].global :: rs[i].completed <= 1
  {
    if rs != [] {
      SurplusCounts(rs[1..]);
      assert forall i | 0 <= i < |rs[1..]| :: rs[1..][i] == rs[i + 1];
    }
  }

  lemma TallyAlternates(t: Tally)
    requires Alternating(t)
    ensures Alternating(Entered(t)) && Alternating(Left(t))
  {
  }

  /** Every step keeps the books: the count is that of the requests under way less the
      completions that were too many. */
  lemma StepKeepsGood(w: World, a: Act)
    requires Good(w) && Enabled(w, a)
    ensures Good(Step(w, a))
  {
    hide React, Alternating, Terminal;
    TallyAlternates(w.tally);
    match a
    case Start(global, async, accepted) =>
      TallyAlternates(Entered(w.tally));
      CountsAppend(w.requests, Request(global, async, true, false, true, 1, 0));
    case On(i, e) =>
      var l := Local(w.requests[i], w.tally);
      ReactAccounts(l, e);
      CountsUpdate(w.requests, i, React(l, e).r);
  }

  predicate AllEnabled(w: World, acts: seq<Act>)
    decreases |acts|
  {
    acts == [] || (Enabled(w, acts[0]) && AllEnabled(Step(w, acts[0]), acts[1..]))
  }

  function Run(w: World, acts: seq<Act>): World
    requires AllEnabled(w, acts)
    decreases |acts|
  {
    if acts == [] then w else Run(Step(w, acts[0]), acts[1..])
  }

  lemma {:induction false} RunKeepsGood(w: World, acts: seq<Act>)
    requires Good(w) && AllEnabled(w, acts)
    ensures Good(Run(w, acts)) && |Run(w, acts).requests| >= |w.requests|
    decreases |acts|
  {
    hide Good, React;
    if acts != [] {
      StepKeepsGood(w, acts[0]);
      RunKeepsGood(Step(w, acts[0]), acts[1..]);
    }
  }

  // How often sending request i fails
  function Fails(acts: seq<Act>, i: nat): nat {
    if acts == [] then 0
    else (if acts[0] == On(i, SendFails) then 1 else 0) + Fails(acts[1..], i)
  }

  // Whether a terminal event reaches request i
  predicate Reached(w: World, acts: seq<Act>, i: nat)
    requires AllEnabled(w, acts)
    decreases |acts|
  {
    acts != [] &&
    ((acts[0].On? && acts[0].i == i && Terminal(w.requests[i], acts[0].event)) ||
     Reached(Step(w, acts[0]), acts[1..], i))
  }

  function Completions(w: World, i: nat): nat {
    if i < |w.requests| then w.requests[i].completed else 0
  }

  predicate IsDone(w: World, i: nat) {
    i < |w.requests| && w.requests[i].done
  }

  lemma StepAccounts(w: World, a: Act, i: nat)
    requires Good(w) && Enabled(w, a)
    ensures var w' := Step(w, a);
            var reached := a.On? && a.i == i && Terminal(w.requests[i], a.event);
            && IsDone(w', i) == (IsDone(w, i) || reached)
            && Completions(w', i) == Completions(w, i) + Fails([a], i) + (if reached && !IsDone(w, i) then 1 else 0)
  {
    hide React;
    assert Fails([a][1..], i) == 0;
    if a.On? {
      ReactAccounts(Local(w.requests[a.i], w.tally), a.event);
    }
  }

  lemma {:induction false} RunAccounts(w: World, acts: seq<Act>, i: nat)
    requires Good(w) && AllEnabled(w, acts)
    ensures Completions(Run(w, acts), i)
         == Completions(w, i) + Fails(acts, i) + (if Reached(w, acts, i) && !IsDone(w, i) then 1 else 0)
    decreases |acts|
  {
    hide Good, Step, Terminal;
    if acts != [] {
      StepKeepsGood(w, acts[0]);
      StepAccounts(w, acts[0], i);
      assert Fails(acts, i) == Fails([acts[0]], i) + Fails(acts[1..], i);
      RunAccounts(Step(w, acts[0]), acts[1..], i);
    }
  }

  const IDLE := World([], Tally(0, []))

  /** Over every interleaving of any number of requests, sends that fail included: a request
      completes once for each failed send, and once if a terminal event reaches it; the global
      count is that of the global requests under way less the completions beyond the first of
      each; and the notices of the first start and the last end alternate. */
  lemma EveryRunIsAccounted(acts: seq<Act>)
    requires AllEnabled(IDLE, acts)
    ensures var w := Run(IDLE, acts);
            && (forall i | 0 <= i < |w.requests| ::
                  w.requests[i].completed == Fails(acts, i) + if Reached(IDLE, acts, i) then 1 else 0)
            && w.tally.active == UnderWay(w.requests) - Surplus(w.requests) && Alternating(w.tally)
  {
    hide Terminal;
    RunKeepsGood(IDLE, acts);
    var w := Run(IDLE, acts);
    forall i | 0 <= i < |w.requests|
      ensures w.requests[i].completed == Fails(acts, i) + if Reached(IDLE, acts, i) then 1 else 0
    {
      RunAccounts(IDLE, acts, i);
    }
  }

  // No request fails to be sent when it is also reached by a terminal event, or fails twice.
  predicate FailsAlone(acts: seq<Act>, i: nat)
    requires AllEnabled(IDLE, acts)
  {
    Fails(acts, i) + (if Reached(IDLE, acts, i) then 1 else 0) <= 1
  }

  /** No request completes twice exactly when each whose send fails does so once and is reached
      by no terminal event, before or after; and the count is right exactly when this holds of the
      global requests. */
  lemma CountedExactlyWhenFailsAlone(acts: seq<Act>)
    requires AllEnabled(IDLE, acts)
    ensures var w := Run(IDLE, acts);
            && ((forall i | 0 <= i < |w.requests| :: w.requests[i].completed <= 1) <==>
                forall i | 0 <= i < |w.requests| :: FailsAlone(acts, i))
            && (w.tally.active == UnderWay(w.requests) <==>
                forall i | 0 <= i < |w.requests| && w.requests[i].global :: FailsAlone(acts, i))
  {
    hide Run, Reached, Fails;
    EveryRunIsAccounted(acts);
    var rs := Run(IDLE, acts).requests;
    SurplusCounts(rs);
    assert forall i | 0 <= i < |rs| :: FailsAlone(acts, i) <==> rs[i].completed <= 1;
  }

  predicate NoFailedSend(acts: seq<Act>) {
    forall k | 0 <= k < |acts| :: !(acts[k].On? && acts[k].event.SendFails?)
  }

  lemma {:induction false} NothingFails(acts: seq<Act>, i: nat)
    requires NoFailedSend(acts)
    ensures Fails(acts, i) == 0
  {
    if acts != [] {
      assert forall k | 0 <= k < |acts[1..]| :: acts[1..][k] == acts[k + 1];
      NothingFails(acts[1..], i);
    }
  }

  /** While no send fails, each request completes at most once, the global count is that of the
      started, unfinished global requests, and the notices alternate. */
  lemma EveryRunIsCounted(acts: seq<Act>)
    requires AllEnabled(IDLE, acts) && NoFailedSend(acts)
    ensures var w := Run(IDLE, acts);
            && (forall i | 0 <= i < |w.requests| :: w.requests[i].completed <= 1)
            && w.tally.active == UnderWay(w.requests) && Alternating(w.tally)
  {
    hide Run, Reached;
    EveryRunIsAccounted(acts);
    CountedExactlyWhenFailsAlone(acts);
    forall i: nat ensures FailsAlone(acts, i) {
      NothingFails(acts, i);
    }
  }

  lemma {:induction false} ReachedInTheMiddle(w: World, before: seq<Act>, i: nat, e: Event, rest: seq<Act>)
    requires AllEnabled(w, before) && i < |Run(w, before).requests| && Terminal(Run(w, before).requests[i], e)
    requires AllEnabled(Step(Run(w, before), On(i, e)), rest)
    ensures var acts := before + [On(i, e)] + rest;
            && AllEnabled(w, acts) && Reached(w, acts, i)
            && Run(w, acts) == Run(Step(Run(w, before), On(i, e)), rest)
    decreases |before|
  {
    hide Step, Terminal;
    var acts := before + [On(i, e)] + rest;
    if before == [] {
      assert acts[0] == On(i, e) && acts[1..] == rest;
    } else {
      assert acts[0] == before[0] && acts[1..] == before[1..] + [On(i, e)] + rest;
      ReachedInTheMiddle(Step(w, before[0]), before[1..], i, e, rest);
    }
  }

  /** Once a terminal event has reached a request whose send did not fail it has completed exactly
      once, and stays so whatever follows. */
  lemma TerminalEventCompletes(before: seq<Act>, i: nat, e: Event, rest: seq<Act>)
    requires AllEnabled(IDLE, before)
    requires i < |Run(IDLE, before).requests| && Terminal(Run(IDLE, before).requests[i], e)
    requires AllEnabled(Step(Run(IDLE, before), On(i, e)), rest)
    requires Fails(before + [On(i, e)] + rest, i) == 0
    ensures var w := Run(Step(Run(IDLE, before), On(i, e)), rest);
            i < |w.requests| && w.requests[i].completed == 1
  {
    hide Step, Terminal, Reached;
    ReachedInTheMiddle(IDLE, before, i, e, rest);
    RunKeepsGood(IDLE, before);
    StepKeepsGood(Run(IDLE, before), On(i, e));
    RunKeepsGood(Step(Run(IDLE, before), On(i, e)), rest);
    RunAccounts(IDLE, before + [On(i, e)] + rest, i);
    assert |Step(Run(IDLE, before), On(i, e)).requests| == |Run(IDLE, before).requests| by {
      StepAddsNone(Run(IDLE, before), i, e);
    }
  }

  lemma StepAddsNone(w: World, i: nat, e: Event)
    requires i < |w.requests|
    ensures |Step(w, On(i, e)).requests| == |w.requests|
  {
  }

  /** A request whose send fails, once, completes once exactly when no terminal event reaches it,
      before or after; otherwise it completes twice. */
  lemma FailedSendCompletesOnceExactly(acts: seq<Act>, i: nat)
    requires AllEnabled(IDLE, acts) && i < |Run(IDLE, acts).requests| && Fails(acts, i) == 1
    ensures var n := Run(IDLE, acts).requests[i].completed;
            n == (if Reached(IDLE, acts, i) then 2 else 1)
  {
    hide Step, Terminal;
    RunAccounts(IDLE, acts, i);
  }

  // ---------- The closures of one request ----------

  class Globals {
    var active: int
    var notices: seq<Notice>

    constructor ()
      ensures active == 0 && notices == []
    {
      active, notices := 0, [];
    }
  }

  class Xhr {
    const jQuery: Globals
    const global: bool
    const async: bool
    var live: bool
    var requestDone: bool
    var hooked: bool
    var readyState: nat
    ghost var completed: nat

    constructor (jQuery: Globals, global: bool, async: bool)
      modifies jQuery
      ensures this.jQuery == jQuery
      ensures Now() == Local(Request(global, async, true, false, true, 1, 0),
                             if global then Entered(old(Tally(jQuery.active, jQuery.notices)))
                             else old(Tally(jQuery.active, jQuery.notices)))
    {
      this.jQuery, this.global, this.async := jQuery, global, async;
      live, requestDone, hooked, readyState, completed := true, false, true, 1, 0;
      new;
      if global {
        if jQuery.active == 0 {
          jQuery.notices := jQuery.notices + [AjaxStart];
        }
        jQuery.active := jQuery.active + 1;
      }
    }

    ghost function Now(): Local
      reads this, jQuery
    {
      Local(Request(global, async, live, requestDone, hooked, readyState, completed),
            Tally(jQuery.active, jQuery.notices))
    }

    method CompleteNow()
      modifies this`completed, jQuery
      ensures Now() == Complete(old(Now()))
    {
      completed := completed + 1;
      if global {
        jQuery.active := jQuery.active - 1;
        if jQuery.active == 0 {
          jQuery.notices := jQuery.notices + [AjaxStop];
        }
      }
    }

    method OnReadyStateChange(cause: Cause)
      modifies this, jQuery
      ensures Now() == Handle(old(Now()), cause)
      decreases !requestDone
    {
      if !live || readyState == 0 || cause.Aborted? {
        if !requestDone {
          CompleteNow();
        }
        requestDone := true;
        if live {
          hooked := false;
        }
      } else if !requestDone && live && (readyState == 4 || cause.TimedOut?) {
        requestDone := true;
        hooked := false;
        CompleteNow();
        if cause.TimedOut? {
          // xhr.abort(), with nothing hooked any more
          readyState := 0;
          OnReadyStateChange(Aborted);
        }
        if async {
          live := false;
        }
      }
    }

    method ChangeState(n: nat)
      modifies this, jQuery
      ensures Now() == Change(old(Now()), n)
    {
      readyState := n;
      if hooked {
        OnReadyStateChange(Plain);
      }
    }

    // The replaced xhr.abort
    method AbortNow(fires: Option<nat>)
      modifies this, jQuery
      ensures Now() == React(old(Now()), Abort(fires))
    {
      if live {
        if fires.Some? {
          ChangeState(fires.value);
        }
        readyState := 0;
      }
      OnReadyStateChange(Aborted);
    }

    method TimerFires()
      modifies this, jQuery
      ensures Now() == React(old(Now()), Timeout)
    {
      if async && live && !requestDone {
        OnReadyStateChange(TimedOut);
      }
    }

    // The end of jQuery.ajax: sending, and for a request that is not asynchronous the call of
    // the handler that some browsers leave out
    method Send(throws: bool)
      modifies this, jQuery
      ensures Now() == React(if throws then React(old(Now()), SendFails) else old(Now()), Return)
    {
      if throws {
        CompleteNow();
      }
      if !async {
        OnReadyStateChange(Plain);
      }
    }
  }
}
