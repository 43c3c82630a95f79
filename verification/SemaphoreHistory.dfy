/** Named semaphores seen from outside: a table from names to semaphores, the events that successful calls
    of chapter_53/posix_sem.c amount to, and what every history of such events guarantees. */
module SemaphoreHistory {

  /** A sem_t pointer of a process. */
  datatype Handle = Handle(process: nat, address: int)

  /** `opens` are the handles that refer to the semaphore. */
  datatype Semaphore = Semaphore(value: nat, unlinked: bool, opens: set<Handle>)

  type Table = map<string, Semaphore>

  datatype Event =
    | Opened(name: string, h: Handle, value: nat)   // `value` counts only if the name is new
    | Closed(name: string, h: Handle)
    | Unlinked(name: string)
    | Waited(name: string)
    | Posted(name: string)

  /** The event can happen. A name that is unlinked cannot be opened while its semaphore is there. */
  predicate Legal(t: Table, e: Event) {
    match e
    case Opened(n, h, _) => (n in t ==> !t[n].unlinked) && forall m | m in t :: h !in t[m].opens
    case Closed(n, h) => n in t && h in t[n].opens
    case Unlinked(n) => n in t
    case Waited(n) => n in t && t[n].value > 0 && t[n].opens != {}
    case Posted(n) => n in t && t[n].opens != {}
  }

  function Effect(t: Table, e: Event): Table
    requires Legal(t, e)
  {
    match e
    case Opened(n, h, v) =>
      if n in t then t[n := t[n].(opens := t[n].opens + {h})] else t[n := Semaphore(v, false, {h})]
    case Closed(n, h) =>
      if t[n].unlinked && t[n].opens == {h} then t - {n} else t[n := t[n].(opens := t[n].opens - {h})]
    case Unlinked(n) => if t[n].opens == {} then t - {n} else t[n := t[n].(unlinked := true)]
    case Waited(n) => t[n := t[n].(value := t[n].value - 1)]
    case Posted(n) => t[n := t[n].(value := t[n].value + 1)]
  }

  /** What each event does to the semaphore of its name; it leaves all others alone. */
  lemma EffectIs(t: Table, e: Event)
    requires Legal(t, e)
    ensures match e
            case Opened(n, h, v) =>
              Effect(t, e)
              == t[n := if n in t then Semaphore(t[n].value, t[n].unlinked, t[n].opens + {h})
                        else Semaphore(v, false, {h})]
            case Closed(n, h) =>
              n in t && h in t[n].opens
              && Effect(t, e) == if t[n].unlinked && t[n].opens == {h} then t - {n}
                                 else t[n := Semaphore(t[n].value, t[n].unlinked, t[n].opens - {h})]
            case Unlinked(n) =>
              n in t
              && Effect(t, e) == if t[n].opens == {} then t - {n}
                                 else t[n := Semaphore(t[n].value, true, t[n].opens)]
            case Waited(n) =>
              n in t && t[n].value > 0
              && Effect(t, e) == t[n := Semaphore(t[n].value - 1, t[n].unlinked, t[n].opens)]
            case Posted(n) =>
              n in t && Effect(t, e) == t[n := Semaphore(t[n].value + 1, t[n].unlinked, t[n].opens)]
  {
  }

  predicate IsHistory(es: seq<Event>)
    decreases |es|, 0
  {
    es == [] || (IsHistory(es[..|es| - 1]) && Legal(Replay(es[..|es| - 1]), es[|es| - 1]))
  }

  function Replay(es: seq<Event>): Table
    requires IsHistory(es)
    decreases |es|, 1
  {
    if es == [] then map[] else Effect(Replay(es[..|es| - 1]), es[|es| - 1])
  }

  lemma Extend(es: seq<Event>, e: Event)
    requires IsHistory(es) && Legal(Replay(es), e)
    ensures IsHistory(es + [e]) && Replay(es + [e]) == Effect(Replay(es), e)
  {
    assert (es + [e])[..|es|] == es;
  }

  // ---------------------------------------------------------------- lifecycle, by looking at the events alone

  /** Opened and not closed since. */
  function OpenHandles(es: seq<Event>, n: string): set<Handle>
    decreases |es|
  {
    if es == [] then {}
    else
      var before := OpenHandles(es[..|es| - 1], n);
      match es[|es| - 1]
      case Opened(m, h, _) => if m == n then before + {h} else before
      case Closed(m, h) => if m == n then before - {h} else before
      case _ => before
  }

  /** Of the events that open or unlink the name, the last one opens it. */
  predicate Linked(es: seq<Event>, n: string)
    decreases |es|
  {
    es != []
    && match es[|es| - 1]
       case Opened(m, _, _) => m == n || Linked(es[..|es| - 1], n)
       case Unlinked(m) => m != n && Linked(es[..|es| - 1], n)
       case _ => Linked(es[..|es| - 1], n)
  }

  /** A semaphore is there exactly as long as its name is linked or some handle is open; it is marked
      unlinked exactly if its name is not linked; and its handles are the open ones. */
  lemma {:induction false} Lifecycle(es: seq<Event>, n: string)
    requires IsHistory(es)
    ensures n in Replay(es) <==> Linked(es, n) || OpenHandles(es, n) != {}
    ensures n in Replay(es) ==> Replay(es)[n].unlinked == !Linked(es, n) && Replay(es)[n].opens == OpenHandles(es, n)
    decreases |es|
  {
    if es != [] {
      Lifecycle(es[..|es| - 1], n);
    }
  }

  /** No handle is ever open on two names. */
  lemma {:induction false} OneName(es: seq<Event>, m: string, n: string)
    requires IsHistory(es) && m != n
    ensures OpenHandles(es, m) !! OpenHandles(es, n)
    decreases |es|
  {
    if es != [] {
      var front := es[..|es| - 1];
      OneName(front, m, n);
      Lifecycle(front, m);
      Lifecycle(front, n);
    }
  }

  /** Events that keep the semaphore `n` there. */
  predicate Keeps(es: seq<Event>, from: nat, n: string)
    requires IsHistory(es) && from <= |es|
    decreases |es|
  {
    n in Replay(es) && (|es| == from || Keeps(es[..|es| - 1], from, n))
  }

  function Change(e: Event, n: string): int {
    if e == Posted(n) then 1 else if e == Waited(n) then -1 else 0
  }

  /** Posts minus waits. */
  function Net(es: seq<Event>, n: string): int
    decreases |es|
  {
    if es == [] then 0 else Net(es[..|es| - 1], n) + Change(es[|es| - 1], n)
  }

  lemma ValueChange(t: Table, e: Event, n: string)
    requires Legal(t, e) && n in t && n in Effect(t, e)
    ensures Effect(t, e)[n].value == t[n].value + Change(e, n)
  {
  }

  /** As long as the semaphore is there, its value is what it was, plus the posts, minus the waits; opening,
      closing, unlinking, and whatever is done to other semaphores, leave it alone. */
  lemma {:induction false} ValueConserved(es: seq<Event>, from: nat, n: string)
    requires IsHistory(es) && from <= |es| && Keeps(es, from, n)
    ensures IsHistory(es[..from]) && n in Replay(es[..from])
    ensures Replay(es)[n].value == Replay(es[..from])[n].value + Net(es[from..], n)
    decreases |es|
  {
    hide Legal, Effect, Change;
    if |es| == from {
      assert es[..from] == es;
    } else {
      var front := es[..|es| - 1];
      ValueConserved(front, from, n);
      ValueChange(Replay(front), es[|es| - 1], n);
      assert front[..from] == es[..from] && es[from..][..|es| - from - 1] == front[from..];
    }
  }
}
