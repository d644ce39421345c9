/**
 * A record of what a driver session does to the outside world: the resource
 * handles it takes and gives back, the configuration it sets, the reads and
 * writes it arms on the pipes, the stalls it clears and the reports it hands
 * on.  Opens, lookups, descriptor reads, allocations and closes are not
 * recorded on their own (a close is part of a `Release`).  The
 * session keeps this record as ghost state; the folds below say which handles
 * a record leaves held and whether every release in it is of a handle that was
 * held at that point (and every acquisition of one that was not).
 */
module SessionLog {
  import opened ControllerPacket

  /** The five handles a session owns. */
  datatype Resource = Device | Interface | PipeFromController | PipeToController | ReadBuffer

  const AllResources: set<Resource> := {Device, Interface, PipeFromController, PipeToController, ReadBuffer}

  datatype Event =
    | Acquire(r: Resource)
    | Release(r: Resource)
    | SetConfiguration(value: byte)
    | Write(bytes: seq<byte>, noDataTimeout: nat, completionTimeout: nat)
    | Read(length: nat, noDataTimeout: nat, completionTimeout: nat)
    | ClearStall
    | HandleReport(report: seq<byte>)

  function Apply(held: set<Resource>, e: Event): set<Resource> {
    match e
    case Acquire(r) => held + {r}
    case Release(r) => held - {r}
    case _ => held
  }

  /** An acquisition must not overwrite a held handle (a leak); a release must be of a held handle. */
  predicate Allowed(held: set<Resource>, e: Event) {
    match e
    case Acquire(r) => r !in held
    case Release(r) => r in held
    case _ => true
  }

  /** The handles held after the events of log, starting from held. */
  function HeldAfter(held: set<Resource>, log: seq<Event>): set<Resource>
    decreases |log|
  {
    if log == [] then held else HeldAfter(Apply(held, log[0]), log[1..])
  }

  /** Every event of log is allowed at the point where it happens. */
  predicate Bracketed(held: set<Resource>, log: seq<Event>)
    decreases |log|
  {
    log == [] || (Allowed(held, log[0]) && Bracketed(Apply(held, log[0]), log[1..]))
  }

  lemma {:induction false} HeldAfterAppend(held: set<Resource>, a: seq<Event>, b: seq<Event>)
    ensures HeldAfter(held, a + b) == HeldAfter(HeldAfter(held, a), b)
    decreases |a|
  {
    if a == [] {
      assert a + b == b;
    } else {
      assert (a + b)[1..] == a[1..] + b;
      HeldAfterAppend(Apply(held, a[0]), a[1..], b);
    }
  }

  lemma {:induction false} BracketedAppend(held: set<Resource>, a: seq<Event>, b: seq<Event>)
    ensures Bracketed(held, a + b) <==> Bracketed(held, a) && Bracketed(HeldAfter(held, a), b)
    decreases |a|
  {
    if a == [] {
      assert a + b == b;
    } else {
      assert (a + b)[1..] == a[1..] + b;
      BracketedAppend(Apply(held, a[0]), a[1..], b);
    }
  }

  lemma AppendAssociative(a: seq<Event>, b: seq<Event>, c: seq<Event>)
    ensures a + (b + c) == (a + b) + c
  {
  }

  /** Appending one event: the fold takes one more step, and the event must be allowed. */
  lemma Extend(held: set<Resource>, log: seq<Event>, e: Event)
    ensures HeldAfter(held, log + [e]) == Apply(HeldAfter(held, log), e)
    ensures Bracketed(held, log + [e]) <==> Bracketed(held, log) && Allowed(HeldAfter(held, log), e)
  {
    HeldAfterAppend(held, log, [e]);
    BracketedAppend(held, log, [e]);
    var h := HeldAfter(held, log);
    assert HeldAfter(Apply(h, e), []) == Apply(h, e);
    assert [e][1..] == [];
  }

  /** A handle that is not held at the start and is never acquired is never released and never held. */
  lemma {:induction false} NeverAcquiredNeverReleased(held: set<Resource>, log: seq<Event>, r: Resource)
    requires Bracketed(held, log) && r !in held && Acquire(r) !in log
    ensures Release(r) !in log && r !in HeldAfter(held, log)
    decreases |log|
  {
    if log != [] {
      assert log == [log[0]] + log[1..];
      assert Acquire(r) !in log[1..];
      NeverAcquiredNeverReleased(Apply(held, log[0]), log[1..], r);
    }
  }

  /** A log that neither takes nor gives back a handle. */
  ghost predicate HandleFree(log: seq<Event>) {
    forall e :: e in log ==> !e.Acquire? && !e.Release?
  }

  /** Such a log is always allowed and leaves the held handles as they were. */
  lemma {:induction false} HandleFreeKeeps(held: set<Resource>, log: seq<Event>)
    requires HandleFree(log)
    ensures Bracketed(held, log) && HeldAfter(held, log) == held
    decreases |log|
  {
    if log != [] {
      assert log[0] in log;
      assert forall e :: e in log[1..] ==> e in log;
      HandleFreeKeeps(held, log[1..]);
    }
  }
}
