/**
 * A model of CXF's JMS `ResourceCloser`: a cleanup aggregator that keeps an
 * ordered list of closable entries, puts every newly registered entry at the
 * front of that list, and on `close()` closes the entries front to back,
 * discarding any exception an individual close raises.
 *
 * Resources are opaque identifiers. What a resource's own (foreign) close
 * operation does is not modelled: it is given to `Close` as a parameter that
 * says, per resource, whether the native close completes normally or which
 * kind of exception it throws.
 */
module ResourceClosing {

  /** An opaque handle to an externally owned resource. */
  type ResourceId = nat

  /** The `Exception` subclasses a close can raise. */
  datatype ExceptionKind = JmsException | IoException | OtherException

  /** How a Java call completes: normally, or by throwing an exception. */
  datatype Completion = Normal | Threw(exception: ExceptionKind)

  /** The four JMS resource kinds that `register` wraps. */
  datatype JmsKind = Connection | Session | Consumer | Producer

  /**
   * An element of the `resources` list: a `Closeable` registered as itself,
   * or the anonymous `Closeable` that wraps a JMS resource.
   */
  datatype Entry = Generic(id: ResourceId) | JmsWrapped(kind: JmsKind, id: ResourceId)

  /** One close attempt: the entry whose `close()` was called, and how that call completed. */
  datatype Attempt = Attempt(entry: Entry, completion: Completion)

  /**
   * The completion of calling `close()` on an entry whose resource's native
   * close completes as `native` does. A generic entry is the resource
   * itself, so it completes as the native close does. A JMS wrapper calls
   * the native close inside `try { ... } catch (JMSException e) { }`, so a
   * `JMSException` is absorbed and any other exception passes through.
   */
  function EntryClose(e: Entry, native: Completion): (c: Completion)
    ensures c == Normal <==> native == Normal || (e.JmsWrapped? && native == Threw(JmsException))
    ensures c.Threw? ==> c == native
    ensures e.Generic? ==> c == native
  {
    match e
    case Generic(_) => native
    case JmsWrapped(_, _) =>
      if native == Threw(JmsException) then Normal else native
  }

  /**
   * The attempts one `close()` makes over `entries`: one per entry, front to
   * back, each recording how that entry's close completed. No completion,
   * normal or thrown, stops the pass.
   */
  function ClosePass(entries: seq<Entry>, native: ResourceId -> Completion): (pass: seq<Attempt>)
    ensures |pass| == |entries|
    ensures forall i :: 0 <= i < |entries| ==>
      pass[i] == Attempt(entries[i], EntryClose(entries[i], native(entries[i].id)))
  {
    if entries == [] then []
    else [Attempt(entries[0], EntryClose(entries[0], native(entries[0].id)))]
         + ClosePass(entries[1..], native)
  }

  /** The entries named by a sequence of attempts, in attempt order. */
  function Entries(attempts: seq<Attempt>): (entries: seq<Entry>)
  {
    seq(|attempts|, i requires 0 <= i < |attempts| => attempts[i].entry)
  }

  /** The resource identifiers named by a sequence of attempts, in attempt order. */
  function AttemptedIds(attempts: seq<Attempt>): (ids: seq<ResourceId>)
  {
    seq(|attempts|, i requires 0 <= i < |attempts| => attempts[i].entry.id)
  }

  /** `s` in the opposite order. */
  function Reverse<T>(s: seq<T>): (r: seq<T>)
    ensures |r| == |s|
    ensures forall i :: 0 <= i < |s| ==> r[i] == s[|s| - 1 - i]
  {
    if s == [] then [] else Reverse(s[1..]) + [s[0]]
  }

  /**
   * The `resources` list after registering `regs`, in that order, on a
   * closer whose list is `resources`: each registration puts its entry at
   * index 0, so the list grows by one per registration and what was there
   * before stays, in order, behind the new entries.
   */
  function RegisterAll(resources: seq<Entry>, regs: seq<Entry>): (r: seq<Entry>)
    ensures |r| == |resources| + |regs|
    ensures r[|regs|..] == resources
    ensures regs != [] ==> r[0] == regs[|regs| - 1]
    decreases regs
  {
    if regs == [] then resources
    else RegisterAll([regs[0]] + resources, regs[1..])
  }

  /** A pass over two lists joined is the pass over the first followed by the pass over the second. */
  lemma ClosePassAppend(s: seq<Entry>, t: seq<Entry>, native: ResourceId -> Completion)
    ensures ClosePass(s + t, native) == ClosePass(s, native) + ClosePass(t, native)
  {
  }

  /** A pass attempts exactly the entries of the list, in list order. */
  lemma ClosePassAttemptsEveryEntry(entries: seq<Entry>, native: ResourceId -> Completion)
    ensures Entries(ClosePass(entries, native)) == entries
  {
  }

  /** Which entries a pass attempts does not depend on how their closes complete. */
  lemma ClosePassIgnoresFailures(entries: seq<Entry>, native1: ResourceId -> Completion,
                                 native2: ResourceId -> Completion)
    ensures Entries(ClosePass(entries, native1)) == Entries(ClosePass(entries, native2))
  {
    ClosePassAttemptsEveryEntry(entries, native1);
    ClosePassAttemptsEveryEntry(entries, native2);
  }

  /**
   * Even when every native close throws, whatever the exception, the pass
   * attempts every entry. Each attempt throws, and records the exception
   * that the pass then discards, unless the entry is a JMS wrapper and the
   * exception a `JMSException`, which the wrapper absorbs.
   */
  lemma ClosePassSurvivesAllFailures(entries: seq<Entry>, native: ResourceId -> Completion)
    requires forall id :: native(id).Threw?
    ensures Entries(ClosePass(entries, native)) == entries
    ensures forall i :: 0 <= i < |entries| ==>
      (ClosePass(entries, native)[i].completion.Threw?
       <==> !(entries[i].JmsWrapped? && native(entries[i].id) == Threw(JmsException)))
  {
    ClosePassAttemptsEveryEntry(entries, native);
  }

  /** Registering is prepending: the list is the registrations reversed, in front of what was there. */
  lemma {:induction false} RegisterAllReverses(resources: seq<Entry>, regs: seq<Entry>)
    ensures RegisterAll(resources, regs) == Reverse(regs) + resources
    decreases regs
  {
    if regs != [] {
      RegisterAllReverses([regs[0]] + resources, regs[1..]);
      assert Reverse(regs) == Reverse(regs[1..]) + [regs[0]];
    }
  }

  /** Appending an element and reversing puts that element first. */
  lemma ReverseAppend<T>(s: seq<T>, x: T)
    ensures Reverse(s + [x]) == [x] + Reverse(s)
  {
  }

  /** Reversing keeps every element with its multiplicity. */
  lemma {:induction false} ReversePreservesMultiset<T>(s: seq<T>)
    ensures multiset(Reverse(s)) == multiset(s)
  {
    if s != [] {
      ReversePreservesMultiset(s[1..]);
      assert s == [s[0]] + s[1..];
    }
  }

  /** On a fresh closer, `close()` attempts the registrations last-registered first. */
  lemma CloseAttemptsInReverseRegistrationOrder(regs: seq<Entry>, native: ResourceId -> Completion)
    ensures Entries(ClosePass(RegisterAll([], regs), native)) == Reverse(regs)
  {
    RegisterAllReverses([], regs);
    assert Reverse(regs) + [] == Reverse(regs);
    ClosePassAttemptsEveryEntry(RegisterAll([], regs), native);
  }

  /**
   * On a fresh closer, one `close()` attempts each registration exactly
   * once: an entry registered n times is attempted n times.
   */
  lemma CloseAttemptsEachRegistrationOnce(regs: seq<Entry>, native: ResourceId -> Completion)
    ensures multiset(Entries(ClosePass(RegisterAll([], regs), native))) == multiset(regs)
  {
    CloseAttemptsInReverseRegistrationOrder(regs, native);
    ReversePreservesMultiset(regs);
  }

  /** Registering A, B and C, in that order, and closing attempts C, B and A, in that order. */
  lemma ThreeRegistrationsCloseInReverse(a: ResourceId, b: ResourceId, c: ResourceId,
                                         native: ResourceId -> Completion)
    ensures AttemptedIds(ClosePass(RegisterAll([], [Generic(a), Generic(b), Generic(c)]), native)) == [c, b, a]
  {
    CloseAttemptsInReverseRegistrationOrder([Generic(a), Generic(b), Generic(c)], native);
  }

  /** Registering the same handle twice gives two entries, and both are attempted. */
  lemma DuplicateRegistrationAttemptedTwice(e: Entry, native: ResourceId -> Completion)
    ensures Entries(ClosePass(RegisterAll([], [e, e]), native)) == [e, e]
  {
    CloseAttemptsInReverseRegistrationOrder([e, e], native);
  }

  /**
   * The cleanup aggregator. `resources` is the list the source keeps;
   * `attempted` is a ghost log of every close attempt made so far, in
   * order, with how each attempt completed.
   */
  class ResourceCloser {
    var resources: seq<Entry>
    ghost var attempted: seq<Attempt>

    /** A new closer holds no entries. */
    constructor ()
      ensures resources == [] && attempted == []
    {
      resources := [];
      attempted := [];
    }

    /** Registers the entry `e` at the front of the list. */
    method AddFirst(e: Entry)
      modifies this`resources
      ensures resources == [e] + old(resources)
    {
      resources := [e] + resources;
    }

    /** Registers a generic `Closeable` as itself and hands it back. */
    method Register(resource: ResourceId) returns (r: ResourceId)
      modifies this`resources
      ensures r == resource
      ensures resources == [Generic(resource)] + old(resources)
    {
      AddFirst(Generic(resource));
      r := resource;
    }

    /** Registers a JMS connection behind a wrapper that absorbs `JMSException`, and hands it back. */
    method RegisterConnection(connection: ResourceId) returns (r: ResourceId)
      modifies this`resources
      ensures r == connection
      ensures resources == [JmsWrapped(Connection, connection)] + old(resources)
    {
      AddFirst(JmsWrapped(Connection, connection));
      r := connection;
    }

    /** Registers a JMS session behind a wrapper that absorbs `JMSException`, and hands it back. */
    method RegisterSession(session: ResourceId) returns (r: ResourceId)
      modifies this`resources
      ensures r == session
      ensures resources == [JmsWrapped(Session, session)] + old(resources)
    {
      AddFirst(JmsWrapped(Session, session));
      r := session;
    }

    /** Registers a JMS message consumer behind a wrapper that absorbs `JMSException`, and hands it back. */
    method RegisterConsumer(consumer: ResourceId) returns (r: ResourceId)
      modifies this`resources
      ensures r == consumer
      ensures resources == [JmsWrapped(Consumer, consumer)] + old(resources)
    {
      AddFirst(JmsWrapped(Consumer, consumer));
      r := consumer;
    }

    /** Registers a JMS message producer behind a wrapper that absorbs `JMSException`, and hands it back. */
    method RegisterProducer(producer: ResourceId) returns (r: ResourceId)
      modifies this`resources
      ensures r == producer
      ensures resources == [JmsWrapped(Producer, producer)] + old(resources)
    {
      AddFirst(JmsWrapped(Producer, producer));
      r := producer;
    }

    /**
     * Closes every entry, front to back. Whatever an entry's close throws is
     * discarded and the loop goes on, so the method completes for every
     * outcome of the native closes. The list itself is left as it is: a
     * second call attempts every entry again.
     */
    method Close(native: ResourceId -> Completion)
      modifies this`attempted
      ensures resources == old(resources)
      ensures attempted == old(attempted) + ClosePass(resources, native)
    {
      var i := 0;
      while i < |resources|
        invariant 0 <= i <= |resources|
        invariant attempted == old(attempted) + ClosePass(resources[..i], native)
      {
        var entry := resources[i];
        // The completion is recorded and then dropped: `catch (Exception e) { }`.
        var completion := EntryClose(entry, native(entry.id));
        attempted := attempted + [Attempt(entry, completion)];
        assert resources[..i + 1] == resources[..i] + [entry];
        ClosePassAppend(resources[..i], [entry], native);
        i := i + 1;
      }
      assert resources[..i] == resources;
    }
  }

  /**
   * A caller's view: a connection, a session inside it and a consumer
   * inside that are released consumer first, the session's failure does not
   * stop the connection's release, and a second `close()` attempts all three
   * again.
   */
  method CloseTwiceScenario(native: ResourceId -> Completion)
    requires native(2) == Threw(OtherException)
  {
    var closer := new ResourceCloser();
    var connection := closer.RegisterConnection(1);
    var session := closer.RegisterSession(2);
    var consumer := closer.RegisterConsumer(3);
    assert connection == 1 && session == 2 && consumer == 3;

    closer.Close(native);
    assert AttemptedIds(closer.attempted) == [3, 2, 1];
    assert closer.attempted[1].completion == Threw(OtherException);

    closer.Close(native);
    assert AttemptedIds(closer.attempted) == [3, 2, 1, 3, 2, 1];
  }

  /** A caller's view: closing a closer with nothing registered attempts nothing. */
  method EmptyCloseScenario(native: ResourceId -> Completion)
  {
    var closer := new ResourceCloser();
    closer.Close(native);
    assert closer.attempted == [];
  }

  /**
   * A caller's view of any run of registrations: each entry is registered
   * through the overload its tag names, on a fresh closer. The list is then
   * `RegisterAll([], regs)`, and one `close()` attempts every registration,
   * last-registered first.
   */
  method RegisterThenCloseScenario(regs: seq<Entry>, native: ResourceId -> Completion)
  {
    var closer := new ResourceCloser();
    var i := 0;
    while i < |regs|
      invariant 0 <= i <= |regs|
      invariant closer.resources == Reverse(regs[..i])
      invariant closer.attempted == []
    {
      var handle;
      match regs[i] {
        case Generic(id) => handle := closer.Register(id);
        case JmsWrapped(Connection, id) => handle := closer.RegisterConnection(id);
        case JmsWrapped(Session, id) => handle := closer.RegisterSession(id);
        case JmsWrapped(Consumer, id) => handle := closer.RegisterConsumer(id);
        case JmsWrapped(Producer, id) => handle := closer.RegisterProducer(id);
      }
      assert handle == regs[i].id;
      assert regs[..i + 1] == regs[..i] + [regs[i]];
      ReverseAppend(regs[..i], regs[i]);
      i := i + 1;
    }
    assert regs[..i] == regs;
    RegisterAllReverses([], regs);
    assert closer.resources == RegisterAll([], regs);

    closer.Close(native);
    CloseAttemptsInReverseRegistrationOrder(regs, native);
    assert Entries(closer.attempted) == Reverse(regs);
  }
}
