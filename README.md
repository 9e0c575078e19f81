# ResourceCloser model

A Dafny model of `org.apache.cxf.transport.jms.util.ResourceCloser`, the
cleanup aggregator that the CXF JMS transport uses to release the
connections, sessions, consumers, producers and other `Closeable`s acquired
during one unit of work.

The closer keeps an ordered list, `resources`, of closable entries.

- Every `register` overload puts one new entry at index 0 of that list and
  hands the caller's resource back unchanged.
- A generic `Closeable` is stored as itself.
- A JMS `Connection`, `Session`, `MessageConsumer` or `MessageProducer` is
  stored behind a wrapper whose `close()` calls the native close and discards
  a `JMSException`.
- `close()` walks the list front to back, calls each entry's `close()`, and
  discards any `Exception` that call raises. Front insertion makes this
  last-registered, first-released.

The model lives in one module, `ResourceClosing` (`resource_closer.dfy`):

- Resources are opaque identifiers (`ResourceId`).
- Each list element is an `Entry`: `Generic(id)` or `JmsWrapped(kind, id)`. The
  tag stands for the overload chosen at registration time.
- Java's exceptional completion is the datatype `Completion`: `Normal`, or
  `Threw(kind)` with `kind` one of `JmsException`, `IoException` and
  `OtherException`.
- What a resource's own close does is foreign. `Close` therefore takes it as a
  parameter, `native: ResourceId -> Completion`. `EntryClose` gives the
  completion of one entry's `close()` from it.
- The class `ResourceCloser` has the real field `resources: seq<Entry>`. It
  also has a ghost log, `attempted: seq<Attempt>`, of every close attempt made
  so far and how each one completed. The log is the observation the model's
  properties are stated over.
- The specification functions `ClosePass` (one `close()` over a list) and
  `RegisterAll` (a run of registrations) carry the properties as lemmas. The
  methods' `ensures` tie the class's state to those functions.

`close()` never clears `resources`. `Close` therefore promises
`resources == old(resources)`, and a second call attempts every entry again
(`CloseTwiceScenario`). The model has no drained state.

A Dafny method has no exceptional exit. So "nothing escapes `close()`" is
carried by three facts:

- `Close` has no precondition on the native outcomes.
- Its `ensures` holds for every outcome.
- Every attempt, thrown or not, is followed by the next one (`ClosePass`,
  `ClosePassSurvivesAllFailures`).

## Model

| member | source | states |
|---|---|---|
| `ResourceClosing.EntryClose` | rt/transports/jms/src/main/java/org/apache/cxf/transport/jms/util/ResourceCloser.java:38-101 | an entry's `close()` completes normally if and only if the native close completes normally, or the entry is a JMS wrapper and the native close throws `JMSException`; a generic entry completes exactly as its resource's close does; any exception that gets out is the native one |
| `ResourceClosing.ClosePass` | rt/transports/jms/src/main/java/org/apache/cxf/transport/jms/util/ResourceCloser.java:104-112 | one `close()` makes exactly one attempt per entry; the i-th attempt is on the i-th entry of the list, front to back, and records that entry's completion, whatever earlier entries did |
| `ResourceClosing.RegisterAll` | rt/transports/jms/src/main/java/org/apache/cxf/transport/jms/util/ResourceCloser.java:38-101 | after n registrations the list is n entries longer, the old list sits unchanged behind the new entries, and the last registration is at index 0 |
| `ResourceClosing.ClosePassAppend` | rt/transports/jms/src/main/java/org/apache/cxf/transport/jms/util/ResourceCloser.java:105-111 | closing a list made of two parts is closing the first part and then the second: the for-each loop needs no state beyond its position |
| `ResourceClosing.ClosePassAttemptsEveryEntry` | rt/transports/jms/src/main/java/org/apache/cxf/transport/jms/util/ResourceCloser.java:105-111 | the entries attempted by one `close()`, in attempt order, are exactly the list |
| `ResourceClosing.ClosePassIgnoresFailures` | rt/transports/jms/src/main/java/org/apache/cxf/transport/jms/util/ResourceCloser.java:106-110 | which entries are attempted does not depend on which closes throw: a failure never ends the loop early |
| `ResourceClosing.ClosePassSurvivesAllFailures` | rt/transports/jms/src/main/java/org/apache/cxf/transport/jms/util/ResourceCloser.java:104-111 | when every native close throws, whatever the exception, every entry is still attempted; an attempt throws (and `close()` discards the exception) exactly when the entry is not a JMS wrapper absorbing a `JMSException` |
| `ResourceClosing.RegisterAllReverses` | rt/transports/jms/src/main/java/org/apache/cxf/transport/jms/util/ResourceCloser.java:39 | registering by insertion at index 0 leaves the registrations in reverse order in front of the earlier list |
| `ResourceClosing.CloseAttemptsInReverseRegistrationOrder` | rt/transports/jms/src/main/java/org/apache/cxf/transport/jms/util/ResourceCloser.java:39-107 | on a fresh closer, `close()` attempts the registered entries in exactly the reverse of registration order |
| `ResourceClosing.CloseAttemptsEachRegistrationOnce` | rt/transports/jms/src/main/java/org/apache/cxf/transport/jms/util/ResourceCloser.java:39-111 | on a fresh closer, one `close()` attempts every registration exactly as many times as it was registered |
| `ResourceClosing.ThreeRegistrationsCloseInReverse` | rt/transports/jms/src/main/java/org/apache/cxf/transport/jms/util/ResourceCloser.java:39-107 | registering A, B and C and closing attempts C, B, A |
| `ResourceClosing.DuplicateRegistrationAttemptedTwice` | rt/transports/jms/src/main/java/org/apache/cxf/transport/jms/util/ResourceCloser.java:38-41 | registering the same entry twice gives two entries, and one `close()` attempts both |
| `ResourceClosing.ResourceCloser.constructor` | rt/transports/jms/src/main/java/org/apache/cxf/transport/jms/util/ResourceCloser.java:34-36 | a new closer has an empty list and has attempted nothing |
| `ResourceClosing.ResourceCloser.AddFirst` | rt/transports/jms/src/main/java/org/apache/cxf/transport/jms/util/ResourceCloser.java:39 | the new entry goes to index 0 and the old list follows it unchanged |
| `ResourceClosing.ResourceCloser.Register` | rt/transports/jms/src/main/java/org/apache/cxf/transport/jms/util/ResourceCloser.java:38-41 | returns the very resource passed in; the list gains the resource itself at the front, the rest unchanged |
| `ResourceClosing.ResourceCloser.RegisterConnection` | rt/transports/jms/src/main/java/org/apache/cxf/transport/jms/util/ResourceCloser.java:43-56 | returns the connection passed in; the list gains a JMS wrapper for it at the front, the rest unchanged |
| `ResourceClosing.ResourceCloser.RegisterSession` | rt/transports/jms/src/main/java/org/apache/cxf/transport/jms/util/ResourceCloser.java:58-71 | returns the session passed in; the list gains a JMS wrapper for it at the front, the rest unchanged |
| `ResourceClosing.ResourceCloser.RegisterConsumer` | rt/transports/jms/src/main/java/org/apache/cxf/transport/jms/util/ResourceCloser.java:73-86 | returns the consumer passed in; the list gains a JMS wrapper for it at the front, the rest unchanged |
| `ResourceClosing.ResourceCloser.RegisterProducer` | rt/transports/jms/src/main/java/org/apache/cxf/transport/jms/util/ResourceCloser.java:88-101 | returns the producer passed in; the list gains a JMS wrapper for it at the front, the rest unchanged |
| `ResourceClosing.ResourceCloser.Close` | rt/transports/jms/src/main/java/org/apache/cxf/transport/jms/util/ResourceCloser.java:103-112 | completes for every native outcome, leaves the list unchanged, and appends to the log exactly one `ClosePass` over the list: every entry once, front to back, failures included |

`RegisterThenCloseScenario`, `CloseTwiceScenario` and `EmptyCloseScenario`
are client methods. They show what a caller can prove from the contracts
above:

- for any run of registrations through the five `Register…` methods on a
  fresh closer, the list is `RegisterAll([], regs)` and one `close()` attempts
  the registrations in reverse order, so the lemmas about `RegisterAll` hold of
  the class;
- a connection, session and consumer are released consumer first;
- a session whose close throws does not stop the connection's release;
- a second `close()` attempts all three again;
- an empty closer attempts nothing.

`Entries`, `AttemptedIds`, `Reverse`, `ReverseAppend` and
`ReversePreservesMultiset` are helpers over sequences.

## Left out

- The JMS API and `java.io.Closeable` semantics are foreign. A resource's native close is an opaque `Completion` given as a parameter, and the model does not restrict which exception each resource kind can throw.
- Close: the native outcome is a function of the resource identifier, so within one `close()` two entries for the same resource see the same outcome. A different outcome function may be passed to each `close()` call.
- Java overload resolution and the anonymous inner classes are the `Entry` tag, chosen by calling the matching `Register…` method. A value that is both a JMS resource and a `Closeable` is not modelled.
- Java `Error`s and other non-`Exception` throwables are not modelled. The `catch (Exception e)` in `close()` would let them escape. Every modelled exception kind is an `Exception`, so each is discarded.
- The contents of the discarded exceptions are not modelled. Neither the wrapper nor `close()` looks at them.
- Re-entrancy is not modelled, because native closes are opaque and cannot call back into the closer. An entry's close that registers into the same closer changes the `LinkedList` during the for-each loop. The iterator's next `next()` then throws `ConcurrentModificationException`. That call is outside the `try`, so the exception escapes `close()`. An entry's close that calls `close()` on the same closer only reads the list: it runs a nested pass, and a closer registered in itself recurses until `StackOverflowError`.
- A closer registered inside another closer (it is itself a `Closeable`) is treated like any other generic resource, with an opaque outcome.
- Callers' try-with-resources usage is not modelled, since no caller is part of this model.
- The model has no drained or terminal state, because `close()` does not implement one.
