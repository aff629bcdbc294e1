# Publisher/subscriber broadcaster

This project models `PublisherImpl`, the one implementation of the `IPublisher`
interface in the jMock getting-started example. A publisher holds an ordered,
growable list of subscribers. `add(subscriber)` appends to that list and never
de-duplicates. `publish(message)` walks the list in registration order and calls
`receive(message)` on each entry, passing the message on unchanged.

In the model (module `Publishing`, file `publisher.dfy`):

- A subscriber is an identity, `SubscriberRef`. Adding the same Java object twice
  means adding the same `SubscriberRef` twice.
- Each call of `ISubscriber.receive` is recorded as a `Delivery(to, message)`.
  These records are appended to the publisher's `log` field in call order. The
  log is how the model observes the callback.
- `Publisher` is a class with the fields `subscribers: seq<SubscriberRef>` (the
  `ArrayList`) and `log`. `Add` appends to `subscribers`. `Publish` is a
  `while` loop over `subscribers`, proved against the specification function
  `Broadcast`.
- `PublishAll` specifies a series of publishes made one after another. The lemmas
  prove ordering, exactly-once delivery per registration, delivery of the
  unaltered message, the effect of duplicate registration, and what repeated
  publishing produces.

Module `PublisherScenarios` (file `scenarios.dfy`) restates the scenarios of
`PublisherTest` as client methods. Each builds a fresh `Publisher`, drives it,
and returns its log. The log's exact contents are stated in the postcondition.

## Model

| member | source | states |
|---|---|---|
| Publishing.Publisher.constructor | src/main/java/ch/panter/jmock/gettingstarted/PublisherImpl.java:23-26 | a new publisher has an empty subscriber list and has delivered nothing |
| Publishing.Publisher.Add | src/main/java/ch/panter/jmock/gettingstarted/PublisherImpl.java:31-33 | the new subscriber list is the old one with `s` appended at the end, with no duplicate check; no delivery happens |
| Publishing.Publisher.Publish | src/main/java/ch/panter/jmock/gettingstarted/PublisherImpl.java:38-42 | the log grows by exactly `Broadcast(subscribers, m)`; the subscriber list is left unchanged (only the log is in the frame) |
| Publishing.PublishEach | src/test/java/ch/panter/jmock/gettingstarted/PublisherTest.java:163-165 | publishing each message of a list in turn appends `PublishAll(subscribers, msgs)` to the log |
| Publishing.Broadcast | src/main/java/ch/panter/jmock/gettingstarted/PublisherImpl.java:39-41 | one publish makes exactly as many deliveries as there are registrations |
| Publishing.BroadcastAt | src/main/java/ch/panter/jmock/gettingstarted/PublisherImpl.java:39-41 | the i-th delivery of a publish goes to the i-th registered subscriber and carries the published message |
| Publishing.BroadcastCharacterized | src/main/java/ch/panter/jmock/gettingstarted/PublisherImpl.java:38-42 | a log is the broadcast of `m` if and only if its recipients are the subscriber list in order and every entry carries `m` unaltered |
| Publishing.BroadcastCount | src/main/java/ch/panter/jmock/gettingstarted/PublisherImpl.java:38-42 | a subscriber registered k times receives the published message exactly k times and no other message |
| Publishing.BroadcastAppend | src/main/java/ch/panter/jmock/gettingstarted/PublisherImpl.java:31-42 | publishing to `a` followed by `b` delivers to all of `a` first, then to all of `b` |
| Publishing.DuplicateReceivesTwice | src/main/java/ch/panter/jmock/gettingstarted/PublisherImpl.java:25-32 | a subscriber added twice receives each published message twice |
| Publishing.PublishAllAppend | src/test/java/ch/panter/jmock/gettingstarted/PublisherTest.java:163-165 | the log of two series of publishes is the log of the first followed by the log of the second |
| Publishing.PublishAllLength | src/test/java/ch/panter/jmock/gettingstarted/PublisherTest.java:209-211 | k publishes to n registrations make exactly k * n deliveries |
| Publishing.PublishAllAt | src/test/java/ch/panter/jmock/gettingstarted/PublisherTest.java:134-166 | in a series of publishes, delivery number `k * n + i` is message `k` to subscriber `i`, so messages arrive in call order and within a message in registration order |
| Publishing.SingleSubscriberSeesAll | src/test/java/ch/panter/jmock/gettingstarted/PublisherTest.java:134-166 | a single subscriber receives exactly the published messages, in call order |
| Publishing.RepeatedPublish | src/test/java/ch/panter/jmock/gettingstarted/PublisherTest.java:187-212 | n publishes of `m` to one subscriber give exactly n deliveries of `m` to it |
| PublisherScenarios.OneSubscriberReceivesAMessage | src/test/java/ch/panter/jmock/gettingstarted/PublisherTest.java:105-124 | with one subscriber, publishing "message" gives the single receipt `receive("message")` |
| PublisherScenarios.OneSubscriberReceivesASequence | src/test/java/ch/panter/jmock/gettingstarted/PublisherTest.java:133-166 | publishing "message1", "message2" and "message3" gives those three receipts in that order |
| PublisherScenarios.RepeatedPublishes | src/test/java/ch/panter/jmock/gettingstarted/PublisherTest.java:243-277 | n publishes of one message give exactly n receipts of it; the tests use n = 10 and n = 7 |
| PublisherScenarios.NoSubscribers | src/main/java/ch/panter/jmock/gettingstarted/PublisherImpl.java:38-42 | publishing with nothing registered returns normally and delivers nothing |
| PublisherScenarios.SameSubscriberAddedTwice | src/main/java/ch/panter/jmock/gettingstarted/PublisherImpl.java:31-42 | a subscriber added twice gets two receipts from one publish |
| PublisherScenarios.TwoSubscribersTwoMessages | src/main/java/ch/panter/jmock/gettingstarted/PublisherImpl.java:31-42 | registering a then b and publishing x then y gives a:x, b:x, a:y, b:y |

## Left out

- What a subscriber does in `receive` (src/main/java/ch/panter/jmock/gettingstarted/ISubscriber.java:22) is caller-defined. The model records only that the call happened, with which argument, and in what order.
- An exception thrown by `receive` would abort the rest of the loop in `publish`. The model assumes every `receive` returns normally.
- Null subscribers and null messages are not modelled. Dafny values are never null.
- The jMock and Hamcrest machinery in the tests (mockery, expectations, sequences, matchers) is not modelled. The tests serve only as scenarios. The matcher variants in `usingMatchers` all accept the one message published, so that test becomes seven receipts of that message.
- `Junit4Test` demonstrates JUnit annotations and contains no logic of the publisher.
- Concurrent calls of `add` and `publish` are not modelled. The source is single-threaded and does not guard the list.
- Java's `Collection` interface only fixes the iteration order because the field holds an `ArrayList`. The model fixes that order as the list order.
