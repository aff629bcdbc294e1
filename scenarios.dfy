/**
 * The scenarios of the publisher's tests, stated as clients of the
 * `Publisher` class: each builds a fresh publisher, registers its
 * subscribers, publishes, and returns the resulting delivery log, whose
 * exact contents the postcondition gives.
 */
module PublisherScenarios {
  import opened Publishing

  /** One registered subscriber receives the one published message, once. */
  method OneSubscriberReceivesAMessage(s: SubscriberRef) returns (log: seq<Delivery>)
    ensures log == [Delivery(s, "message")]
  {
    var p := new Publisher();
    p.Add(s);
    p.Publish("message");
    log := p.log;
  }

  /** Three messages published in turn reach the one subscriber in that order. */
  method OneSubscriberReceivesASequence(s: SubscriberRef) returns (log: seq<Delivery>)
    ensures log == [Delivery(s, "message1"), Delivery(s, "message2"), Delivery(s, "message3")]
  {
    var messages := ["message1", "message2", "message3"];
    var p := new Publisher();
    p.Add(s);
    var k := 0;
    while k < |messages|
      invariant 0 <= k <= |messages|
      invariant p.subscribers == [s]
      invariant p.log == seq(k, i requires 0 <= i < k => Delivery(s, messages[i]))
    {
      p.Publish(messages[k]);
      k := k + 1;
    }
    log := p.log;
  }

  /** `n` publishes of the same message to one subscriber give exactly `n` receipts of it. */
  method RepeatedPublishes(s: SubscriberRef, m: string, n: nat) returns (log: seq<Delivery>)
    ensures |log| == n
    ensures forall i :: 0 <= i < |log| ==> log[i] == Delivery(s, m)
  {
    var p := new Publisher();
    p.Add(s);
    var k := 0;
    while k < n
      invariant k <= n
      invariant p.subscribers == [s]
      invariant p.log == Repeat(Delivery(s, m), k)
    {
      p.Publish(m);
      assert Repeat(Delivery(s, m), k + 1) == Repeat(Delivery(s, m), k) + [Delivery(s, m)];
      k := k + 1;
    }
    log := p.log;
  }

  /** With nothing registered, publishing delivers nothing and returns normally. */
  method NoSubscribers(m: string) returns (log: seq<Delivery>)
    ensures log == []
  {
    var p := new Publisher();
    p.Publish(m);
    log := p.log;
  }

  /** Registering the same subscriber twice makes each publish deliver to it twice. */
  method SameSubscriberAddedTwice(s: SubscriberRef, m: string) returns (log: seq<Delivery>)
    ensures log == [Delivery(s, m), Delivery(s, m)]
  {
    var p := new Publisher();
    p.Add(s);
    p.Add(s);
    p.Publish(m);
    log := p.log;
  }

  /**
   * Two subscribers, two messages: each message reaches both subscribers in
   * registration order before the next message is published.
   */
  method TwoSubscribersTwoMessages(a: SubscriberRef, b: SubscriberRef, x: string, y: string)
    returns (log: seq<Delivery>)
    ensures log == [Delivery(a, x), Delivery(b, x), Delivery(a, y), Delivery(b, y)]
  {
    var p := new Publisher();
    p.Add(a);
    p.Add(b);
    PublishEach(p, [x, y]);
    log := p.log;
    assert Broadcast([a, b], x) == [Delivery(a, x), Delivery(b, x)] by {
      assert [a, b][1..] == [b];
    }
    assert Broadcast([a, b], y) == [Delivery(a, y), Delivery(b, y)] by {
      assert [a, b][1..] == [b];
    }
    assert p.subscribers == [a, b];
    assert [x, y][1..] == [y] && [y][1..] == [];
    assert PublishAll([a, b], [y]) == Broadcast([a, b], y);
  }
}
