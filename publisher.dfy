/**
 * A publish/subscribe broadcaster: a publisher keeps an ordered list of
 * registered subscribers and forwards every published message, unchanged,
 * to each of them in registration order.
 *
 * A subscriber is known to the publisher only by its identity. Its `receive`
 * callback is observed through the publisher's delivery log: one `Delivery`
 * per call of `receive`, appended in the order the calls happen.
 */
module Publishing {

  /** The identity of a subscriber object; two registrations of the same object share it. */
  datatype SubscriberRef = SubscriberRef(id: nat)

  /** One call of `receive(message)` on subscriber `to`. */
  datatype Delivery = Delivery(to: SubscriberRef, message: string)

  // ---------------------------------------------------------------------------
  // Specification functions
  // ---------------------------------------------------------------------------

  /** The deliveries of one `publish(m)` to the subscriber list `subs`. */
  function Broadcast(subs: seq<SubscriberRef>, m: string): (r: seq<Delivery>)
    ensures |r| == |subs|
  {
    if subs == [] then [] else [Delivery(subs[0], m)] + Broadcast(subs[1..], m)
  }

  /** The deliveries of `publish(msgs[0])`, ..., `publish(msgs[|msgs| - 1])`, called in turn. */
  function PublishAll(subs: seq<SubscriberRef>, msgs: seq<string>): seq<Delivery>
  {
    if msgs == [] then [] else Broadcast(subs, msgs[0]) + PublishAll(subs, msgs[1..])
  }

  /** `n` copies of `x`. */
  function Repeat<T>(x: T, n: nat): (r: seq<T>)
    ensures |r| == n
    ensures forall i :: 0 <= i < n ==> r[i] == x
  {
    if n == 0 then [] else [x] + Repeat(x, n - 1)
  }

  /** The subscribers that received something, in the order they received it. */
  function Recipients(log: seq<Delivery>): (r: seq<SubscriberRef>)
    ensures |r| == |log|
    ensures forall i :: 0 <= i < |log| ==> r[i] == log[i].to
  {
    if log == [] then [] else [log[0].to] + Recipients(log[1..])
  }

  /** Whether every delivery in `log` carries exactly the message `m`. */
  predicate AllCarry(log: seq<Delivery>, m: string)
  {
    forall i :: 0 <= i < |log| ==> log[i].message == m
  }

  // ---------------------------------------------------------------------------
  // Properties of one broadcast
  // ---------------------------------------------------------------------------

  /** The i-th delivery of a broadcast goes to the i-th registered subscriber and carries `m`. */
  lemma {:induction false} BroadcastAt(subs: seq<SubscriberRef>, m: string, i: nat)
    requires i < |subs|
    ensures Broadcast(subs, m)[i] == Delivery(subs[i], m)
  {
    if i > 0 {
      BroadcastAt(subs[1..], m, i - 1);
    }
  }

  /**
   * A log is the broadcast of `m` to `subs` exactly when it names the
   * subscribers of `subs` in list order and every entry carries `m` unaltered.
   */
  lemma BroadcastCharacterized(subs: seq<SubscriberRef>, m: string, log: seq<Delivery>)
    ensures log == Broadcast(subs, m) <==> Recipients(log) == subs && AllCarry(log, m)
  {
    var b := Broadcast(subs, m);
    if Recipients(log) == subs && AllCarry(log, m) {
      assert |log| == |b|;
      forall i | 0 <= i < |log| ensures log[i] == b[i] {
        BroadcastAt(subs, m, i);
        assert Recipients(log)[i] == log[i].to;
      }
    }
    if log == b {
      assert Recipients(log) == subs by {
        forall i | 0 <= i < |subs| ensures Recipients(log)[i] == subs[i] {
          BroadcastAt(subs, m, i);
        }
      }
    }
  }

  /**
   * Exactly-once delivery per registration: a subscriber registered k times
   * receives the published message k times and no other message.
   */
  lemma {:induction false} BroadcastCount(subs: seq<SubscriberRef>, m: string, s: SubscriberRef, m': string)
    ensures multiset(Broadcast(subs, m))[Delivery(s, m')] == if m' == m then multiset(subs)[s] else 0
  {
    if subs != [] {
      BroadcastCount(subs[1..], m, s, m');
      assert subs == [subs[0]] + subs[1..];
      assert Broadcast(subs, m) == [Delivery(subs[0], m)] + Broadcast(subs[1..], m);
    }
  }

  /** Registering `a` and then `b` gives a broadcast to `a` followed by a broadcast to `b`. */
  lemma {:induction false} BroadcastAppend(a: seq<SubscriberRef>, b: seq<SubscriberRef>, m: string)
    ensures Broadcast(a + b, m) == Broadcast(a, m) + Broadcast(b, m)
  {
    if a != [] {
      BroadcastAppend(a[1..], b, m);
      assert (a + b)[1..] == a[1..] + b;
    } else {
      assert a + b == b;
    }
  }

  /** No de-duplication: a subscriber added twice receives every message twice. */
  lemma DuplicateReceivesTwice(subs: seq<SubscriberRef>, s: SubscriberRef, m: string)
    requires s !in subs
    ensures multiset(Broadcast(subs + [s, s], m))[Delivery(s, m)] == 2
  {
    BroadcastCount(subs + [s, s], m, s, m);
    assert multiset(subs + [s, s]) == multiset(subs) + multiset{s, s};
    assert multiset(subs)[s] == 0;
  }

  // ---------------------------------------------------------------------------
  // Properties of a series of publishes
  // ---------------------------------------------------------------------------

  /** Publishing `a` and then `b` logs the deliveries of `a` followed by those of `b`. */
  lemma {:induction false} PublishAllAppend(subs: seq<SubscriberRef>, a: seq<string>, b: seq<string>)
    ensures PublishAll(subs, a + b) == PublishAll(subs, a) + PublishAll(subs, b)
  {
    if a != [] {
      PublishAllAppend(subs, a[1..], b);
      assert (a + b)[0] == a[0] && (a + b)[1..] == a[1..] + b;
      calc {
        PublishAll(subs, a + b);
        Broadcast(subs, a[0]) + PublishAll(subs, a[1..] + b);
        Broadcast(subs, a[0]) + (PublishAll(subs, a[1..]) + PublishAll(subs, b));
        (Broadcast(subs, a[0]) + PublishAll(subs, a[1..])) + PublishAll(subs, b);
      }
    } else {
      assert a + b == b;
    }
  }

  /** Publishing one more message extends the log of a series by that message's broadcast. */
  lemma PublishOneMore(subs: seq<SubscriberRef>, msgs: seq<string>, k: nat)
    requires k < |msgs|
    ensures PublishAll(subs, msgs[..k + 1]) == PublishAll(subs, msgs[..k]) + Broadcast(subs, msgs[k])
  {
    PublishAllAppend(subs, msgs[..k], [msgs[k]]);
    assert msgs[..k + 1] == msgs[..k] + [msgs[k]];
    assert [msgs[k]][1..] == [];
  }

  /**
   * The full order of a series of publishes: every message reaches every
   * subscriber, message by message in call order and, within one message,
   * subscriber by subscriber in registration order.
   */
  lemma {:induction false} PublishAllAt(subs: seq<SubscriberRef>, msgs: seq<string>, k: nat, i: nat)
    requires k < |msgs| && i < |subs|
    ensures |PublishAll(subs, msgs)| == |msgs| * |subs|
    ensures k * |subs| + i < |PublishAll(subs, msgs)|
    ensures PublishAll(subs, msgs)[k * |subs| + i] == Delivery(subs[i], msgs[k])
  {
    var n := |subs|;
    var head := Broadcast(subs, msgs[0]);
    var rest := PublishAll(subs, msgs[1..]);
    PublishAllLength(subs, msgs);
    assert k * n + i < |msgs| * n by {
      MulLess(k, |msgs|, n, i);
    }
    assert PublishAll(subs, msgs) == head + rest;
    if k == 0 {
      BroadcastAt(subs, msgs[0], i);
      assert (head + rest)[i] == head[i];
    } else {
      PublishAllAt(subs, msgs[1..], k - 1, i);
      assert k * n + i == n + ((k - 1) * n + i);
      assert (head + rest)[n + ((k - 1) * n + i)] == rest[(k - 1) * n + i];
    }
  }

  /** A series of publishes logs one delivery per message per registration. */
  lemma {:induction false} PublishAllLength(subs: seq<SubscriberRef>, msgs: seq<string>)
    ensures |PublishAll(subs, msgs)| == |msgs| * |subs|
  {
    if msgs != [] {
      PublishAllLength(subs, msgs[1..]);
      assert |msgs| * |subs| == (|msgs| - 1) * |subs| + |subs|;
    }
  }

  /** Index arithmetic for the blocks of a series: block `k` of `K` blocks of size `n`. */
  lemma MulLess(k: nat, K: nat, n: nat, i: nat)
    requires k < K && i < n
    ensures k * n + i < K * n
  {
    var d: nat := K - k - 1;
    assert K * n == k * n + n + d * n;
    assert d * n >= 0;
  }

  /** With a single subscriber, it receives the published messages one by one in call order. */
  lemma {:induction false} SingleSubscriberSeesAll(s: SubscriberRef, msgs: seq<string>)
    ensures PublishAll([s], msgs) == seq(|msgs|, i requires 0 <= i < |msgs| => Delivery(s, msgs[i]))
  {
    if msgs != [] {
      SingleSubscriberSeesAll(s, msgs[1..]);
      assert Broadcast([s], msgs[0]) == [Delivery(s, msgs[0])];
    }
  }

  /** `n` publishes of `m` to one subscriber give exactly `n` deliveries of `m` to it. */
  lemma {:induction false} RepeatedPublish(s: SubscriberRef, m: string, n: nat)
    ensures PublishAll([s], Repeat(m, n)) == Repeat(Delivery(s, m), n)
  {
    SingleSubscriberSeesAll(s, Repeat(m, n));
  }

  // ---------------------------------------------------------------------------
  // The publisher object
  // ---------------------------------------------------------------------------

  class Publisher {
    /** The registered subscribers, in registration order; duplicates allowed. */
    var subscribers: seq<SubscriberRef>
    /** Every `receive` call made so far, in the order made. */
    var log: seq<Delivery>

    /** A fresh publisher has no subscribers and has delivered nothing. */
    constructor ()
      ensures subscribers == [] && log == []
    {
      subscribers := [];
      log := [];
    }

    /** Appends `s` to the subscriber list, without checking for an earlier registration. */
    method Add(s: SubscriberRef)
      modifies this
      ensures subscribers == old(subscribers) + [s]
      ensures log == old(log)
    {
      subscribers := subscribers + [s];
    }

    /**
     * Forwards `m` to each registered subscriber in list order. The
     * subscriber list is left as it was; the log grows by the broadcast.
     */
    method Publish(m: string)
      modifies this`log
      ensures subscribers == old(subscribers)
      ensures log == old(log) + Broadcast(subscribers, m)
    {
      var i := 0;
      while i < |subscribers|
        invariant 0 <= i <= |subscribers|
        invariant log == old(log) + Broadcast(subscribers[..i], m)
      {
        BroadcastAppend(subscribers[..i], [subscribers[i]], m);
        assert subscribers[..i + 1] == subscribers[..i] + [subscribers[i]];
        log := log + [Delivery(subscribers[i], m)];
        i := i + 1;
      }
      assert subscribers[..i] == subscribers;
    }
  }

  /** Calling `publish` once per message of `msgs`, in order, logs `PublishAll`. */
  method PublishEach(p: Publisher, msgs: seq<string>)
    modifies p`log
    ensures p.log == old(p.log) + PublishAll(p.subscribers, msgs)
  {
    ghost var subs := p.subscribers;
    var k := 0;
    while k < |msgs|
      invariant 0 <= k <= |msgs|
      invariant p.subscribers == subs
      invariant p.log == old(p.log) + PublishAll(subs, msgs[..k])
    {
      ghost var before := p.log;
      p.Publish(msgs[k]);
      PublishOneMore(subs, msgs, k);
      k := k + 1;
    }
    assert msgs[..k] == msgs;
  }
}
