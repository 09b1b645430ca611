/** The notification broker: bounded channels, and a two-phase publish that may run concurrently with
    subscriptions, other publications and the receivers. */
module Notifications {
  import opened Common

  type Message = string

  const CHANNEL_BUFFER: nat := 64

  /** One subscriber's channel: what waits in it, what its receiver has taken, and whether the receiver is gone. */
  datatype Mailbox = Mailbox(queue: seq<Message>, received: seq<Message>, closed: bool)

  predicate Accepts(m: Mailbox) {
    !m.closed && |m.queue| < CHANNEL_BUFFER
  }

  function Sent(m: Mailbox, message: Message): Mailbox {
    if Accepts(m) then m.(queue := m.queue + [message]) else m
  }

  type Mailboxes = map<string, Mailbox>

  function AllSent(boxes: Mailboxes, message: Message): Mailboxes {
    map id | id in boxes :: Sent(boxes[id], message)
  }

  function Accepting(boxes: Mailboxes): set<string> {
    set id | id in boxes && Accepts(boxes[id])
  }

  function ClosedOnes(boxes: Mailboxes): set<string> {
    set id | id in boxes && boxes[id].closed
  }

  /** All subscribers but those still to do have had their offer. */
  predicate Offered(before: Mailboxes, todo: set<string>, message: Message, now: Mailboxes,
                    delivered: nat, dead: set<string>)
  {
    && now == before + AllSent(before - todo, message)
    && delivered == |Accepting(before - todo)|
    && dead == ClosedOnes(before - todo)
  }

  lemma StartOffers(before: Mailboxes, message: Message)
    ensures Offered(before, before.Keys, message, before, 0, {})
  {
    assert before - before.Keys == map[];
  }

  lemma EndOffers(before: Mailboxes, message: Message, now: Mailboxes, delivered: nat, dead: set<string>)
    requires Offered(before, {}, message, now, delivered, dead)
    ensures now == AllSent(before, message) && delivered == |Accepting(before)| && dead == ClosedOnes(before)
  {
    assert before - {} == before;
  }

  lemma OfferedStep(before: Mailboxes, todo: set<string>, id: string, message: Message, now: Mailboxes,
                    delivered: nat, dead: set<string>)
    requires id in todo && todo <= before.Keys && Offered(before, todo, message, now, delivered, dead)
    ensures id in now && now[id] == before[id]
    ensures Offered(before, todo - {id}, message, now[id := Sent(now[id], message)],
                    if Accepts(now[id]) then delivered + 1 else delivered,
                    if now[id].closed then dead + {id} else dead)
  {
    var box, done := before[id], before - todo;
    OneLess(before, todo, id);
    SentWith(done, id, box, message);
    UpdateRight(before, AllSent(done, message), id, Sent(box, message));
  }

  lemma OneLess<K, V>(m: map<K, V>, gone: set<K>, k: K)
    requires k in gone && k in m
    ensures m - (gone - {k}) == (m - gone)[k := m[k]]
  {
  }

  lemma UpdateRight<K, V>(a: map<K, V>, b: map<K, V>, k: K, v: V)
    ensures (a + b)[k := v] == a + b[k := v]
    ensures k !in b && k in a ==> (a + b)[k] == a[k]
  {
  }

  lemma SentWith(boxes: Mailboxes, id: string, box: Mailbox, message: Message)
    requires id !in boxes
    ensures AllSent(boxes[id := box], message) == AllSent(boxes, message)[id := Sent(box, message)]
    ensures Accepting(boxes[id := box]) == Accepting(boxes) + (if Accepts(box) then {id} else {})
    ensures ClosedOnes(boxes[id := box]) == ClosedOnes(boxes) + (if box.closed then {id} else {})
    ensures id !in Accepting(boxes) && id !in ClosedOnes(boxes)
  {
  }

  // ---------- The broker ----------

  datatype SendResult = Queued | Full | Closed

  class Channel {
    var mailbox: Mailbox

    constructor ()
      ensures mailbox == Mailbox([], [], false)
    {
      mailbox := Mailbox([], [], false);
    }

    method TrySend(message: Message) returns (r: SendResult)
      modifies this
      ensures mailbox == Sent(old(mailbox), message)
      ensures r.Queued? <==> !old(mailbox).closed && |old(mailbox).queue| < 64
      ensures r.Queued? ==>
                mailbox == Mailbox(old(mailbox).queue + [message], old(mailbox).received, false)
      ensures !r.Queued? ==> mailbox == old(mailbox)
      ensures r.Closed? <==> old(mailbox).closed
    {
      if mailbox.closed {
        return Closed;
      }
      if |mailbox.queue| >= CHANNEL_BUFFER {
        return Full;
      }
      mailbox := mailbox.(queue := mailbox.queue + [message]);
      return Queued;
    }

    method Receive() returns (message: Option<Message>)
      modifies this
      ensures message.None? <==> old(mailbox).queue == []
      ensures message.Some? ==>
                && old(mailbox).queue == [message.value] + mailbox.queue
                && mailbox.received == old(mailbox).received + [message.value]
      ensures message.None? ==> mailbox == old(mailbox)
      ensures mailbox.closed == old(mailbox).closed
    {
      if mailbox.queue == [] {
        return None;
      }
      message := Some(mailbox.queue[0]);
      mailbox := Mailbox(mailbox.queue[1..], mailbox.received + [mailbox.queue[0]], mailbox.closed);
    }
  }

  class NotificationBroker {
    var subscribers: map<string, Channel>
    ghost var channels: set<Channel>

    /** No two subscribers share a channel. */
    ghost predicate Valid()
      reads this
    {
      && (forall a :: a in subscribers ==> subscribers[a] in channels)
      && forall a, b :: a in subscribers && b in subscribers && a != b ==> subscribers[a] != subscribers[b]
    }

    constructor ()
      ensures Valid() && subscribers == map[]
    {
      subscribers, channels := map[], {};
    }

    /** `id` is a fresh random name. */
    method Subscribe(id: string) returns (channel: Channel)
      requires Valid() && id !in subscribers
      modifies this
      ensures Valid() && fresh(channel) && channel.mailbox == Mailbox([], [], false)
      ensures subscribers == old(subscribers)[id := channel]
    {
      channel := new Channel();
      subscribers := subscribers[id := channel];
      channels := channels + {channel};
    }

    method Unsubscribe(id: string) returns (present: bool)
      requires Valid()
      modifies this
      ensures Valid() && subscribers == old(subscribers) - {id}
      ensures present <==> id in old(subscribers)
    {
      present := id in subscribers;
      subscribers := subscribers - {id};
    }

    ghost function Mailboxes(): Mailboxes
      requires Valid()
      reads this, channels
    {
      map id | id in subscribers :: subscribers[id].mailbox
    }

    method Offer(id: string, message: Message) returns (r: SendResult)
      requires Valid() && id in subscribers
      modifies channels
      ensures Mailboxes() == old(Mailboxes())[id := Sent(old(Mailboxes())[id], message)]
      ensures r.Queued? <==> Accepts(old(Mailboxes())[id])
      ensures r.Closed? <==> old(Mailboxes())[id].closed
    {
      r := subscribers[id].TrySend(message);
    }

    /** The first phase: one offer to every subscriber. */
    method OfferAll(message: Message) returns (delivered: nat, dead: set<string>)
      requires Valid()
      modifies channels
      ensures Mailboxes() == AllSent(old(Mailboxes()), message)
      ensures delivered == |Accepting(old(Mailboxes()))|
      ensures dead == ClosedOnes(old(Mailboxes()))
    {
      delivered, dead := 0, {};
      ghost var before := Mailboxes();
      var todo := subscribers.Keys;
      StartOffers(before, message);
      while todo != {}
        invariant todo <= subscribers.Keys && subscribers.Keys == before.Keys
        invariant Offered(before, todo, message, Mailboxes(), delivered, dead)
        decreases todo
      {
        var id :| id in todo;
        ghost var boxes := Mailboxes();
        var r := Offer(id, message);
        OfferedStep(before, todo, id, message, boxes, delivered, dead);
        match r {
          case Queued => delivered := delivered + 1;
          case Full =>
          case Closed => dead := dead + {id};
        }
        todo := todo - {id};
      }
      EndOffers(before, message, Mailboxes(), delivered, dead);
    }

    /** Both phases, with nobody else at work: the message is appended to exactly the open channels that have room,
        and exactly the subscribers whose receiver is gone are dropped. */
    method Publish(message: Message) returns (delivered: nat)
      requires Valid()
      modifies this, channels
      ensures Valid()
      ensures forall id :: id in old(subscribers) ==>
                old(subscribers)[id].mailbox == Sent(old(subscribers[id].mailbox), message)
      ensures forall id :: id in old(subscribers) ==>
                var before, after := old(subscribers[id].mailbox), old(subscribers)[id].mailbox;
                after == if !before.closed && |before.queue| < 64
                         then Mailbox(before.queue + [message], before.received, false) else before
      ensures delivered == |set id | id in old(Mailboxes())
                              && !old(Mailboxes())[id].closed && |old(Mailboxes())[id].queue| < 64|
      ensures delivered == |Accepting(old(Mailboxes()))|
      ensures subscribers == old(subscribers) - ClosedOnes(old(Mailboxes()))
    {
      ghost var before := Mailboxes();
      var dead;
      delivered, dead := OfferAll(message);
      assert forall id :: id in subscribers ==> subscribers[id].mailbox == Mailboxes()[id];
      assert Accepting(before) == set id | id in before && !before[id].closed && |before[id].queue| < 64;
      if dead != {} {
        subscribers := subscribers - dead;
      }
    }
  }
}
