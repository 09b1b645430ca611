/** The broker at work concurrently. Publications share the read lock while they send, one offer at a time; roster
    changes take the write lock, so they happen only while nobody sends. Receivers come and go at any time. */
module BrokerProtocol {
  import opened Notifications

  type Id = nat
  type PubId = nat

  /** One try_send as it happened: how full the channel was, and whether the receiver was gone. */
  datatype Offer = Offer(pub: PubId, message: Message, queued: nat, closed: bool)

  predicate Accepted(o: Offer) {
    !o.closed && o.queued < CHANNEL_BUFFER
  }

  /** A subscriber's channel with its history. */
  datatype Line = Line(box: Mailbox, offers: seq<Offer>)

  datatype Phase = Sending | Pruning | Done

  /** One publish call: the subscribers present when it began, those still to be offered the message, those found
      closed, those that took it, and the publications that had ended before it began. */
  datatype Publication = Publication(
    message: Message,
    present: set<Id>,
    todo: set<Id>,
    dead: set<Id>,
    taken: set<Id>,
    delivered: nat,
    earlier: set<PubId>,
    phase: Phase
  )

  /** `left` are the subscribers that unsubscribed. */
  datatype World = World(lines: map<Id, Line>, roster: set<Id>, left: set<Id>, pubs: map<PubId, Publication>)

  datatype Step =
    | Subscribe(id: Id)
    | Unsubscribe(id: Id)
    | Begin(pub: PubId, message: Message)
    | Send(pub: PubId, id: Id)
    | EndSend(pub: PubId)
    | Prune(pub: PubId)
    | Receive(id: Id)
    | Close(id: Id)

  const START: World := World(map[], {}, {}, map[])

  /** The write lock is free of readers. */
  predicate Unread(w: World) {
    forall p :: p in w.pubs ==> !w.pubs[p].phase.Sending?
  }

  predicate InPhase(w: World, p: PubId, phase: Phase) {
    p in w.pubs && w.pubs[p].phase == phase
  }

  predicate Enabled(w: World, s: Step) {
    match s
    case Subscribe(id) => Unread(w) && id !in w.lines
    case Unsubscribe(id) => Unread(w) && id in w.lines
    case Begin(p, _) => p !in w.pubs
    case Send(p, id) => InPhase(w, p, Sending) && id in w.pubs[p].todo && id in w.lines
    case EndSend(p) => InPhase(w, p, Sending) && w.pubs[p].todo == {}
    case Prune(p) => InPhase(w, p, Pruning) && Unread(w)
    case Receive(id) => id in w.lines && !w.lines[id].box.closed && w.lines[id].box.queue != []
    case Close(id) => id in w.lines
  }

  function Offered(l: Line, p: PubId, message: Message): Line {
    Line(Sent(l.box, message), l.offers + [Offer(p, message, |l.box.queue|, l.box.closed)])
  }

  /** What the publisher notes after an offer. */
  function Noted(pub: Publication, id: Id, box: Mailbox): Publication {
    pub.(todo := pub.todo - {id},
         dead := if box.closed then pub.dead + {id} else pub.dead,
         taken := if Accepts(box) then pub.taken + {id} else pub.taken,
         delivered := if Accepts(box) then pub.delivered + 1 else pub.delivered)
  }

  function Ended(w: World): set<PubId> {
    set p | p in w.pubs && !w.pubs[p].phase.Sending?
  }

  function Apply(w: World, s: Step): World
    requires Enabled(w, s)
  {
    match s
    case Subscribe(id) => w.(lines := w.lines[id := Line(Mailbox([], [], false), [])], roster := w.roster + {id})
    case Unsubscribe(id) => w.(roster := w.roster - {id}, left := w.left + {id})
    case Begin(p, message) =>
      w.(pubs := w.pubs[p := Publication(message, w.roster, w.roster, {}, {}, 0, Ended(w), Sending)])
    case Send(p, id) =>
      var l := w.lines[id];
      w.(lines := w.lines[id := Offered(l, p, w.pubs[p].message)], pubs := w.pubs[p := Noted(w.pubs[p], id, l.box)])
    case EndSend(p) => w.(pubs := w.pubs[p := w.pubs[p].(phase := if w.pubs[p].dead == {} then Done else Pruning)])
    case Prune(p) => w.(roster := w.roster - w.pubs[p].dead, pubs := w.pubs[p := w.pubs[p].(phase := Done)])
    case Receive(id) =>
      var box := w.lines[id].box;
      var after := Mailbox(box.queue[1..], box.received + [box.queue[0]], box.closed);
      w.(lines := w.lines[id := w.lines[id].(box := after)])
    case Close(id) => w.(lines := w.lines[id := w.lines[id].(box := w.lines[id].box.(closed := true))])
  }

  // ---------- Histories ----------

  /** The messages of the accepted offers, in the order of the offers. */
  function AcceptedMessages(offers: seq<Offer>): seq<Message> {
    if offers == [] then []
    else
      var front, last := AcceptedMessages(offers[..|offers| - 1]), offers[|offers| - 1];
      if Accepted(last) then front + [last.message] else front
  }

  function OffersFrom(offers: seq<Offer>, p: PubId): nat {
    if offers == [] then 0
    else OffersFrom(offers[..|offers| - 1], p) + (if offers[|offers| - 1].pub == p then 1 else 0)
  }

  predicate TookFrom(offers: seq<Offer>, p: PubId) {
    offers != [] &&
      var last := offers[|offers| - 1];
      TookFrom(offers[..|offers| - 1], p) || (last.pub == p && Accepted(last))
  }

  /** An offer of this publication found the receiver gone. */
  predicate FoundClosed(offers: seq<Offer>, p: PubId) {
    offers != [] &&
      var last := offers[|offers| - 1];
      FoundClosed(offers[..|offers| - 1], p) || (last.pub == p && last.closed)
  }

  // ---------- Invariant ----------

  predicate LineOk(l: Line) {
    && l.box.received + l.box.queue == AcceptedMessages(l.offers)
    && |l.box.queue| <= CHANNEL_BUFFER
    && (forall i :: 0 <= i < |l.offers| ==> l.offers[i].queued <= CHANNEL_BUFFER)
    && (!l.box.closed ==> forall i :: 0 <= i < |l.offers| ==> !l.offers[i].closed)
  }

  /** Every offer comes from a publication, and never from one that had ended before an earlier offer's began. */
  predicate OffersOk(l: Line, pubs: map<PubId, Publication>) {
    && (forall i :: 0 <= i < |l.offers| ==>
          l.offers[i].pub in pubs && l.offers[i].message == pubs[l.offers[i].pub].message)
    && (forall i, j :: 0 <= i < j < |l.offers| ==> l.offers[j].pub !in pubs[l.offers[i].pub].earlier)
  }

  predicate PubOk(pub: Publication, w: World) {
    && pub.todo <= pub.present <= w.lines.Keys
    && pub.dead <= pub.present && pub.taken <= pub.present
    && pub.taken !! pub.todo && pub.dead !! pub.todo
    && pub.delivered == |pub.taken|
    && (pub.phase.Sending? ==> pub.present == w.roster)
    && (!pub.phase.Sending? ==> pub.todo == {})
    && (pub.phase.Done? ==> pub.dead !! w.roster)
    && (forall id :: id in pub.dead ==> w.lines[id].box.closed)
    && (forall q :: q in pub.earlier ==> q in w.pubs && !w.pubs[q].phase.Sending?)
  }

  /** One publication and one subscriber: offered once if it was present and its turn has come, else never. */
  predicate PairOk(p: PubId, pub: Publication, id: Id, l: Line) {
    && OffersFrom(l.offers, p) == (if id in pub.present - pub.todo then 1 else 0)
    && (TookFrom(l.offers, p) <==> id in pub.taken)
    && (FoundClosed(l.offers, p) <==> id in pub.dead)
  }

  /** A subscriber whose receiver is there and that has not unsubscribed is in the roster. */
  predicate RosterOk(w: World) {
    && w.roster <= w.lines.Keys
    && forall id :: id in w.lines && !w.lines[id].box.closed && id !in w.left ==> id in w.roster
  }

  predicate Inv(w: World) {
    && RosterOk(w)
    && (forall id :: id in w.lines ==> LineOk(w.lines[id]))
    && (forall id :: id in w.lines ==> OffersOk(w.lines[id], w.pubs))
    && (forall p :: p in w.pubs ==> PubOk(w.pubs[p], w))
    && (forall p, id :: p in w.pubs && id in w.lines ==> PairOk(p, w.pubs[p], id, w.lines[id]))
  }

  lemma OfferStep(l: Line, p: PubId, message: Message, q: PubId)
    ensures var after := Offered(l, p, message); var o := after.offers[|l.offers|];
            && AcceptedMessages(after.offers) == AcceptedMessages(l.offers) + (if Accepted(o) then [message] else [])
            && OffersFrom(after.offers, q) == OffersFrom(l.offers, q) + (if p == q then 1 else 0)
            && (TookFrom(after.offers, q) <==> TookFrom(l.offers, q) || (p == q && Accepted(o)))
            && (FoundClosed(after.offers, q) <==> FoundClosed(l.offers, q) || (p == q && l.box.closed))
            && (Accepted(o) <==> Accepts(l.box))
  {
    assert Offered(l, p, message).offers[..|l.offers|] == l.offers;
  }

  lemma NoOffersFromUnknown(l: Line, pubs: map<PubId, Publication>, p: PubId)
    requires OffersOk(l, pubs) && p !in pubs
    ensures OffersFrom(l.offers, p) == 0 && !TookFrom(l.offers, p) && !FoundClosed(l.offers, p)
  {
    NoneFrom(l.offers, p);
  }

  lemma {:induction false} NoneFrom(offers: seq<Offer>, p: PubId)
    requires forall i :: 0 <= i < |offers| ==> offers[i].pub != p
    ensures OffersFrom(offers, p) == 0 && !TookFrom(offers, p) && !FoundClosed(offers, p)
    decreases |offers|
  {
    if offers != [] { NoneFrom(offers[..|offers| - 1], p); }
  }

  lemma LineKept(w: World, s: Step, id: Id)
    requires Enabled(w, s) && id in Apply(w, s).lines
    requires id in w.lines ==> LineOk(w.lines[id])
    ensures LineOk(Apply(w, s).lines[id])
  {
    if s.Send? && s.id == id {
      var l := w.lines[id];
      var message := w.pubs[s.pub].message;
      OfferStep(l, s.pub, message, s.pub);
      assert l.box.received + (l.box.queue + [message]) == l.box.received + l.box.queue + [message];
    } else if s.Receive? && s.id == id {
      var box := w.lines[id].box;
      assert box.received + [box.queue[0]] + box.queue[1..] == box.received + box.queue;
    }
  }

  /** Publications only ever gain ended ones, and keep what they were begun with. */
  predicate Extends(pubs: map<PubId, Publication>, more: map<PubId, Publication>) {
    forall p :: p in pubs ==>
      p in more && more[p].message == pubs[p].message && more[p].earlier == pubs[p].earlier
      && more[p].present == pubs[p].present && (!pubs[p].phase.Sending? ==> !more[p].phase.Sending?)
  }

  lemma PubsExtend(w: World, s: Step)
    requires Enabled(w, s)
    ensures Extends(w.pubs, Apply(w, s).pubs)
  {
  }

  lemma OffersFrame(l: Line, pubs: map<PubId, Publication>, more: map<PubId, Publication>)
    requires OffersOk(l, pubs) && Extends(pubs, more)
    ensures OffersOk(l, more)
  {
  }

  /** A new offer comes from a publication that is still sending, so nothing that went before it began after its end. */
  lemma OfferAppends(l: Line, pubs: map<PubId, Publication>, p: PubId)
    requires OffersOk(l, pubs) && p in pubs
    requires forall q :: q in pubs ==> p !in pubs[q].earlier
    ensures OffersOk(Offered(l, p, pubs[p].message), pubs)
  {
  }

  lemma OffersKept(w: World, s: Step, id: Id)
    requires Enabled(w, s) && id in Apply(w, s).lines
    requires id in w.lines ==> OffersOk(w.lines[id], w.pubs)
    requires forall p :: p in w.pubs ==> PubOk(w.pubs[p], w)
    ensures OffersOk(Apply(w, s).lines[id], Apply(w, s).pubs)
  {
    PubsExtend(w, s);
    if id in w.lines {
      var l := w.lines[id];
      if s.Send? && s.id == id {
        OfferAppends(l, w.pubs, s.pub);
        OffersFrame(Offered(l, s.pub, w.pubs[s.pub].message), w.pubs, Apply(w, s).pubs);
      } else {
        OffersFrame(l, w.pubs, Apply(w, s).pubs);
      }
    }
  }

  /** Whatever happens elsewhere, an untouched publication stays in order. */
  lemma PubFrame(w: World, v: World, pub: Publication)
    requires PubOk(pub, w) && Extends(w.pubs, v.pubs)
    requires w.lines.Keys <= v.lines.Keys
    requires forall id :: id in w.lines && w.lines[id].box.closed ==> v.lines[id].box.closed
    requires pub.phase.Sending? ==> v.roster == w.roster
    requires pub.phase.Done? ==> pub.dead !! v.roster
    ensures PubOk(pub, v)
  {
  }

  lemma LinesPersist(w: World, s: Step)
    requires Enabled(w, s)
    ensures w.lines.Keys <= Apply(w, s).lines.Keys
    ensures forall id :: id in w.lines && w.lines[id].box.closed ==> Apply(w, s).lines[id].box.closed
  {
  }

  lemma SentPubOk(w: World, s: Step)
    requires s.Send? && Enabled(w, s) && PubOk(w.pubs[s.pub], w)
    ensures PubOk(Noted(w.pubs[s.pub], s.id, w.lines[s.id].box), w)
  {
  }

  lemma PubKept(w: World, s: Step, p: PubId)
    requires Enabled(w, s) && p in Apply(w, s).pubs && w.roster <= w.lines.Keys
    requires p in w.pubs ==> PubOk(w.pubs[p], w)
    ensures PubOk(Apply(w, s).pubs[p], Apply(w, s))
  {
    var v := Apply(w, s);
    PubsExtend(w, s);
    LinesPersist(w, s);
    if s.Send? && s.pub == p {
      SentPubOk(w, s);
      PubFrame(w, v, v.pubs[p]);
    } else if s.EndSend? && s.pub == p {
      PubFrame(w, v, w.pubs[p]);
    } else if s.Prune? && s.pub == p {
      PubFrame(w, v, w.pubs[p]);
    } else if p in w.pubs {
      PubFrame(w, v, w.pubs[p]);
    }
  }

  lemma PairKept(w: World, s: Step, p: PubId, id: Id)
    requires Enabled(w, s) && p in Apply(w, s).pubs && id in Apply(w, s).lines
    requires p in w.pubs ==> PubOk(w.pubs[p], w)
    requires id in w.lines ==> OffersOk(w.lines[id], w.pubs)
    requires p in w.pubs && id in w.lines ==> PairOk(p, w.pubs[p], id, w.lines[id])
    ensures PairOk(p, Apply(w, s).pubs[p], id, Apply(w, s).lines[id])
  {
    if s.Send? && s.id == id {
      OfferStep(w.lines[id], s.pub, w.pubs[s.pub].message, p);
    } else if s.Begin? && s.pub == p {
      NoOffersFromUnknown(w.lines[id], w.pubs, p);
    }
  }

  lemma RosterKept(w: World, s: Step)
    requires Enabled(w, s) && RosterOk(w)
    requires forall p :: p in w.pubs ==> PubOk(w.pubs[p], w)
    ensures RosterOk(Apply(w, s))
  {
    if s.Prune? { assert PubOk(w.pubs[s.pub], w); }
  }

  lemma StepKeepsInv(w: World, s: Step)
    requires Inv(w) && Enabled(w, s)
    ensures Inv(Apply(w, s))
  {
    var v := Apply(w, s);
    RosterKept(w, s);
    forall id | id in v.lines
      ensures LineOk(v.lines[id])
    {
      LineKept(w, s, id);
    }
    forall id | id in v.lines
      ensures OffersOk(v.lines[id], v.pubs)
    {
      OffersKept(w, s, id);
    }
    forall p | p in v.pubs
      ensures PubOk(v.pubs[p], v)
    {
      PubKept(w, s, p);
    }
    forall p, id | p in v.pubs && id in v.lines
      ensures PairOk(p, v.pubs[p], id, v.lines[id])
    {
      PairKept(w, s, p, id);
    }
  }

  // ---------- Runs ----------

  ghost predicate ValidRun(steps: seq<Step>)
    decreases |steps|, 0
  {
    steps != [] ==>
      ValidRun(steps[..|steps| - 1]) && Enabled(WorldAfter(steps[..|steps| - 1]), steps[|steps| - 1])
  }

  ghost function WorldAfter(steps: seq<Step>): World
    requires ValidRun(steps)
    decreases |steps|, 1
  {
    if steps == [] then START else Apply(WorldAfter(steps[..|steps| - 1]), steps[|steps| - 1])
  }

  lemma {:induction false} RunKeepsInv(steps: seq<Step>)
    requires ValidRun(steps)
    ensures Inv(WorldAfter(steps))
    decreases |steps|
  {
    if steps != [] {
      RunKeepsInv(steps[..|steps| - 1]);
      StepKeepsInv(WorldAfter(steps[..|steps| - 1]), steps[|steps| - 1]);
    }
  }

  /** Theorem: in every run, what a subscriber has received followed by what waits for it is the accepted offers in
      order, and while its receiver is there an offer is refused only when the channel held 64 messages. */
  lemma ReceivesInOrder(steps: seq<Step>, id: Id)
    requires ValidRun(steps) && id in WorldAfter(steps).lines
    ensures var l := WorldAfter(steps).lines[id];
            && l.box.received + l.box.queue == AcceptedMessages(l.offers)
            && (!l.box.closed ==>
                  forall i :: 0 <= i < |l.offers| ==> Accepted(l.offers[i]) || l.offers[i].queued == 64)
  {
    RunKeepsInv(steps);
  }

  /** Theorem: in every run, pruning removes no subscriber whose receiver is there: it stays until it unsubscribes. */
  lemma LiveSubscriberIsKept(steps: seq<Step>, id: Id)
    requires ValidRun(steps) && id in WorldAfter(steps).lines
    requires !WorldAfter(steps).lines[id].box.closed && id !in WorldAfter(steps).left
    ensures id in WorldAfter(steps).roster
  {
    RunKeepsInv(steps);
  }

  /** Theorem: a finished publication has offered its message exactly once to every subscriber that was there when it
      began and to nobody else, and it counts those that took it. */
  lemma OfferedOnceToAll(steps: seq<Step>, p: PubId)
    requires ValidRun(steps) && p in WorldAfter(steps).pubs && !WorldAfter(steps).pubs[p].phase.Sending?
    ensures var w := WorldAfter(steps); var pub := w.pubs[p];
            && (forall id :: id in w.lines ==> OffersFrom(w.lines[id].offers, p) == if id in pub.present then 1 else 0)
            && pub.delivered == |set id | id in w.lines && TookFrom(w.lines[id].offers, p)|
  {
    RunKeepsInv(steps);
    var w := WorldAfter(steps);
    var pub := w.pubs[p];
    assert PubOk(pub, w);
    forall id | id in w.lines
      ensures OffersFrom(w.lines[id].offers, p) == if id in pub.present then 1 else 0
      ensures TookFrom(w.lines[id].offers, p) <==> id in pub.taken
    {
      assert PairOk(p, pub, id, w.lines[id]);
    }
    assert pub.taken == set id | id in w.lines && TookFrom(w.lines[id].offers, p);
  }

  lemma {:induction false} PrefixIsValid(steps: seq<Step>, k: nat)
    requires ValidRun(steps) && k <= |steps|
    ensures ValidRun(steps[..k])
    decreases |steps|
  {
    if k < |steps| {
      PrefixIsValid(steps[..|steps| - 1], k);
      assert steps[..|steps| - 1][..k] == steps[..k];
    } else {
      assert steps[..k] == steps;
    }
  }

  /** Theorem: once a publication is done, every subscriber whose receiver it found gone is off the roster. */
  lemma DeadAreDropped(steps: seq<Step>, p: PubId, id: Id)
    requires ValidRun(steps) && p in WorldAfter(steps).pubs && WorldAfter(steps).pubs[p].phase.Done?
    requires id in WorldAfter(steps).lines && FoundClosed(WorldAfter(steps).lines[id].offers, p)
    ensures id !in WorldAfter(steps).roster
  {
    RunKeepsInv(steps);
    var w := WorldAfter(steps);
    assert PubOk(w.pubs[p], w) && PairOk(p, w.pubs[p], id, w.lines[id]);
  }

  /** A publication keeps what it began with: its message, the roster, and the publications that were over. */
  lemma {:induction false} KeepsItsBegin(steps: seq<Step>, k: nat, p: PubId)
    requires ValidRun(steps) && k < |steps| && steps[k].Begin? && steps[k].pub == p
    ensures ValidRun(steps[..k])
    ensures p in WorldAfter(steps).pubs
    ensures var pub, before := WorldAfter(steps).pubs[p], WorldAfter(steps[..k]);
            && pub.message == steps[k].message && pub.present == before.roster
            && forall q :: q in before.pubs && !before.pubs[q].phase.Sending? ==> q in pub.earlier
    decreases |steps|
  {
    var front := steps[..|steps| - 1];
    PrefixIsValid(steps, k);
    if k < |front| {
      KeepsItsBegin(front, k, p);
      assert front[..k] == steps[..k];
      PubsExtend(WorldAfter(front), steps[|front|]);
    } else {
      assert front == steps[..k];
    }
  }

  lemma {:induction false} SubscribersPersist(steps: seq<Step>, k: nat, id: Id)
    requires ValidRun(steps) && k <= |steps| && ValidRun(steps[..k]) && id in WorldAfter(steps[..k]).lines
    ensures id in WorldAfter(steps).lines
    decreases |steps|
  {
    if k < |steps| {
      var front := steps[..|steps| - 1];
      assert front[..k] == steps[..k];
      SubscribersPersist(front, k, id);
    } else {
      assert steps[..k] == steps;
    }
  }

  /** Theorem: whoever has subscribed before a publication begins, and has neither left nor lost its receiver by then,
      is offered the message exactly once, and nothing else by that publication, whatever subscribes, leaves, publishes
      or prunes meanwhile. */
  lemma NobodyIsForgotten(steps: seq<Step>, k: nat, p: PubId, id: Id)
    requires ValidRun(steps) && k < |steps| && steps[k].Begin? && steps[k].pub == p
    requires ValidRun(steps[..k]) && id in WorldAfter(steps[..k]).lines
    requires !WorldAfter(steps[..k]).lines[id].box.closed && id !in WorldAfter(steps[..k]).left
    ensures id in WorldAfter(steps).lines && p in WorldAfter(steps).pubs
    ensures !WorldAfter(steps).pubs[p].phase.Sending? ==> OffersFrom(WorldAfter(steps).lines[id].offers, p) == 1
    ensures forall o :: o in WorldAfter(steps).lines[id].offers && o.pub == p ==> o.message == steps[k].message
  {
    KeepsItsBegin(steps, k, p);
    LiveSubscriberIsKept(steps[..k], id);
    SubscribersPersist(steps, k, id);
    RunKeepsInv(steps);
    assert OffersOk(WorldAfter(steps).lines[id], WorldAfter(steps).pubs);
    if !WorldAfter(steps).pubs[p].phase.Sending? { OfferedOnceToAll(steps, p); }
  }

  /** Theorem: publications that do not overlap reach every subscriber in their order: if `q` was done with sending
      before `p` began, no offer of `q` comes after one of `p`. */
  lemma OrderOfPublications(steps: seq<Step>, k: nat, id: Id, p: PubId, q: PubId, i: nat, j: nat)
    requires ValidRun(steps) && id in WorldAfter(steps).lines
    requires k < |steps| && steps[k].Begin? && steps[k].pub == p
    requires ValidRun(steps[..k]) && q in WorldAfter(steps[..k]).pubs && !WorldAfter(steps[..k]).pubs[q].phase.Sending?
    requires var offers := WorldAfter(steps).lines[id].offers;
             i < |offers| && j < |offers| && offers[i].pub == p && offers[j].pub == q
    ensures j < i
  {
    KeepsItsBegin(steps, k, p);
    RunKeepsInv(steps);
    var l := WorldAfter(steps).lines[id];
    assert OffersOk(l, WorldAfter(steps).pubs);
    if i == j {
      NotEarlierThanItself(steps, p);
    }
  }

  lemma {:induction false} NotEarlierThanItself(steps: seq<Step>, p: PubId)
    requires ValidRun(steps) && p in WorldAfter(steps).pubs
    ensures p !in WorldAfter(steps).pubs[p].earlier
    decreases |steps|
  {
    var front := steps[..|steps| - 1];
    if p in WorldAfter(front).pubs {
      NotEarlierThanItself(front, p);
      PubsExtend(WorldAfter(front), steps[|front|]);
    }
  }

  // ---------- Progress ----------

  /** A step that a publish call takes by itself, whatever subscribers and receivers do. */
  predicate Publishing(s: Step) {
    s.Send? || s.EndSend? || s.Prune?
  }

  ghost predicate Continues(steps: seq<Step>, more: seq<Step>) {
    ValidRun(steps + more) && forall s :: s in more ==> Publishing(s)
  }

  function Senders(w: World): set<PubId> {
    set p | p in w.pubs && w.pubs[p].phase.Sending?
  }

  lemma OneMore(steps: seq<Step>, s: Step)
    requires ValidRun(steps) && Enabled(WorldAfter(steps), s) && Publishing(s)
    ensures Continues(steps, [s]) && WorldAfter(steps + [s]) == Apply(WorldAfter(steps), s)
  {
    assert (steps + [s])[..|steps|] == steps;
  }

  lemma Joined(steps: seq<Step>, s: Step, more: seq<Step>)
    requires Publishing(s) && Continues(steps + [s], more)
    ensures Continues(steps, [s] + more) && steps + ([s] + more) == steps + [s] + more
  {
    assert steps + ([s] + more) == steps + [s] + more;
  }

  lemma NextOfferIsEnabled(w: World, p: PubId, id: Id)
    requires Inv(w) && p in Senders(w) && id in w.pubs[p].todo
    ensures Enabled(w, Send(p, id))
  {
    assert PubOk(w.pubs[p], w);
  }

  lemma AfterOffer(w: World, p: PubId, id: Id)
    requires p in Senders(w) && id in w.pubs[p].todo && Enabled(w, Send(p, id))
    ensures var v := Apply(w, Send(p, id));
            v.pubs.Keys == w.pubs.Keys && Senders(v) == Senders(w) && v.pubs[p].todo < w.pubs[p].todo
  {
    var v := Apply(w, Send(p, id));
    assert v.pubs[p].todo == w.pubs[p].todo - {id};
  }

  lemma NextOffer(steps: seq<Step>, p: PubId, id: Id)
    requires ValidRun(steps) && p in Senders(WorldAfter(steps)) && id in WorldAfter(steps).pubs[p].todo
    ensures Continues(steps, [Send(p, id)])
    ensures WorldAfter(steps + [Send(p, id)]).pubs.Keys == WorldAfter(steps).pubs.Keys
    ensures Senders(WorldAfter(steps + [Send(p, id)])) == Senders(WorldAfter(steps))
    ensures WorldAfter(steps + [Send(p, id)]).pubs[p].todo < WorldAfter(steps).pubs[p].todo
  {
    var w := WorldAfter(steps);
    assert Enabled(w, Send(p, id)) by {
      RunKeepsInv(steps);
      NextOfferIsEnabled(w, p, id);
    }
    OneMore(steps, Send(p, id));
    AfterOffer(w, p, id);
  }

  lemma NoneLeft(steps: seq<Step>, p: PubId)
    requires ValidRun(steps) && p in Senders(WorldAfter(steps)) && WorldAfter(steps).pubs[p].todo == {}
    ensures Continues(steps, [EndSend(p)])
    ensures WorldAfter(steps + [EndSend(p)]).pubs.Keys == WorldAfter(steps).pubs.Keys
    ensures Senders(WorldAfter(steps + [EndSend(p)])) == Senders(WorldAfter(steps)) - {p}
  {
    OneMore(steps, EndSend(p));
  }

  /** A publication that sends can offer its message to all that are left, and be done with sending. */
  lemma {:induction false} SendingEnds(steps: seq<Step>, p: PubId) returns (more: seq<Step>)
    requires ValidRun(steps) && p in Senders(WorldAfter(steps))
    ensures Continues(steps, more)
    ensures WorldAfter(steps + more).pubs.Keys == WorldAfter(steps).pubs.Keys
    ensures Senders(WorldAfter(steps + more)) == Senders(WorldAfter(steps)) - {p}
    decreases WorldAfter(steps).pubs[p].todo
  {
    if WorldAfter(steps).pubs[p].todo == {} {
      more := [EndSend(p)];
      NoneLeft(steps, p);
    } else {
      var id :| id in WorldAfter(steps).pubs[p].todo;
      NextOffer(steps, p, id);
      var rest := SendingEnds(steps + [Send(p, id)], p);
      Joined(steps, Send(p, id), rest);
      more := [Send(p, id)] + rest;
    }
  }

  ghost predicate Finishes(steps: seq<Step>, more: seq<Step>, p: PubId) {
    Continues(steps, more) && p in WorldAfter(steps + more).pubs && WorldAfter(steps + more).pubs[p].phase.Done?
  }

  /** When nobody sends, a publication is done, or can take the write lock and prune. */
  lemma LockIsFree(steps: seq<Step>, p: PubId)
    requires ValidRun(steps) && p in WorldAfter(steps).pubs && Senders(WorldAfter(steps)) == {}
    ensures Finishes(steps, [], p) || Finishes(steps, [Prune(p)], p)
  {
    var w := WorldAfter(steps);
    assert forall q :: q in w.pubs && w.pubs[q].phase.Sending? ==> q in Senders(w);
    if w.pubs[p].phase.Done? {
      assert steps + [] == steps;
    } else {
      OneMore(steps, Prune(p));
    }
  }

  lemma FinishesLater(steps: seq<Step>, first: seq<Step>, more: seq<Step>, p: PubId)
    requires Continues(steps, first) && Finishes(steps + first, more, p)
    ensures Finishes(steps, first + more, p)
  {
    assert steps + (first + more) == steps + first + more;
  }

  /** Theorem: no publication is ever stuck: from every reachable world, publish calls alone can take their steps so
      that a given one is done. */
  lemma {:induction false} PublicationCanFinish(steps: seq<Step>, p: PubId)
    requires ValidRun(steps) && p in WorldAfter(steps).pubs
    ensures exists more :: Finishes(steps, more, p)
    decreases |Senders(WorldAfter(steps))|
  {
    if q :| q in Senders(WorldAfter(steps)) {
      var first := SendingEnds(steps, q);
      PublicationCanFinish(steps + first, p);
      var more :| Finishes(steps + first, more, p);
      FinishesLater(steps, first, more, p);
    } else {
      LockIsFree(steps, p);
    }
  }
}
