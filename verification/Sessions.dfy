/** Client sessions: a signed id with a fixed expiry, tracked in memory with the time of its last use. */
module Sessions {
  import opened Common

  /** A session id. A genuine one was signed with this manager's key. */
  datatype Token = Genuine(sub: nat, exp: nat) | Foreign(text: string)

  /** Times of the monotonic clock, in any unit of which there are `SECOND` to a second. */
  type Instant = nat

  const SECOND: nat := 1_000_000_000
  const LEEWAY: nat := 5

  datatype Session = Session(createdAt: Instant, lastActive: Instant, logLevel: Option<string>)

  type Table = map<Token, Session>

  /** One reading of both clocks: the monotonic one, and whole seconds of the wall clock. */
  datatype Clock = Clock(mono: Instant, wall: nat)

  function Elapsed(since: Instant, now: Instant): nat {
    if now > since then now - since else 0
  }

  /** `ttl` is in seconds. */
  predicate Live(s: Session, now: Instant, ttl: nat) {
    Elapsed(s.lastActive, now) < ttl * SECOND
  }

  /** The id's signature and expiry. */
  predicate Decodes(id: Token, wall: nat) {
    id.Genuine? && wall <= id.exp + LEEWAY
  }

  predicate Valid(table: Table, id: Token, now: Clock, ttl: nat) {
    Decodes(id, now.wall) && id in table && Live(table[id], now.mono, ttl)
  }

  function Touched(table: Table, id: Token, now: Instant): Table {
    if id in table then table[id := table[id].(lastActive := now)] else table
  }

  function Pruned(table: Table, now: Instant, ttl: nat): Table {
    map id | id in table && Live(table[id], now, ttl) :: table[id]
  }

  class SessionManager {
    const ttl: nat
    var sessions: Table

    constructor (ttl: nat)
      ensures this.ttl == ttl && sessions == map[]
    {
      this.ttl, sessions := ttl, map[];
    }

    /** `sub` is the fresh random subject. */
    method CreateSession(sub: nat, now: Clock) returns (id: Token)
      modifies this
      ensures id == Genuine(sub, now.wall + ttl)
      ensures sessions == old(sessions)[id := Session(now.mono, now.mono, None)]
    {
      id := Genuine(sub, now.wall + ttl);
      sessions := sessions[id := Session(now.mono, now.mono, None)];
    }

    method ValidateSession(id: Token, now: Clock) returns (valid: bool)
      ensures valid <==> Valid(sessions, id, now, ttl)
      ensures valid <==>
                && id.Genuine? && now.wall <= id.exp + 5 && id in sessions && ttl > 0
                && now.mono - sessions[id].lastActive < ttl * 1_000_000_000
    {
      if id.Foreign? || now.wall > id.exp + LEEWAY {
        return false;
      }
      if id in sessions {
        return Elapsed(sessions[id].lastActive, now.mono) < ttl * SECOND;
      }
      return false;
    }

    method TouchSession(id: Token, now: Instant)
      modifies this
      ensures sessions == Touched(old(sessions), id, now)
      ensures id in old(sessions) ==>
                sessions == old(sessions)[id := Session(old(sessions)[id].createdAt, now, old(sessions)[id].logLevel)]
      ensures id !in old(sessions) ==> sessions == old(sessions)
    {
      if id in sessions {
        sessions := sessions[id := sessions[id].(lastActive := now)];
      }
    }

    method TerminateSession(id: Token) returns (removed: bool)
      modifies this
      ensures removed <==> id in old(sessions)
      ensures sessions == old(sessions) - {id}
    {
      removed := id in sessions;
      sessions := sessions - {id};
    }

    method SetLogLevel(id: Token, level: string) returns (known: bool)
      modifies this
      ensures known <==> id in old(sessions)
      ensures sessions == Levelled(old(sessions), id, level)
      ensures known ==>
                var s := old(sessions)[id];
                sessions == old(sessions)[id := Session(s.createdAt, s.lastActive, Some(level))]
      ensures !known ==> sessions == old(sessions)
    {
      known := id in sessions;
      if known {
        sessions := sessions[id := sessions[id].(logLevel := Some(level))];
      }
    }

    method PruneExpired(now: Instant) returns (pruned: nat)
      modifies this
      ensures sessions == Pruned(old(sessions), now, ttl)
      ensures forall id :: id in sessions <==>
                && id in old(sessions) && ttl > 0 && now - old(sessions)[id].lastActive < ttl * 1_000_000_000
      ensures forall id :: id in sessions ==> sessions[id] == old(sessions)[id]
      ensures pruned == |old(sessions)| - |sessions|
    {
      var before := |sessions|;
      PrunedIsSmaller(sessions, now, ttl);
      sessions := map id | id in sessions && Elapsed(sessions[id].lastActive, now) < ttl * SECOND :: sessions[id];
      assert sessions == Pruned(old(sessions), now, ttl);
      pruned := before - |sessions|;
    }

    /** One event of a run, as the manager carries it out. */
    method Do(e: Event)
      modifies this
      ensures sessions == After(old(sessions), e, ttl)
    {
      match e.op {
        case Create(sub) => var _ := CreateSession(sub, e.now);
        case Validate(id) => var _ := ValidateSession(id, e.now);
        case Request(id) =>
          var valid := ValidateSession(id, e.now);
          if valid {
            TouchSession(id, e.now.mono);
          }
        case Touch(id) => TouchSession(id, e.now.mono);
        case Terminate(id) => var _ := TerminateSession(id);
        case SetLevel(id, level) => var _ := SetLogLevel(id, level);
        case Prune => var _ := PruneExpired(e.now.mono);
      }
    }

    /** The gate in front of every request that names a session. It lets go of the table between validation and
        touch, so that the events `between` may come in between. */
    method Admit(id: Token, now: Clock, between: seq<Event>, later: Instant) returns (admitted: bool)
      modifies this
      ensures admitted <==> Valid(old(sessions), id, now, ttl)
      ensures sessions == if admitted then Touched(TableAfter(between, ttl, old(sessions)), id, later)
                          else old(sessions)
    {
      admitted := ValidateSession(id, now);
      if !admitted {
        return;
      }
      for i := 0 to |between|
        invariant sessions == TableAfter(between[..i], ttl, old(sessions))
      {
        assert between[..i + 1][..i] == between[..i];
        Do(between[i]);
      }
      assert between[..|between|] == between;
      TouchSession(id, later);
    }
  }

  function Levelled(table: Table, id: Token, level: string): Table {
    if id in table then table[id := table[id].(logLevel := Some(level))] else table
  }

  lemma PrunedIsSmaller(table: Table, now: Instant, ttl: nat)
    ensures |Pruned(table, now, ttl)| <= |table|
  {
    SubsetIsSmaller(Pruned(table, now, ttl).Keys, table.Keys);
  }

  lemma {:induction false} SubsetIsSmaller<T>(a: set<T>, b: set<T>)
    requires a <= b
    ensures |a| <= |b|
    decreases |a|
  {
    if a != {} {
      var x :| x in a;
      SubsetIsSmaller(a - {x}, b - {x});
    }
  }

  // ---------- Runs ----------

  /** `Request` validates and, if that succeeds, touches at once; `Touch` alone is a touch that comes later. */
  datatype Op =
    | Create(sub: nat)
    | Validate(id: Token)
    | Request(id: Token)
    | Touch(id: Token)
    | Terminate(id: Token)
    | SetLevel(id: Token, level: string)
    | Prune

  datatype Event = Event(op: Op, now: Clock)

  function After(table: Table, e: Event, ttl: nat): Table {
    match e.op
    case Create(sub) => table[Genuine(sub, e.now.wall + ttl) := Session(e.now.mono, e.now.mono, None)]
    case Validate(_) => table
    case Request(id) => if Valid(table, id, e.now, ttl) then Touched(table, id, e.now.mono) else table
    case Touch(id) => Touched(table, id, e.now.mono)
    case Terminate(id) => table - {id}
    case SetLevel(id, level) => Levelled(table, id, level)
    case Prune => Pruned(table, e.now.mono, ttl)
  }

  function TableAfter(es: seq<Event>, ttl: nat, start: Table := map[]): Table {
    if es == [] then start else After(TableAfter(es[..|es| - 1], ttl, start), es[|es| - 1], ttl)
  }

  /** The answers given to all validations, in order. */
  function Answers(es: seq<Event>, ttl: nat): seq<bool> {
    if es == [] then []
    else
      var front, last := es[..|es| - 1], es[|es| - 1];
      Answers(front, ttl)
      + (if last.op.Validate? || last.op.Request?
         then [Valid(TableAfter(front, ttl), last.op.id, last.now, ttl)] else [])
  }

  function WithoutPrunes(es: seq<Event>): seq<Event> {
    if es == [] then []
    else
      var front, last := WithoutPrunes(es[..|es| - 1]), es[|es| - 1];
      if last.op.Prune? then front else front + [last]
  }

  /** The monotonic clock does not run backwards. The wall clock may. */
  predicate Ordered(es: seq<Event>) {
    forall i, j :: 0 <= i < j < |es| ==> es[i].now.mono <= es[j].now.mono
  }

  /** No late touch finds a session that has expired but is still tracked. */
  predicate TouchesLive(es: seq<Event>, ttl: nat) {
    es != [] ==>
      var front, last := es[..|es| - 1], es[|es| - 1];
      var table := TableAfter(front, ttl);
      && TouchesLive(front, ttl)
      && (last.op.Touch? && last.op.id in table ==> Live(table[last.op.id], last.now.mono, ttl))
  }

  /** The two tables agree on every session that is live at `now`, and from then on. */
  predicate AgreeOnLive(full: Table, pruned: Table, now: Instant, ttl: nat) {
    && (forall id :: id in pruned ==> id in full && full[id] == pruned[id])
    && (forall id :: id in full && Live(full[id], now, ttl) ==> id in pruned)
  }

  lemma AgreeLater(full: Table, pruned: Table, now: Instant, later: Instant, ttl: nat)
    requires AgreeOnLive(full, pruned, now, ttl) && now <= later
    ensures AgreeOnLive(full, pruned, later, ttl)
  {
  }

  lemma StepAgrees(full: Table, pruned: Table, e: Event, ttl: nat)
    requires AgreeOnLive(full, pruned, e.now.mono, ttl)
    requires e.op.Touch? && e.op.id in full ==> Live(full[e.op.id], e.now.mono, ttl)
    ensures !e.op.Prune? ==> AgreeOnLive(After(full, e, ttl), After(pruned, e, ttl), e.now.mono, ttl)
    ensures e.op.Prune? ==> AgreeOnLive(full, After(pruned, e, ttl), e.now.mono, ttl)
    ensures e.op.Validate? || e.op.Request? ==>
              (Valid(full, e.op.id, e.now, ttl) <==> Valid(pruned, e.op.id, e.now, ttl))
  {
  }

  lemma {:induction false} PrefixOrdered(es: seq<Event>)
    requires es != [] && Ordered(es)
    ensures Ordered(es[..|es| - 1])
    ensures |es| > 1 ==> es[|es| - 2].now.mono <= es[|es| - 1].now.mono
  {
  }

  lemma AppendOne(es: seq<Event>, e: Event, ttl: nat)
    ensures TableAfter(es + [e], ttl) == After(TableAfter(es, ttl), e, ttl)
    ensures WithoutPrunes(es + [e]) == if e.op.Prune? then WithoutPrunes(es) else WithoutPrunes(es) + [e]
    ensures Answers(es + [e], ttl)
            == Answers(es, ttl)
               + (if e.op.Validate? || e.op.Request? then [Valid(TableAfter(es, ttl), e.op.id, e.now, ttl)] else [])
    ensures TouchesLive(es + [e], ttl) <==>
              && TouchesLive(es, ttl)
              && (e.op.Touch? && e.op.id in TableAfter(es, ttl) ==> Live(TableAfter(es, ttl)[e.op.id], e.now.mono, ttl))
  {
    assert (es + [e])[..|es|] == es;
  }

  lemma {:induction false} TablesAgree(es: seq<Event>, ttl: nat, now: Instant)
    requires Ordered(es) && TouchesLive(WithoutPrunes(es), ttl)
    requires es != [] ==> es[|es| - 1].now.mono <= now
    ensures AgreeOnLive(TableAfter(WithoutPrunes(es), ttl), TableAfter(es, ttl), now, ttl)
    decreases |es|
  {
    if es != [] {
      var front, last := es[..|es| - 1], es[|es| - 1];
      PrefixOrdered(es);
      if !last.op.Prune? { AppendOne(WithoutPrunes(front), last, ttl); }
      TablesAgree(front, ttl, last.now.mono);
      StepAgrees(TableAfter(WithoutPrunes(front), ttl), TableAfter(front, ttl), last, ttl);
      AgreeLater(TableAfter(WithoutPrunes(es), ttl), TableAfter(es, ttl), last.now.mono, now, ttl);
    }
  }

  /** Theorem: prunes, inserted anywhere, change no validation answer, as long as no touch finds a session that
      has already expired. */
  lemma {:induction false} PruningIsInvisible(es: seq<Event>, ttl: nat)
    requires Ordered(es) && TouchesLive(WithoutPrunes(es), ttl)
    ensures Answers(es, ttl) == Answers(WithoutPrunes(es), ttl)
    decreases |es|
  {
    if es != [] {
      var front, last := es[..|es| - 1], es[|es| - 1];
      PrefixOrdered(es);
      if !last.op.Prune? { AppendOne(WithoutPrunes(front), last, ttl); }
      PruningIsInvisible(front, ttl);
      TablesAgree(front, ttl, last.now.mono);
      StepAgrees(TableAfter(WithoutPrunes(front), ttl), TableAfter(front, ttl), last, ttl);
    }
  }

  predicate Atomic(es: seq<Event>) {
    forall i :: 0 <= i < |es| ==> !es[i].op.Touch?
  }

  lemma {:induction false} AtomicTouchesAreLive(es: seq<Event>, ttl: nat)
    requires Atomic(es)
    ensures Atomic(WithoutPrunes(es)) && TouchesLive(WithoutPrunes(es), ttl)
    decreases |es|
  {
    if es != [] {
      var front, last := es[..|es| - 1], es[|es| - 1];
      AtomicTouchesAreLive(front, ttl);
      if !last.op.Prune? { AppendOne(WithoutPrunes(front), last, ttl); }
    }
  }

  /** Theorem: if every request validates and touches in one step, no prune is ever noticed. */
  lemma AtomicRequestsHidePruning(es: seq<Event>, ttl: nat)
    requires Ordered(es) && Atomic(es)
    ensures Answers(es, ttl) == Answers(WithoutPrunes(es), ttl)
  {
    AtomicTouchesAreLive(es, ttl);
    PruningIsInvisible(es, ttl);
  }

  /** A touch that comes late revives the session. */
  lemma LateTouchRevives(es: seq<Event>, touch: Event, validate: Event, id: Token, ttl: nat)
    requires ttl > 0 && id in TableAfter(es, ttl) && touch.op == Touch(id)
    requires validate == Event(Validate(id), Clock(touch.now.mono, 0))
    ensures Answers(es + [touch] + [validate], ttl) == Answers(es, ttl) + [true]
  {
    TrackedOrigin(es, id, ttl);
    AppendOne(es, touch, ttl);
    AppendOne(es + [touch], validate, ttl);
  }

  /** Unless a prune comes first. */
  lemma PrunePreventsRevival(es: seq<Event>, prune: Event, touch: Event, validate: Event, id: Token, ttl: nat)
    requires id in TableAfter(es, ttl) && !Live(TableAfter(es, ttl)[id], touch.now.mono, ttl)
    requires touch.op == Touch(id) && prune == Event(Prune, touch.now) && validate.op == Validate(id)
    ensures Answers(es + [prune] + [touch] + [validate], ttl) == Answers(es, ttl) + [false]
  {
    AppendOne(es, prune, ttl);
    AppendOne(es + [prune], touch, ttl);
    AppendOne(es + [prune] + [touch], validate, ttl);
  }

  /** The gate does not hold the lock between the two, so a touch may come late. Then a prune just before it is noticed
      by the next validation, whatever has happened before. */
  lemma LateTouchIsNoticed(es: seq<Event>, prune: Event, touch: Event, validate: Event, id: Token, ttl: nat)
    requires ttl > 0 && id in TableAfter(es, ttl) && !Live(TableAfter(es, ttl)[id], touch.now.mono, ttl)
    requires touch.op == Touch(id) && prune == Event(Prune, touch.now)
    requires validate == Event(Validate(id), Clock(touch.now.mono, 0))
    ensures Answers(es + [prune] + [touch] + [validate], ttl) == Answers(es, ttl) + [false]
    ensures Answers(es + [touch] + [validate], ttl) == Answers(es, ttl) + [true]
  {
    LateTouchRevives(es, touch, validate, id, ttl);
    PrunePreventsRevival(es, prune, touch, validate, id, ttl);
  }

  /** However prunes are put into the first events of this run, no validation that follows answers differently. */
  ghost predicate PruningGoesUnnoticed(es: seq<Event>, ttl: nat) {
    forall k: nat, fs: seq<Event>, v: Event ::
      k <= |es| && v.op.Validate? && Ordered(fs + [v]) && WithoutPrunes(fs) == es[..k] ==>
        Answers(fs + [v], ttl) == Answers(es[..k] + [v], ttl)
  }

  predicate PruneFree(es: seq<Event>) {
    forall i :: 0 <= i < |es| ==> !es[i].op.Prune?
  }

  lemma {:induction false} TouchesLivePrefix(es: seq<Event>, k: nat, ttl: nat)
    requires TouchesLive(es, ttl) && k <= |es|
    ensures TouchesLive(es[..k], ttl)
    decreases |es|
  {
    if k < |es| {
      TouchesLivePrefix(es[..|es| - 1], k, ttl);
      assert es[..|es| - 1][..k] == es[..k];
    } else {
      assert es[..k] == es;
    }
  }

  lemma {:induction false} FirstLateTouch(es: seq<Event>, ttl: nat) returns (k: nat)
    requires !TouchesLive(es, ttl)
    ensures k < |es| && es[k].op.Touch? && es[k].op.id in TableAfter(es[..k], ttl)
    ensures !Live(TableAfter(es[..k], ttl)[es[k].op.id], es[k].now.mono, ttl)
    decreases |es|
  {
    var front := es[..|es| - 1];
    if TouchesLive(front, ttl) {
      k := |es| - 1;
    } else {
      k := FirstLateTouch(front, ttl);
      assert front[..k] == es[..k];
    }
  }

  lemma {:induction false} PruneFreeStays(es: seq<Event>)
    requires PruneFree(es)
    ensures WithoutPrunes(es) == es
    decreases |es|
  {
    if es != [] { PruneFreeStays(es[..|es| - 1]); }
  }

  lemma LiveTouchesHide(es: seq<Event>, ttl: nat, k: nat, fs: seq<Event>, v: Event)
    requires TouchesLive(es, ttl) && k <= |es| && v.op.Validate?
    requires Ordered(fs + [v]) && WithoutPrunes(fs) == es[..k]
    ensures Answers(fs + [v], ttl) == Answers(es[..k] + [v], ttl)
  {
    TouchesLivePrefix(es, k, ttl);
    AppendOne(fs, v, ttl);
    AppendOne(es[..k], v, ttl);
    PruningIsInvisible(fs + [v], ttl);
  }

  lemma LateTouchShows(es: seq<Event>, ttl: nat, k: nat)
    requires ttl > 0 && Ordered(es) && PruneFree(es) && k < |es| && es[k].op.Touch?
    requires es[k].op.id in TableAfter(es[..k], ttl)
    requires !Live(TableAfter(es[..k], ttl)[es[k].op.id], es[k].now.mono, ttl)
    ensures !PruningGoesUnnoticed(es, ttl)
  {
    var id, touch := es[k].op.id, es[k];
    var prune, v := Event(Prune, touch.now), Event(Validate(id), Clock(touch.now.mono, 0));
    var fs := es[..k] + [prune] + [touch];
    LateTouchIsNoticed(es[..k], prune, touch, v, id, ttl);
    assert Answers(fs + [v], ttl)[|Answers(es[..k], ttl)|] == false;
    assert Answers(es[..k] + [touch] + [v], ttl)[|Answers(es[..k], ttl)|] == true;
    assert es[..k + 1] == es[..k] + [touch];
    PrunedPrefix(es, k, prune, v);
  }

  /** The prefix up to the touch with the prune put in is an ordered run, and the prefix again without it. */
  lemma PrunedPrefix(es: seq<Event>, k: nat, prune: Event, v: Event)
    requires Ordered(es) && PruneFree(es) && k < |es|
    requires prune.op.Prune? && prune.now == es[k].now && v.now.mono == es[k].now.mono
    ensures Ordered(es[..k] + [prune] + [es[k]] + [v])
    ensures WithoutPrunes(es[..k] + [prune] + [es[k]]) == es[..k + 1]
  {
    PruneFreeStays(es[..k]);
    AppendOne(es[..k], prune, 0);
    AppendOne(es[..k] + [prune], es[k], 0);
    assert es[..k + 1] == es[..k] + [es[k]];
    OrderedAppend(es[..k], prune);
    OrderedAppend(es[..k] + [prune], es[k]);
    OrderedAppend(es[..k] + [prune] + [es[k]], v);
  }

  lemma OrderedAppend(es: seq<Event>, e: Event)
    requires Ordered(es) && (es != [] ==> es[|es| - 1].now.mono <= e.now.mono)
    ensures Ordered(es + [e])
  {
    forall i | 0 <= i < |es|
      ensures es[i].now.mono <= e.now.mono
    {
      assert i < |es| - 1 ==> es[i].now.mono <= es[|es| - 1].now.mono;
    }
  }

  /** Theorem: prunes go unnoticed in a run exactly when no touch in it finds a session that has expired. */
  lemma PruningUnnoticedIff(es: seq<Event>, ttl: nat)
    requires ttl > 0 && Ordered(es) && PruneFree(es)
    ensures PruningGoesUnnoticed(es, ttl) <==> TouchesLive(es, ttl)
  {
    if TouchesLive(es, ttl) {
      forall k: nat, fs: seq<Event>, v: Event |
        k <= |es| && v.op.Validate? && Ordered(fs + [v]) && WithoutPrunes(fs) == es[..k]
        ensures Answers(fs + [v], ttl) == Answers(es[..k] + [v], ttl)
      {
        LiveTouchesHide(es, ttl, k, fs, v);
      }
    } else {
      var k := FirstLateTouch(es, ttl);
      LateTouchShows(es, ttl, k);
    }
  }

  /** With a ttl of zero nothing is ever valid, so prunes go unnoticed whatever is touched. */
  lemma {:induction false} ZeroTtlHidesPruning(es: seq<Event>, ttl: nat)
    requires ttl == 0
    ensures Answers(es, ttl) == Answers(WithoutPrunes(es), ttl)
    ensures true !in Answers(es, ttl)
    decreases |es|
  {
    if es != [] {
      var front, last := es[..|es| - 1], es[|es| - 1];
      ZeroTtlHidesPruning(front, ttl);
      if !last.op.Prune? { AppendOne(WithoutPrunes(front), last, ttl); }
    }
  }

  // ---------- What a valid answer means ----------

  predicate Creates(e: Event, id: Token, ttl: nat) {
    e.op.Create? && id == Genuine(e.op.sub, e.now.wall + ttl)
  }

  /** The session was created at event `c` and has not been terminated since. */
  predicate OpenSince(es: seq<Event>, id: Token, c: nat, ttl: nat)
    requires c < |es|
  {
    Creates(es[c], id, ttl) && forall k :: c < k < |es| ==> es[k].op != Terminate(id)
  }

  /** Event `a` used the session. */
  predicate Uses(e: Event, id: Token, ttl: nat) {
    Creates(e, id, ttl) || e.op == Request(id) || e.op == Touch(id)
  }

  lemma {:induction false} TrackedOrigin(es: seq<Event>, id: Token, ttl: nat)
    requires id in TableAfter(es, ttl)
    ensures exists c: nat :: c < |es| && OpenSince(es, id, c, ttl)
    ensures exists a: nat :: a < |es| && Uses(es[a], id, ttl) && TableAfter(es, ttl)[id].lastActive == es[a].now.mono
    decreases |es|
  {
    var n := |es| - 1;
    var front, last := es[..n], es[n];
    if Creates(last, id, ttl) {
      assert OpenSince(es, id, n, ttl);
    } else {
      TrackedOrigin(front, id, ttl);
      var c: nat :| c < n && OpenSince(front, id, c, ttl);
      assert OpenSince(es, id, c, ttl);
      var a: nat :| a < n && Uses(front[a], id, ttl) && TableAfter(front, ttl)[id].lastActive == front[a].now.mono;
      if TableAfter(es, ttl)[id].lastActive == TableAfter(front, ttl)[id].lastActive {
        assert Uses(es[a], id, ttl);
      } else {
        assert Uses(es[n], id, ttl);
      }
    }
  }

  /** Theorem: a valid answer means that the session was created and not terminated since, that it was used less than
      the ttl ago, and that the wall clock has not passed creation + ttl + leeway, however often it was touched. */
  lemma ValidMeansOpenAndRecent(es: seq<Event>, id: Token, now: Clock, ttl: nat)
    requires Valid(TableAfter(es, ttl), id, now, ttl)
    ensures exists c: nat :: c < |es| && OpenSince(es, id, c, ttl) && now.wall <= es[c].now.wall + ttl + LEEWAY
    ensures exists a: nat :: a < |es| && Uses(es[a], id, ttl) && Elapsed(es[a].now.mono, now.mono) < ttl * SECOND
  {
    TrackedOrigin(es, id, ttl);
    var c: nat :| c < |es| && OpenSince(es, id, c, ttl);
    assert now.wall <= es[c].now.wall + ttl + LEEWAY;
  }

  /** No two creations draw the same subject. */
  predicate FreshSubjects(es: seq<Event>) {
    forall i, j :: 0 <= i < j < |es| && es[i].op.Create? && es[j].op.Create? ==> es[i].op.sub != es[j].op.sub
  }

  /** Theorem: a session that was terminated is never valid again. */
  lemma TerminatedIsFinal(es: seq<Event>, id: Token, c: nat, i: nat, now: Clock, ttl: nat)
    requires FreshSubjects(es) && c < i < |es|
    requires Creates(es[c], id, ttl) && es[i].op == Terminate(id)
    ensures !Valid(TableAfter(es, ttl), id, now, ttl)
  {
    forall d: nat | d < |es|
      ensures !OpenSince(es, id, d, ttl)
    {
      assert Creates(es[d], id, ttl) ==> d == c;
    }
    if id in TableAfter(es, ttl) { TrackedOrigin(es, id, ttl); }
  }

  /** Without prunes, what is created and not terminated stays tracked. */
  lemma {:induction false} OpenIsTracked(es: seq<Event>, id: Token, c: nat, ttl: nat)
    requires c < |es| && OpenSince(es, id, c, ttl)
    requires forall i :: 0 <= i < |es| ==> !es[i].op.Prune?
    ensures id in TableAfter(es, ttl)
    decreases |es|
  {
    if c < |es| - 1 { OpenIsTracked(es[..|es| - 1], id, c, ttl); }
  }

  // ---------- Exactly when a session is valid ----------

  /** The token of the session created by this event. */
  predicate CreatesToken(e: Event, id: Token, ttl: nat) {
    e.op.Create? && id.Genuine? && id.sub == e.op.sub && id.exp == e.now.wall + ttl
  }

  /** Less than the ttl, in seconds, has passed between two moments. */
  predicate Recent(since: Clock, now: Clock, ttl: nat) {
    now.mono - since.mono < ttl * 1_000_000_000
  }

  /** Creation + ttl + 5 seconds has not passed on the wall clock. */
  predicate InTime(created: Clock, now: Clock, ttl: nat) {
    now.wall <= created.wall + ttl + 5
  }

  /** From its creation at `c` the session was used again and again up to `a`, each time less than the ttl after the use
      before and in time. */
  ghost predicate UsedUpTo(es: seq<Event>, id: Token, c: nat, a: nat, ttl: nat)
    requires c <= a < |es|
    decreases a
  {
    CreatesToken(es[c], id, ttl) &&
    (a == c ||
     (es[a].op == Request(id) && InTime(es[c].now, es[a].now, ttl) && UsedBefore(es, id, c, a, ttl)))
  }

  ghost predicate UsedBefore(es: seq<Event>, id: Token, c: nat, a: nat, ttl: nat)
    requires c <= a < |es|
    decreases a, 0
  {
    exists b: nat :: c <= b < a && UsedUpTo(es, id, c, b, ttl) && Recent(es[b].now, es[a].now, ttl)
  }

  /** Nothing terminated the session after its creation. */
  predicate NotTerminated(es: seq<Event>, id: Token, c: nat) {
    forall k :: c < k < |es| ==> es[k].op != Terminate(id)
  }

  /** The session has been kept up to now. */
  ghost predicate KeptUp(es: seq<Event>, id: Token, c: nat, a: nat, now: Clock, ttl: nat) {
    && c <= a < |es| && UsedUpTo(es, id, c, a, ttl) && NotTerminated(es, id, c)
    && Recent(es[a].now, now, ttl) && InTime(es[c].now, now, ttl)
  }

  predicate NotBefore(es: seq<Event>, now: Clock) {
    forall i :: 0 <= i < |es| ==> es[i].now.mono <= now.mono
  }

  lemma {:induction false} UsedInLonger(es: seq<Event>, more: seq<Event>, id: Token, c: nat, a: nat, ttl: nat)
    requires c <= a < |es| && UsedUpTo(es, id, c, a, ttl) && es <= more
    ensures UsedUpTo(more, id, c, a, ttl)
    decreases a
  {
    if a != c {
      var b: nat :| c <= b < a && UsedUpTo(es, id, c, b, ttl) && Recent(es[b].now, es[a].now, ttl);
      UsedInLonger(es, more, id, c, b, ttl);
      assert UsedBefore(more, id, c, a, ttl);
    }
  }

  /** A tracked session was last used at the end of such a chain. */
  lemma {:induction false} TrackedIsUsed(es: seq<Event>, id: Token, ttl: nat) returns (c: nat, a: nat)
    requires Ordered(es) && Atomic(es) && id in TableAfter(es, ttl)
    ensures c <= a < |es| && UsedUpTo(es, id, c, a, ttl) && NotTerminated(es, id, c)
    ensures TableAfter(es, ttl)[id].lastActive == es[a].now.mono
    decreases |es|
  {
    var n := |es| - 1;
    var front, last := es[..n], es[n];
    if Creates(last, id, ttl) {
      c, a := n, n;
    } else {
      PrefixOrdered(es);
      c, a := TrackedIsUsed(front, id, ttl);
      UsedInLonger(front, es, id, c, a, ttl);
      if last.op == Request(id) && Valid(TableAfter(front, ttl), id, last.now, ttl) {
        assert Recent(es[a].now, last.now, ttl) && InTime(es[c].now, last.now, ttl);
        assert UsedBefore(es, id, c, n, ttl);
        a := n;
      }
    }
  }

  /** While it is young enough, no event but a termination or a new creation takes a session out of the table. */
  lemma StaysTracked(es: seq<Event>, id: Token, e: Event, since: Clock, ttl: nat)
    requires Atomic([e]) && id in TableAfter(es, ttl) && since.mono <= TableAfter(es, ttl)[id].lastActive <= e.now.mono
    requires e.op != Terminate(id) && !Creates(e, id, ttl) && Recent(since, e.now, ttl)
    ensures id in TableAfter(es + [e], ttl)
    ensures since.mono <= TableAfter(es + [e], ttl)[id].lastActive <= e.now.mono
  {
    AppendOne(es, e, ttl);
    assert [e][0] == e;
  }

  /** At the end of a chain the session is tracked, as last used there. */
  lemma {:induction false} UsedIsTracked(es: seq<Event>, id: Token, c: nat, a: nat, ttl: nat)
    requires Ordered(es) && Atomic(es) && FreshSubjects(es)
    requires c <= a < |es| && UsedUpTo(es, id, c, a, ttl) && forall k :: c < k <= a ==> es[k].op != Terminate(id)
    ensures id in TableAfter(es[..a + 1], ttl) && TableAfter(es[..a + 1], ttl)[id].lastActive == es[a].now.mono
    decreases a
  {
    assert es[..a + 1] == es[..a] + [es[a]];
    AppendOne(es[..a], es[a], ttl);
    if a != c {
      var b: nat :| c <= b < a && UsedUpTo(es, id, c, b, ttl) && Recent(es[b].now, es[a].now, ttl);
      UsedIsTracked(es, id, c, b, ttl);
      TrackedUntil(es, id, c, b, a, es[a].now, ttl);
    }
  }

  /** From its last use the session stays tracked as long as the time does not run out. */
  lemma {:induction false} TrackedUntil(es: seq<Event>, id: Token, c: nat, b: nat, j: nat, now: Clock, ttl: nat)
    requires Ordered(es) && Atomic(es) && FreshSubjects(es)
    requires c <= b < j <= |es| && CreatesToken(es[c], id, ttl)
    requires forall k :: c < k < j ==> es[k].op != Terminate(id)
    requires forall k :: 0 <= k < j ==> es[k].now.mono <= now.mono
    requires Recent(es[b].now, now, ttl)
    requires id in TableAfter(es[..b + 1], ttl) && TableAfter(es[..b + 1], ttl)[id].lastActive == es[b].now.mono
    ensures id in TableAfter(es[..j], ttl)
    ensures es[b].now.mono <= TableAfter(es[..j], ttl)[id].lastActive <= es[j - 1].now.mono
    decreases j
  {
    if j > b + 1 {
      TrackedUntil(es, id, c, b, j - 1, now, ttl);
      assert es[..j] == es[..j - 1] + [es[j - 1]];
      assert [es[j - 1]][0] == es[j - 1];
      assert es[j - 2].now.mono <= es[j - 1].now.mono;
      StaysTracked(es[..j - 1], id, es[j - 1], es[b].now, ttl);
    }
  }

  /** Theorem: in a run whose requests validate and touch in one step, whenever prunes come, a session is valid exactly
      when it was created, not terminated since, has been used again and again within the ttl up to now, and creation +
      ttl + 5 seconds has not passed. */
  lemma ValidExactlyWhenKeptUp(es: seq<Event>, id: Token, now: Clock, ttl: nat)
    requires Ordered(es) && Atomic(es) && FreshSubjects(es) && NotBefore(es, now)
    ensures Valid(TableAfter(es, ttl), id, now, ttl) <==> exists c: nat, a: nat :: KeptUp(es, id, c, a, now, ttl)
  {
    if Valid(TableAfter(es, ttl), id, now, ttl) {
      var c, a := TrackedIsUsed(es, id, ttl);
      assert KeptUp(es, id, c, a, now, ttl);
    }
    forall c: nat, a: nat | KeptUp(es, id, c, a, now, ttl)
      ensures Valid(TableAfter(es, ttl), id, now, ttl)
    {
      UsedIsTracked(es, id, c, a, ttl);
      TrackedUntil(es, id, c, a, |es|, now, ttl);
      assert es[..|es|] == es;
    }
  }
}
