/** The life of pooled backend connections: created, checked out, authenticated, used, returned and
    recycled, by any number of sessions in any order. */
module Pool {
  import opened ByteStrings

  datatype Phase = NoPhase | Connection | Command

  // ---------- one connection ----------

  /** The decision of `recycle`. */
  predicate Recyclable(phase: Option<Phase>)
  {
    phase != Some(Connection)
  }

  /** The branch of `connect`: a connection in the command phase is re-authenticated with
      COM_CHANGE_USER, any other is taken through the handshake, which begins by reading the
      backend's greeting. */
  predicate NeedsHandshake(phase: Option<Phase>)
  {
    phase != Some(Command)
  }

  class PooledConn {
    var phase: Option<Phase>

    constructor ()
      ensures phase == None
    {
      phase := None;
    }

    method Recycle() returns (ok: bool)
      ensures ok == Recyclable(phase) && (ok <==> phase != Some(Connection))
    {
      if phase.None? {
        return true;
      }
      match phase.value
      case Connection => return false;
      case _ => return true;
    }

    method UpdateConnLifeCycle(p: Phase)
      modifies this
      ensures phase == Some(p)
    {
      phase := Some(p);
    }
  }

  // ---------- a pool of them ----------

  type Id = nat

  /** `ChangeAsked` and `ChangeSettled` are a COM_CHANGE_USER in the middle of a session and the backend's
      verdict on it. */
  datatype Event =
    | Created(id: Id)
    | HandedOut(id: Id)
    | Discarded(id: Id)
    | GreetingRead(id: Id)
    | ContinuedAuth(id: Id)
    | Verdict(id: Id, ok: bool)
    | Forwarded(id: Id)
    | ChangeAsked(id: Id)
    | ChangeSettled(id: Id, ok: bool)
    | Returned(id: Id)
    | Abandoned(id: Id)

  datatype Place = Idle | Held | Authenticating | Serving | Changing | Gone

  datatype Conn = Conn(phase: Option<Phase>, place: Place)

  type State = map<Id, Conn>

  /** The next connection, if the event can happen to it. Idle connections are recycled when they are asked
      for; one that is refused is discarded. A failed authentication returns its connection at once, and so
      does a refused COM_CHANGE_USER, which leaves the phase alone. A session may end, and return its
      connection, in the middle of a COM_CHANGE_USER. A connection is abandoned when the task that holds it
      panics or is cancelled: it goes back to the pool as it is. */
  function Next(c: Conn, e: Event): Option<Conn>
  {
    match e
    case Created(_) => None
    case HandedOut(_) => if c.place == Idle && Recyclable(c.phase) then Some(c.(place := Held)) else None
    case Discarded(_) => if c.place == Idle && !Recyclable(c.phase) then Some(c.(place := Gone)) else None
    case GreetingRead(_) =>
      if c.place == Held && NeedsHandshake(c.phase) then Some(c.(place := Authenticating)) else None
    case ContinuedAuth(_) =>
      if c.place == Held && !NeedsHandshake(c.phase) then Some(c.(place := Authenticating)) else None
    case Verdict(_, ok) =>
      if c.place != Authenticating then None
      else Some(if ok then Conn(Some(Command), Serving) else Conn(Some(Connection), Idle))
    case Forwarded(_) => if c.place == Serving then Some(c) else None
    case ChangeAsked(_) => if c.place == Serving then Some(c.(place := Changing)) else None
    case ChangeSettled(_, ok) =>
      if c.place == Changing then Some(c.(place := if ok then Serving else Idle)) else None
    case Returned(_) => if c.place in {Serving, Changing, Held} then Some(c.(place := Idle)) else None
    case Abandoned(_) => if c.place in {Idle, Gone} then None else Some(c.(place := Idle))
  }

  function Apply(s: State, e: Event): Option<State>
  {
    if e.Created? then (if e.id in s then None else Some(s[e.id := Conn(None, Held)]))
    else if e.id !in s then None
    else match Next(s[e.id], e) case None => None case Some(c) => Some(s[e.id := c])
  }

  /** The state an empty pool reaches by a sequence of events, if it can make them. */
  function Run(es: seq<Event>): Option<State>
  {
    if es == [] then Some(map[]) else
    match Run(es[..|es| - 1])
    case Some(s) => Apply(s, es[|es| - 1])
    case None => None
  }

  // ---------- what the events say of a connection ----------

  function Greetings(es: seq<Event>, id: Id): nat
  {
    if es == [] then 0
    else Greetings(es[..|es| - 1], id) + if es[|es| - 1] == GreetingRead(id) then 1 else 0
  }

  predicate EverFailed(es: seq<Event>, id: Id)
  {
    es != [] && (es[|es| - 1] in {Verdict(id, false), ChangeSettled(id, false)} || EverFailed(es[..|es| - 1], id))
  }

  /** How the latest authentication of a connection stands, be it a login or a COM_CHANGE_USER. */
  datatype Auth = Never | Begun | Won | Lost

  function LatestAuth(es: seq<Event>, id: Id): Auth
  {
    if es == [] then Never else
    var e := es[|es| - 1];
    if e in {GreetingRead(id), ContinuedAuth(id), ChangeAsked(id)} then Begun
    else if e in {Verdict(id, true), ChangeSettled(id, true)} then Won
    else if e in {Verdict(id, false), ChangeSettled(id, false)} then Lost
    else LatestAuth(es[..|es| - 1], id)
  }

  /** The session that holds the connection has been authenticated on it, as the user it now is. */
  predicate SessionAuthenticated(es: seq<Event>, id: Id)
  {
    if es == [] then false else
    var e := es[|es| - 1];
    if e in {Verdict(id, true), ChangeSettled(id, true)} then true
    else if e.id == id && !e.Forwarded? then false
    else SessionAuthenticated(es[..|es| - 1], id)
  }

  /** What is demanded of every event, given those before it. */
  predicate Safe(before: seq<Event>, e: Event)
  {
    match e
    case GreetingRead(id) => Greetings(before, id) == 0
    case ContinuedAuth(id) => LatestAuth(before, id) == Won
    case HandedOut(id) => !EverFailed(before, id)
    case Forwarded(id) => SessionAuthenticated(before, id)
    case _ => true
  }

  predicate AllSafe(es: seq<Event>)
  {
    es == [] || (AllSafe(es[..|es| - 1]) && Safe(es[..|es| - 1], es[|es| - 1]))
  }

  // ---------- what spoils a connection ----------

  /** The event ends the use of a connection in the middle of an authentication. */
  predicate Cuts(before: seq<Event>, e: Event)
  {
    (e.Returned? || e.Abandoned?) && LatestAuth(before, e.id) == Begun
  }

  predicate EverCut(es: seq<Event>, id: Id)
  {
    es != [] && (EverCut(es[..|es| - 1], id) || (es[|es| - 1].id == id && Cuts(es[..|es| - 1], es[|es| - 1])))
  }

  predicate EverRefused(es: seq<Event>, id: Id)
  {
    es != [] && (EverRefused(es[..|es| - 1], id) || es[|es| - 1] == ChangeSettled(id, false))
  }

  /** The event takes up a spoilt connection: it hands out one on which a COM_CHANGE_USER was refused, or
      authenticates on one that was cut off. */
  predicate TakesUpSpoilt(before: seq<Event>, e: Event)
  {
    || (e.HandedOut? && EverRefused(before, e.id))
    || ((e.GreetingRead? || e.ContinuedAuth?) && EverCut(before, e.id))
  }

  predicate NoneSpoiltTakenUp(es: seq<Event>)
  {
    es == [] || (NoneSpoiltTakenUp(es[..|es| - 1]) && !TakesUpSpoilt(es[..|es| - 1], es[|es| - 1]))
  }

  // ---------- safety of every run ----------

  /** What a connection's phase and place say about its past, for one that is not spoilt. */
  predicate Faithful(c: Conn, es: seq<Event>, id: Id)
  {
    && Greetings(es, id) == (if c.phase.None? && c.place != Authenticating then 0 else 1)
    && LatestAuth(es, id) == (if c.place in {Authenticating, Changing} then Begun
                              else match c.phase case None => Never case Some(Connection) => Lost case Some(_) => Won)
    && (c.phase == None || c.phase == Some(Connection) || c.phase == Some(Command))
    && (c.place in {Serving, Changing} ==> c.phase == Some(Command))
    && (EverFailed(es, id) <==> c.phase == Some(Connection))
    && (c.phase == Some(Connection) ==> c.place == Idle || c.place == Gone)
    && (SessionAuthenticated(es, id) <==> c.place == Serving)
  }

  /** A refused connection lies idle; one that was cut off lies idle or is held by a session that has not
      begun to authenticate. */
  predicate Spoilt(c: Conn, es: seq<Event>, id: Id)
  {
    && (c.phase == None || c.phase == Some(Command)) && !SessionAuthenticated(es, id)
    && if EverRefused(es, id) then c.place == Idle && EverFailed(es, id)
       else c.place in {Idle, Held} && LatestAuth(es, id) == Begun && Greetings(es, id) == 1 && !EverFailed(es, id)
  }

  predicate Accounted(s: State, es: seq<Event>, id: Id)
  {
    if id !in s then
      && Greetings(es, id) == 0 && LatestAuth(es, id) == Never && !EverFailed(es, id)
      && !SessionAuthenticated(es, id) && !EverCut(es, id) && !EverRefused(es, id)
    else if EverRefused(es, id) || EverCut(es, id) then Spoilt(s[id], es, id)
    else Faithful(s[id], es, id)
  }

  ghost predicate Inv(s: State, es: seq<Event>)
  {
    forall id: Id :: Accounted(s, es, id)
  }

  lemma StepOfOther(s: State, es: seq<Event>, e: Event, id: Id)
    requires Accounted(s, es, id) && Apply(s, e).Some? && id != e.id
    ensures Accounted(Apply(s, e).value, es + [e], id)
  {
    assert (es + [e])[..|es|] == es;
  }

  lemma StepOfOwn(s: State, es: seq<Event>, e: Event)
    requires Accounted(s, es, e.id) && Apply(s, e).Some? && !TakesUpSpoilt(es, e)
    ensures Accounted(Apply(s, e).value, es + [e], e.id)
  {
    assert (es + [e])[..|es|] == es;
  }

  lemma StepKeepsInv(s: State, es: seq<Event>, e: Event)
    requires Inv(s, es) && Apply(s, e).Some? && !TakesUpSpoilt(es, e)
    ensures Inv(Apply(s, e).value, es + [e])
  {
    forall id: Id
      ensures Accounted(Apply(s, e).value, es + [e], id)
    {
      assert Accounted(s, es, id);
      if id == e.id {
        StepOfOwn(s, es, e);
      } else {
        StepOfOther(s, es, e, id);
      }
    }
  }

  lemma {:induction false} RunKeepsInv(es: seq<Event>)
    requires Run(es).Some? && NoneSpoiltTakenUp(es)
    ensures Inv(Run(es).value, es)
  {
    if es != [] {
      var before, e := es[..|es| - 1], es[|es| - 1];
      RunKeepsInv(before);
      StepKeepsInv(Run(before).value, before, e);
      assert before + [e] == es;
    }
  }

  /** In a state that accounts for the past, an event is safe iff it does not take up a spoilt connection. */
  lemma SafeStep(s: State, es: seq<Event>, e: Event)
    requires Accounted(s, es, e.id) && Apply(s, e).Some?
    ensures Safe(es, e) <==> !TakesUpSpoilt(es, e)
  {
  }

  /** Over every run of a pool, with any number of connections and sessions, these hold of all events: the
      greeting of a connection is read at most once, COM_CHANGE_USER authentication is used at check-out only on
      a connection whose latest authentication succeeded, a connection on which an authentication failed is never
      handed out again, and a command is forwarded only while its session is authenticated; and they hold
      exactly if no connection is handed out again on which a COM_CHANGE_USER was refused, and none is
      authenticated on again that was cut off in the middle of an authentication. */
  lemma {:induction false} PoolSafe(es: seq<Event>)
    requires Run(es).Some?
    ensures AllSafe(es) <==> NoneSpoiltTakenUp(es)
  {
    if es != [] {
      var before, e := es[..|es| - 1], es[|es| - 1];
      PoolSafe(before);
      if NoneSpoiltTakenUp(before) {
        RunKeepsInv(before);
        assert Accounted(Run(before).value, before, e.id);
        SafeStep(Run(before).value, before, e);
      }
    }
  }

  // ---------- one event, and what may follow it ----------

  /** No event from position `n` on cuts a connection off or refuses a COM_CHANGE_USER. */
  predicate CalmFrom(es: seq<Event>, n: nat)
  {
    |es| <= n || (
      && CalmFrom(es[..|es| - 1], n)
      && var e := es[|es| - 1];
         !Cuts(es[..|es| - 1], e) && !(e.ChangeSettled? && !e.ok))
  }

  lemma {:induction false} CalmIsUnspoilt(es: seq<Event>, id: Id)
    requires CalmFrom(es, 0)
    ensures !EverCut(es, id) && !EverRefused(es, id)
  {
    if es != [] {
      CalmIsUnspoilt(es[..|es| - 1], id);
    }
  }

  /** A run in which nothing is spoilt is safe. */
  lemma {:induction false} CalmIsSafe(es: seq<Event>)
    requires CalmFrom(es, 0)
    ensures NoneSpoiltTakenUp(es)
  {
    if es != [] {
      var before, e := es[..|es| - 1], es[|es| - 1];
      CalmIsSafe(before);
      CalmIsUnspoilt(before, e.id);
    }
  }

  lemma {:induction false} CalmAll(es: seq<Event>, m: nat, n: nat)
    requires m <= n <= |es| && CalmFrom(es[..n], m) && CalmFrom(es, n)
    ensures CalmFrom(es, m)
  {
    if n < |es| {
      assert es[..|es| - 1][..n] == es[..n];
      CalmAll(es[..|es| - 1], m, n);
    } else {
      assert es[..n] == es;
    }
  }

  /** However the run goes on, as long as nothing else is spoilt, it is safe. */
  ghost predicate SafeFrom(es: seq<Event>)
  {
    forall more: seq<Event> :: Run(es + more).Some? && CalmFrom(es + more, |es|) ==> AllSafe(es + more)
  }

  lemma {:induction false} Snoc(es: seq<Event>, e: Event)
    ensures Run(es + [e]) == (match Run(es) case Some(s) => Apply(s, e) case None => None)
    ensures Greetings(es + [e], e.id) == Greetings(es, e.id) + if e.GreetingRead? then 1 else 0
    ensures LatestAuth(es + [e], e.id) ==
            if e.GreetingRead? || e.ContinuedAuth? || e.ChangeAsked? then Begun
            else if e.Verdict? || e.ChangeSettled? then (if e.ok then Won else Lost)
            else LatestAuth(es, e.id)
    ensures AllSafe(es + [e]) ==> Safe(es, e)
    ensures forall n: nat :: n <= |es| ==> (CalmFrom(es + [e], n) <==>
              CalmFrom(es, n) && !Cuts(es, e) && !(e.ChangeSettled? && !e.ok))
  {
    assert (es + [e])[..|es|] == es;
  }

  /** How a connection that was cut off is taken up again: it is handed out, and then authenticated on. */
  function TakeUp(id: Id, phase: Option<Phase>): seq<Event>
  {
    [HandedOut(id)] + [if NeedsHandshake(phase) then GreetingRead(id) else ContinuedAuth(id)]
  }

  lemma TakenUp(es: seq<Event>, id: Id, phase: Option<Phase>)
    requires Run(es).Some? && id in Run(es).value && Run(es).value[id] == Conn(phase, Idle)
    requires Recyclable(phase) && LatestAuth(es, id) == Begun && Greetings(es, id) > 0
    ensures !SafeFrom(es)
  {
    var e1 := HandedOut(id);
    var e2 := if NeedsHandshake(phase) then GreetingRead(id) else ContinuedAuth(id);
    Snoc(es, e1);
    Snoc(es + [e1], e2);
    assert es + TakeUp(id, phase) == es + [e1] + [e2];
    assert CalmFrom(es, |es|);
  }

  lemma CutThenTakenUp(es: seq<Event>, cut: Event)
    requires Run(es).Some? && Accounted(Run(es).value, es, cut.id) && Run(es + [cut]).Some? && Cuts(es, cut)
    requires !EverCut(es, cut.id) && !EverRefused(es, cut.id)
    ensures !SafeFrom(es + [cut])
  {
    Snoc(es, cut);
    TakenUp(es + [cut], cut.id, Run(es).value[cut.id].phase);
  }

  /** Giving a connection back, by returning it or by abandoning it, is harmless exactly when it is not in the
      middle of an authentication: then every continuation that spoils nothing else is safe, and
      otherwise there is one that is not. */
  lemma AbandonExactly(es: seq<Event>, back: Event)
    requires Run(es).Some? && CalmFrom(es, 0) && Run(es + [back]).Some? && (back.Returned? || back.Abandoned?)
    ensures SafeFrom(es + [back]) <==> LatestAuth(es, back.id) != Begun
    ensures LatestAuth(es, back.id) == Begun <==> Run(es).value[back.id].place in {Authenticating, Changing}
  {
    CalmIsSafe(es);
    RunKeepsInv(es);
    Snoc(es, back);
    assert Accounted(Run(es).value, es, back.id);
    CalmIsUnspoilt(es, back.id);
    if Cuts(es, back) {
      CutThenTakenUp(es, back);
    } else {
      var es1 := es + [back];
      forall more: seq<Event> | Run(es1 + more).Some? && CalmFrom(es1 + more, |es1|)
        ensures AllSafe(es1 + more)
      {
        assert (es1 + more)[..|es1|] == es1;
        CalmAll(es1 + more, 0, |es1|);
        CalmIsSafe(es1 + more);
        PoolSafe(es1 + more);
      }
    }
  }

  /** A connection that is abandoned during its first handshake can always be handed out again, and then its
      greeting, which has been read, is waited for once more. */
  lemma AbandonedTwiceGreeted(es: seq<Event>, id: Id)
    requires Run(es).Some? && id in Run(es).value && Run(es).value[id] == Conn(None, Authenticating)
    requires Greetings(es, id) > 0
    ensures var out := es + [Abandoned(id)] + [HandedOut(id)];
            Run(out + [GreetingRead(id)]).Some? && !Safe(out, GreetingRead(id))
  {
    Snoc(es, Abandoned(id));
    Snoc(es + [Abandoned(id)], HandedOut(id));
    Snoc(es + [Abandoned(id)] + [HandedOut(id)], GreetingRead(id));
  }

  /** A refused COM_CHANGE_USER ends the session and leaves the connection in the command phase, so it can
      always be handed out again, which is not safe. */
  lemma RefusedHandedOut(es: seq<Event>, id: Id)
    requires Run(es).Some? && id in Run(es).value && Run(es).value[id] == Conn(Some(Command), Changing)
    ensures var refused := es + [ChangeSettled(id, false)];
            Run(refused + [HandedOut(id)]).Some? && !Safe(refused, HandedOut(id))
  {
    var refused := es + [ChangeSettled(id, false)];
    Snoc(es, ChangeSettled(id, false));
    Snoc(refused, HandedOut(id));
    assert refused[..|es|] == es;
  }

  /** Which way each place leads: an idle connection can be handed out or discarded, one way only, by its phase; one
      that is held can be greeted or re-authenticated, one way only, or given back; a verdict is due exactly while
      it authenticates; commands are forwarded exactly while it serves. */
  lemma Ways(c: Conn, id: Id, ok: bool)
    ensures Next(c, HandedOut(id)).Some? <==> c.place == Idle && c.phase != Some(Connection)
    ensures Next(c, Discarded(id)).Some? <==> c.place == Idle && c.phase == Some(Connection)
    ensures Next(c, GreetingRead(id)).Some? <==> c.place == Held && c.phase != Some(Command)
    ensures Next(c, ContinuedAuth(id)).Some? <==> c.place == Held && c.phase == Some(Command)
    ensures Next(c, Verdict(id, ok)).Some? <==> c.place == Authenticating
    ensures Next(c, Forwarded(id)).Some? <==> c.place == Serving
    ensures Next(c, ChangeAsked(id)).Some? <==> c.place == Serving
    ensures Next(c, ChangeSettled(id, ok)).Some? <==> c.place == Changing
    ensures Next(c, Returned(id)).Some? <==> c.place == Held || c.place == Serving || c.place == Changing
    ensures Next(c, Abandoned(id)).Some? <==> c.place != Idle && c.place != Gone
  {
  }

  /** And where it leads: only a verdict changes the phase, to the command phase or to the connection phase. */
  lemma Steps(c: Conn, e: Event)
    requires Next(c, e).Some?
    ensures var d := Next(c, e).value;
            && d.phase == (if e.Verdict? then Some(if e.ok then Command else Connection) else c.phase)
            && d.place == (match e
                           case HandedOut(_) => Held
                           case Discarded(_) => Gone
                           case GreetingRead(_) => Authenticating
                           case ContinuedAuth(_) => Authenticating
                           case Verdict(_, ok) => if ok then Serving else Idle
                           case ChangeAsked(_) => Changing
                           case ChangeSettled(_, ok) => if ok then Serving else Idle
                           case Returned(_) => Idle
                           case Abandoned(_) => Idle
                           case _ => c.place)
  {
  }
}
