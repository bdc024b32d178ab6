/** The WebSocket server's subscriber bookkeeping (AudioWebSocketServer.java):
    a static set of open sessions that `onOpen` adds to and `onClose` removes
    from, and `broadcast`, which sends one text to each session and swallows a
    failed send. The set is a `CopyOnWriteArraySet`, which keeps its members in
    insertion order without duplicates; it is modelled sequentially as a
    duplicate-free sequence. */
module Broadcast {

  /** A WebSocket session, compared by identity. */
  type SessionId = nat

  predicate NoDuplicates(xs: seq<SessionId>) {
    forall i, j :: 0 <= i < j < |xs| ==> xs[i] != xs[j]
  }

  /** The set view of a session list. */
  function Elements(xs: seq<SessionId>): set<SessionId> {
    set x | x in xs
  }

  /** `remove(o)` of the backing list: drop the first occurrence, if any. */
  function RemoveFirst(xs: seq<SessionId>, s: SessionId): (r: seq<SessionId>)
    ensures s !in xs ==> r == xs
    ensures s in xs ==> |r| == |xs| - 1
    ensures forall x :: x in r ==> x in xs
    ensures NoDuplicates(xs) ==> NoDuplicates(r) && Elements(r) == Elements(xs) - {s}
  {
    if xs == [] then []
    else if xs[0] == s then
      assert NoDuplicates(xs) ==> xs[0] !in xs[1..];
      assert Elements(xs) == {xs[0]} + Elements(xs[1..]);
      xs[1..]
    else
      var rest := RemoveFirst(xs[1..], s);
      assert NoDuplicates(xs) ==> NoDuplicates(xs[1..]) && xs[0] !in rest;
      assert Elements(xs) == {xs[0]} + Elements(xs[1..]);
      assert Elements([xs[0]] + rest) == {xs[0]} + Elements(rest);
      [xs[0]] + rest
  }

  /** The outcome of one `sendText` attempt: `sent` is false when it threw an
      `IOException`, which `broadcast` catches and logs. */
  datatype Delivery = Delivery(session: SessionId, message: string, sent: bool)

  /** The attempts a broadcast of `message` makes: one per session, in the
      set's iteration order, each with the outcome the transport gives. */
  function Fanout(ss: seq<SessionId>, message: string, send: (SessionId, string) -> bool): (ds: seq<Delivery>)
    ensures |ds| == |ss|
  {
    seq(|ss|, k requires 0 <= k < |ss| => Delivery(ss[k], message, send(ss[k], message)))
  }

  /** The sessions a sequence of attempts went to. */
  function Targets(ds: seq<Delivery>): (ss: seq<SessionId>)
    ensures |ss| == |ds|
  {
    seq(|ds|, k requires 0 <= k < |ds| => ds[k].session)
  }

  /** A broadcast attempts every member exactly once, whatever the transport
      answers: the failures neither skip nor repeat anyone. */
  lemma {:induction false} OneAttemptPerMember(ss: seq<SessionId>, message: string,
                                               send: (SessionId, string) -> bool, s: SessionId)
    requires NoDuplicates(ss)
    ensures Targets(Fanout(ss, message, send)) == ss
    ensures multiset(Targets(Fanout(ss, message, send)))[s] == if s in ss then 1 else 0
  {
    assert Targets(Fanout(ss, message, send)) == ss;
    CountInDuplicateFree(ss, s);
  }

  lemma {:induction false} CountInDuplicateFree(ss: seq<SessionId>, s: SessionId)
    requires NoDuplicates(ss)
    ensures multiset(ss)[s] == if s in ss then 1 else 0
  {
    if ss != [] {
      assert ss == [ss[0]] + ss[1..];
      assert NoDuplicates(ss[1..]);
      assert ss[0] !in ss[1..];
      CountInDuplicateFree(ss[1..], s);
    }
  }

  /** The server's static session set. */
  class SessionSet {
    var sessions: seq<SessionId>

    ghost predicate Valid()
      reads this
    {
      NoDuplicates(sessions)
    }

    function Members(): set<SessionId>
      reads this
    {
      Elements(sessions)
    }

    constructor ()
      ensures Valid() && sessions == []
    {
      sessions := [];
    }

    /** `onOpen`: `sessions.add(session)`, which appends only if the session is
        not already a member. */
    method OnOpen(session: SessionId)
      requires Valid()
      modifies this
      ensures Valid()
      ensures sessions == if session in old(sessions) then old(sessions) else old(sessions) + [session]
      ensures Members() == old(Members()) + {session}
    {
      if session !in sessions {
        sessions := sessions + [session];
      }
    }

    /** `onClose`: `sessions.remove(session)`, a no-op for a non-member. */
    method OnClose(session: SessionId)
      requires Valid()
      modifies this
      ensures Valid()
      ensures sessions == RemoveFirst(old(sessions), session)
      ensures Members() == old(Members()) - {session}
    {
      sessions := RemoveFirst(sessions, session);
    }

    /** `broadcast`: one send per session in iteration order; a failed send is
        caught, the loop goes on, and no session is removed (the method changes
        nothing). */
    method Broadcast(message: string, send: (SessionId, string) -> bool) returns (deliveries: seq<Delivery>)
      ensures deliveries == Fanout(sessions, message, send)
    {
      deliveries := [];
      var k := 0;
      while k < |sessions|
        invariant 0 <= k <= |sessions|
        invariant deliveries == Fanout(sessions[..k], message, send)
      {
        var session := sessions[k];
        var sent := send(session, message);
        deliveries := deliveries + [Delivery(session, message, sent)];
        assert sessions[..k + 1] == sessions[..k] + [session];
        k := k + 1;
      }
      assert sessions[..k] == sessions;
    }
  }
}
