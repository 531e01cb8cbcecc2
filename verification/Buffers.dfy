/** The buffers of the server: taken from the pool to receive a message, moved to the
    queue of received messages, forwarded to the queue of messages to send, and given back.

    A header is the length of the whole message and its type; the bytes behind it are the body. */
module Buffers {
  import opened Rooms
  import Queue
  import Framing
  import opened XmlChars

  const HEAD_LEN: nat := 8

  class Buf {
    var cLen: nat
    var cType: int
    var body: seq<int>
    var used: nat
    var fd: int

    constructor ()
      ensures |body| == Framing.MAX_BUF - HEAD_LEN
    {
      body := seq(Framing.MAX_BUF - HEAD_LEN, i => 0);
      cLen, cType, used, fd := 0, 0, 0, 0;
    }

    predicate Valid()
      reads this
    {
      |body| == Framing.MAX_BUF - HEAD_LEN && cLen <= Framing.MAX_BUF
    }

    /** `reset`: all bytes are 0. */
    method Reset()
      modifies this`cLen, this`cType, this`body
      ensures cLen == 0 && cType == 0 && body == seq(Framing.MAX_BUF - HEAD_LEN, i => 0)
    {
      cLen, cType, body := 0, 0, seq(Framing.MAX_BUF - HEAD_LEN, i => 0);
    }
  }

  /** `PoolT`: a queue of free objects. */
  class PoolT<T> {
    var m_queue: seq<T>
    const m_size: int

    constructor (objects: seq<T>)
      ensures m_queue == objects && m_size == |objects|
    {
      m_queue, m_size := objects, |objects|;
    }

    /** `malloc`: the longest free object, or nothing. */
    method Malloc() returns (p: Option<T>)
      modifies this
      ensures old(m_queue) == [] ==> p.None? && m_queue == []
      ensures old(m_queue) != [] ==> p == Some(old(m_queue)[0]) && m_queue == old(m_queue)[1..]
    {
      if |m_queue| == 0 {
        return None;
      }
      p := Some(m_queue[0]);
      m_queue := m_queue[1..];
    }

    method Free(p: T)
      modifies this
      ensures m_queue == old(m_queue) + [p]
    {
      m_queue := m_queue + [p];
    }

    /** What the pool was made with and does not hold now. */
    method Used() returns (n: int)
      ensures n + |m_queue| == m_size
    {
      n := m_size - |m_queue|;
    }
  }

  // ----- the step system

  /** Where the buffers are between two steps. */
  datatype Holdings<T> = Holdings(pool: seq<T>, received: seq<T>, toSend: seq<T>)

  /** A reception that succeeds or not, a forwarding that succeeds or not, a message for so many students, a message sent. */
  datatype Step = Receive(ok: bool) | Forward(ok: bool) | ToStudents(n: nat) | SendOne

  predicate CanStep<T>(s: Holdings<T>, e: Step) {
    match e
    case Receive(_) => s.pool != []
    case Forward(_) => s.received != []
    case ToStudents(n) => s.received != [] && n <= |s.pool|
    case SendOne => s.toSend != []
  }

  function Stepped<T>(s: Holdings<T>, e: Step): Holdings<T>
    requires CanStep(s, e)
  {
    match e
    case Receive(ok) =>
      if ok then Holdings(s.pool[1..], s.received + [s.pool[0]], s.toSend) else s.(pool := s.pool[1..] + [s.pool[0]])
    case Forward(ok) =>
      if ok then Holdings(s.pool, s.received[1..], s.toSend + [s.received[0]])
      else Holdings(s.pool + [s.received[0]], s.received[1..], s.toSend)
    case ToStudents(n) => Holdings(s.pool[n..] + [s.received[0]], s.received[1..], s.toSend + s.pool[..n])
    case SendOne => Holdings(s.pool + [s.toSend[0]], s.received, s.toSend[1..])
  }

  lemma ReceiveIs<T>(s: Holdings<T>, ok: bool)
    requires s.pool != []
    ensures var b := s.pool[0];
            Stepped(s, Receive(ok)) ==
              Holdings(s.pool[1..] + (if ok then [] else [b]), s.received + (if ok then [b] else []), s.toSend)
  {
  }

  lemma ForwardIs<T>(s: Holdings<T>, ok: bool)
    requires s.received != []
    ensures var b := s.received[0];
            Stepped(s, Forward(ok)) ==
              Holdings(s.pool + (if ok then [] else [b]), s.received[1..], s.toSend + (if ok then [b] else []))
  {
  }

  /** All buffers, wherever they are. */
  ghost function Everywhere<T>(s: Holdings<T>): multiset<T> {
    multiset(s.pool) + multiset(s.received) + multiset(s.toSend)
  }

  lemma Parts<T>(s: seq<T>, n: nat)
    requires n <= |s|
    ensures multiset(s) == multiset(s[..n]) + multiset(s[n..])
    ensures n == 1 ==> multiset(s) == multiset{s[0]} + multiset(s[1..])
  {
    assert s == s[..n] + s[n..];
    if n == 1 {
      assert s[..1] == [s[0]];
    }
  }

  lemma StepConserves<T>(s: Holdings<T>, e: Step)
    requires CanStep(s, e)
    ensures Everywhere(Stepped(s, e)) == Everywhere(s)
  {
    match e
    case Receive(ok) => Parts(s.pool, 1);
    case Forward(ok) => Parts(s.received, 1);
    case ToStudents(n) =>
      Parts(s.pool, n);
      Parts(s.received, 1);
    case SendOne => Parts(s.toSend, 1);
  }

  predicate Possible<T>(s: Holdings<T>, run: seq<Step>)
    decreases run
  {
    run == [] || (CanStep(s, run[0]) && Possible(Stepped(s, run[0]), run[1..]))
  }

  function AfterRun<T>(s: Holdings<T>, run: seq<Step>): Holdings<T>
    requires Possible(s, run)
    decreases run
  {
    if run == [] then s else AfterRun(Stepped(s, run[0]), run[1..])
  }

  lemma {:induction false} RunConserves<T>(s: Holdings<T>, run: seq<Step>)
    requires Possible(s, run)
    ensures Everywhere(AfterRun(s, run)) == Everywhere(s)
    decreases run
  {
    if run != [] {
      StepConserves(s, run[0]);
      RunConserves(Stepped(s, run[0]), run[1..]);
    }
  }

  /** From a full pool of different buffers: between steps every buffer is in exactly one place, once, and the three
      sizes add up to the size of the pool. */
  lemma Conservation<T>(all: seq<T>, run: seq<Step>)
    requires forall i, j :: 0 <= i < j < |all| ==> all[i] != all[j]
    requires Possible(Holdings(all, [], []), run)
    ensures var s := AfterRun(Holdings(all, [], []), run);
            && |s.pool| + |s.received| + |s.toSend| == |all|
            && (forall b :: b in all ==> multiset(s.pool)[b] + multiset(s.received)[b] + multiset(s.toSend)[b] == 1)
            && (forall b :: b !in all ==> b !in s.pool && b !in s.received && b !in s.toSend)
  {
    var s0 := Holdings(all, [], []);
    var s := AfterRun(s0, run);
    RunConserves(s0, run);
    assert Everywhere(s0) == multiset(all);
    assert |multiset(all)| == |all| && |Everywhere(s)| == |s.pool| + |s.received| + |s.toSend|;
    forall b | b in all ensures multiset(all)[b] == 1 {
      Once(all, b);
    }
    forall b | b !in all ensures b !in s.pool && b !in s.received && b !in s.toSend {
      assert multiset(all)[b] == 0;
      assert Everywhere(s)[b] == multiset(s.pool)[b] + multiset(s.received)[b] + multiset(s.toSend)[b];
    }
  }

  lemma {:induction false} Once<T>(s: seq<T>, b: T)
    requires b in s && forall i, j :: 0 <= i < j < |s| ==> s[i] != s[j]
    ensures multiset(s)[b] == 1
  {
    var k :| 0 <= k < |s| && s[k] == b;
    Parts(s, k);
    Parts(s[k..], 1);
    assert s[k..][1..] == s[k + 1..];
    assert multiset(s)[b] == multiset(s[..k])[b] + 1 + multiset(s[k + 1..])[b];
    assert b !in s[..k] && b !in s[k + 1..];
  }

  // ----- what passes through

  /** The ways through the server. */
  datatype Flow = Received | Handled | Queued | Sent | Taken | Returned

  /** The buffers that go such a way with one step: received when a message has arrived in the buffer at the front of
      the pool, handled when they are the oldest received, queued to be sent when forwarding succeeds or as the
      students' copies, sent as the oldest queued, taken from the pool and returned to it. */
  function Passing<T>(s: Holdings<T>, e: Step, w: Flow): seq<T>
    requires CanStep(s, e)
  {
    match w
    case Received => if e == Receive(true) then [s.pool[0]] else []
    case Handled => if e.Forward? || e.ToStudents? then [s.received[0]] else []
    case Queued => if e == Forward(true) then [s.received[0]] else if e.ToStudents? then s.pool[..e.n] else []
    case Sent => if e.SendOne? then [s.toSend[0]] else []
    case Taken => if e.Receive? then [s.pool[0]] else if e.ToStudents? then s.pool[..e.n] else []
    case Returned =>
      if e == Receive(false) then [s.pool[0]]
      else if e == Forward(false) || e.ToStudents? then [s.received[0]]
      else if e.SendOne? then [s.toSend[0]]
      else []
  }

  function Passed<T>(s: Holdings<T>, run: seq<Step>, w: Flow): seq<T>
    requires Possible(s, run)
    decreases run
  {
    if run == [] then [] else Passing(s, run[0], w) + Passed(Stepped(s, run[0]), run[1..], w)
  }

  /** What a queue held and what has come into it is, in order, what has left it and what it holds. */
  ghost predicate InOrder<T>(before: seq<T>, came: seq<T>, left: seq<T>, now: seq<T>) {
    before + came == left + now
  }

  lemma StepInOrder<T>(s: Holdings<T>, e: Step)
    requires CanStep(s, e)
    ensures InOrder(s.received, Passing(s, e, Received), Passing(s, e, Handled), Stepped(s, e).received)
    ensures InOrder(s.toSend, Passing(s, e, Queued), Passing(s, e, Sent), Stepped(s, e).toSend)
    ensures InOrder(s.pool, Passing(s, e, Returned), Passing(s, e, Taken), Stepped(s, e).pool)
  {
    match e
    case Receive(ok) => assert [s.pool[0]] + s.pool[1..] == s.pool;
    case Forward(ok) => assert [s.received[0]] + s.received[1..] == s.received;
    case ToStudents(n) =>
      assert [s.received[0]] + s.received[1..] == s.received;
      assert s.pool[..n] + s.pool[n..] == s.pool;
    case SendOne => assert [s.toSend[0]] + s.toSend[1..] == s.toSend;
  }

  lemma InOrderJoin<T>(q: seq<T>, a: seq<T>, b: seq<T>, r: seq<T>, c: seq<T>, d: seq<T>, t: seq<T>)
    requires InOrder(q, a, b, r) && InOrder(r, c, d, t)
    ensures InOrder(q, a + c, b + d, t)
  {
    assert q + (a + c) == (q + a) + c;
    assert b + (r + c) == (b + r) + c;
    assert b + (d + t) == (b + d) + t;
  }

  /** Over every run the three queues are first in, first out: the messages received are, in order, those handled and
      those still queued; those forwarded or copied are those sent and those to send; what the pool has lent and got
      back leaves it in turn. */
  lemma {:induction false} RunInOrder<T>(s: Holdings<T>, run: seq<Step>)
    requires Possible(s, run)
    ensures InOrder(s.received, Passed(s, run, Received), Passed(s, run, Handled), AfterRun(s, run).received)
    ensures InOrder(s.toSend, Passed(s, run, Queued), Passed(s, run, Sent), AfterRun(s, run).toSend)
    ensures InOrder(s.pool, Passed(s, run, Returned), Passed(s, run, Taken), AfterRun(s, run).pool)
    decreases run
  {
    if run != [] {
      var e, rest := run[0], run[1..];
      var u := Stepped(s, e);
      StepInOrder(s, e);
      RunInOrder(u, rest);
      var t := AfterRun(u, rest);
      hide InOrder, Passing, Stepped;
      InOrderJoin(s.received, Passing(s, e, Received), Passing(s, e, Handled), u.received,
                  Passed(u, rest, Received), Passed(u, rest, Handled), t.received);
      InOrderJoin(s.toSend, Passing(s, e, Queued), Passing(s, e, Sent), u.toSend,
                  Passed(u, rest, Queued), Passed(u, rest, Sent), t.toSend);
      InOrderJoin(s.pool, Passing(s, e, Returned), Passing(s, e, Taken), u.pool,
                  Passed(u, rest, Returned), Passed(u, rest, Taken), t.pool);
    }
  }

  // ----- the server

  /** The numbers of the students of a room, in the order of its map. */
  ghost predicate Lists(fds: seq<int>, r: Room) {
    && (forall i, j :: 0 <= i < j < |fds| ==> fds[i] < fds[j])
    && (forall f :: f in fds <==> f in r.students)
  }

  class Server {
    const bufpool: PoolT<Buf>
    const recvqueue: Queue.QueueT<Buf>
    const sendqueue: Queue.QueueT<Buf>

    constructor (all: seq<Buf>)
      ensures Holds() == Holdings(all, [], []) && fresh(bufpool) && fresh(recvqueue) && fresh(sendqueue)
      ensures (forall i, j :: 0 <= i < j < |all| ==> all[i] != all[j]) ==> Valid()
    {
      bufpool := new PoolT(all);
      recvqueue := new Queue.QueueT();
      sendqueue := new Queue.QueueT();
      new;
      assert Everywhere(Holds()) == multiset(all);
      if forall i, j :: 0 <= i < j < |all| ==> all[i] != all[j] {
        forall b | b in all ensures multiset(all)[b] == 1 {
          Once(all, b);
        }
      }
    }

    ghost function Holds(): Holdings<Buf>
      reads bufpool, recvqueue, sendqueue
    {
      Holdings(bufpool.m_queue, recvqueue.m_queue, sendqueue.m_queue)
    }

    /** The queues are different objects, no buffer is held twice, and none the pool was made with is missing. */
    ghost predicate Valid()
      reads bufpool, recvqueue, sendqueue
    {
      && recvqueue != sendqueue && |Everywhere(Holds())| == bufpool.m_size
      && forall b :: b in Everywhere(Holds()) ==> Everywhere(Holds())[b] == 1
    }

    /** The pool's count of used buffers is the number of messages received and not handled or not yet sent. */
    method InUse() returns (n: int)
      requires Valid()
      ensures n == |recvqueue.m_queue| + |sendqueue.m_queue|
    {
      n := bufpool.Used();
    }

    /** `recv_cb` with what arrives: a message, or nothing when its reception fails. The source aborts when the pool
        is empty. */
    method RecvCb(fd: int, message: Option<(nat, int, seq<int>)>) returns (ghost b: Buf)
      requires Valid() && bufpool.m_queue != []
      requires message.Some? ==> message.value.0 <= Framing.MAX_BUF && |message.value.2| == Framing.MAX_BUF - HEAD_LEN
      modifies bufpool, recvqueue, bufpool.m_queue[0]
      ensures Holds() == Stepped(old(Holds()), Receive(message.Some?)) && Valid()
      ensures b == old(bufpool.m_queue)[0] && sendqueue.m_queue == old(sendqueue.m_queue)
      ensures recvqueue.m_queue == old(recvqueue.m_queue) + (if message.Some? then [b] else [])
      ensures bufpool.m_queue == old(bufpool.m_queue)[1..] + (if message.Some? then [] else [b])
      ensures message.Some? ==> b.fd == fd && (b.cLen, b.cType, b.body) == message.value
    {
      assert recvqueue != sendqueue;
      hide Everywhere, Server.Valid, Stepped;
      ReceiveIs(Holds(), message.Some?);
      var p := bufpool.Malloc();
      var buf := p.value;
      b := buf;
      if message.None? {
        bufpool.Free(buf);
        StillValid(Receive(false));
        return;
      }
      buf.cLen, buf.cType, buf.body := message.value.0, message.value.1, message.value.2;
      buf.fd := fd;
      var signal := recvqueue.Push(buf);
      StillValid(Receive(true));
    }

    /** The message that `RecvTask` hands to its handler. */
    method NextReceived() returns (p: Buf)
      requires recvqueue.m_queue != []
      modifies recvqueue
      ensures p == old(recvqueue.m_queue)[0] && recvqueue.m_queue == old(recvqueue.m_queue)[1..]
    {
      var out := recvqueue.Pop();
      p := out.value;
    }

    /** What forwarding does to a message: a new type and a new receiver, and as many bytes as its header tells. */
    twostate predicate Readdressed(p: Buf, cType: int, fd: int)
      reads p
    {
      p.cType == cType && p.fd == fd && p.used == p.cLen == old(p.cLen) && p.body == old(p.body)
    }

    /** The message with its new type and receiver goes to the queue of messages to send. */
    method Readdress(p: Buf, cType: int, fd: int)
      modifies p`cType, p`fd, p`used, sendqueue
      ensures Readdressed(p, cType, fd) && sendqueue.m_queue == old(sendqueue.m_queue) + [p]
    {
      p.cType := cType;
      p.fd := fd;
      p.used := p.cLen;
      var signal := sendqueue.Push(p);
    }

    /** A step loses no buffer and doubles none. */
    twostate lemma StillValid(e: Step)
      requires old(Valid()) && CanStep(old(Holds()), e) && Holds() == Stepped(old(Holds()), e)
      ensures Valid()
    {
      StepConserves(old(Holds()), e);
    }

    /** `postTeacherToWhite` of the next message received. */
    method PostTeacherToWhite(manager: CRoomManager, cType: int, ghost rs: seq<Room>) returns (ok: bool, p: Buf)
      requires Valid() && recvqueue.m_queue != [] && manager.Shows(rs)
      modifies bufpool, recvqueue, sendqueue, recvqueue.m_queue[0]
      ensures p == old(recvqueue.m_queue)[0] && recvqueue.m_queue == old(recvqueue.m_queue)[1..]
      ensures sendqueue.m_queue == old(sendqueue.m_queue) + (if ok then [p] else [])
      ensures bufpool.m_queue == old(bufpool.m_queue) + (if ok then [] else [p])
      ensures var k := FirstByFd(rs, old(p.fd));
              && (ok <==> k < |rs| && rs[k].teacher == old(p.fd))
              && (ok ==> Readdressed(p, cType, rs[k].white))
      ensures Holds() == Stepped(old(Holds()), Forward(ok)) && Valid()
    {
      assert recvqueue != sendqueue;
      hide Everywhere, Server.Valid, Stepped;
      ForwardIs(Holds(), true);
      ForwardIs(Holds(), false);
      p := NextReceived();
      var k := manager.GetRoomByFd(p.fd, rs);
      assert k < |rs| ==> manager.rooms[k].View() == rs[k];
      ok := k < |manager.rooms| && manager.rooms[k].teacherFd == p.fd;
      if ok {
        Readdress(p, cType, manager.rooms[k].whiteFd);
      } else {
        bufpool.Free(p);
      }
      StillValid(Forward(ok));
    }

    /** `postWhiteToTeacher` of the next message received. */
    method PostWhiteToTeacher(manager: CRoomManager, cType: int, ghost rs: seq<Room>) returns (ok: bool, p: Buf)
      requires Valid() && recvqueue.m_queue != [] && manager.Shows(rs)
      modifies bufpool, recvqueue, sendqueue, recvqueue.m_queue[0]
      ensures p == old(recvqueue.m_queue)[0] && recvqueue.m_queue == old(recvqueue.m_queue)[1..]
      ensures sendqueue.m_queue == old(sendqueue.m_queue) + (if ok then [p] else [])
      ensures bufpool.m_queue == old(bufpool.m_queue) + (if ok then [] else [p])
      ensures var k := FirstByFd(rs, old(p.fd));
              && (ok <==> k < |rs| && rs[k].white == old(p.fd))
              && (ok ==> Readdressed(p, cType, rs[k].teacher))
      ensures Holds() == Stepped(old(Holds()), Forward(ok)) && Valid()
    {
      assert recvqueue != sendqueue;
      hide Everywhere, Server.Valid, Stepped;
      ForwardIs(Holds(), true);
      ForwardIs(Holds(), false);
      p := NextReceived();
      var k := manager.GetRoomByFd(p.fd, rs);
      assert k < |rs| ==> manager.rooms[k].View() == rs[k];
      ok := k < |manager.rooms| && manager.rooms[k].whiteFd == p.fd;
      if ok {
        Readdress(p, cType, manager.rooms[k].teacherFd);
      } else {
        bufpool.Free(p);
      }
      StillValid(Forward(ok));
    }

    /** `postStudentToWhite` of the next message received. */
    method PostStudentToWhite(manager: CRoomManager, cType: int, ghost rs: seq<Room>) returns (ok: bool, p: Buf)
      requires Valid() && recvqueue.m_queue != [] && manager.Shows(rs)
      modifies bufpool, recvqueue, sendqueue, recvqueue.m_queue[0]
      ensures p == old(recvqueue.m_queue)[0] && recvqueue.m_queue == old(recvqueue.m_queue)[1..]
      ensures sendqueue.m_queue == old(sendqueue.m_queue) + (if ok then [p] else [])
      ensures bufpool.m_queue == old(bufpool.m_queue) + (if ok then [] else [p])
      ensures var k := FirstByFd(rs, old(p.fd));
              && (ok <==> k < |rs| && old(p.fd) in rs[k].students)
              && (ok ==> Readdressed(p, cType, rs[k].white))
      ensures Holds() == Stepped(old(Holds()), Forward(ok)) && Valid()
    {
      assert recvqueue != sendqueue;
      hide Everywhere, Server.Valid, Stepped;
      ForwardIs(Holds(), true);
      ForwardIs(Holds(), false);
      p := NextReceived();
      var k := manager.GetRoomByFd(p.fd, rs);
      assert k < |rs| ==> manager.rooms[k].View() == rs[k];
      ok := k < |manager.rooms| && p.fd in manager.rooms[k].students;
      if ok {
        Readdress(p, cType, manager.rooms[k].whiteFd);
      } else {
        bufpool.Free(p);
      }
      StillValid(Forward(ok));
    }

    /** What a student gets of the message `p`: its type changed, its length and its bytes kept. */
    twostate predicate CopyOf(new c: Buf, p: Buf, cType: int, fd: int)
      reads c
    {
      && c.cLen == c.used == old(p.cLen) && c.cType == cType && c.fd == fd && |c.body| == Framing.MAX_BUF - HEAD_LEN
      && forall i :: 0 <= i < old(p.cLen) - HEAD_LEN && i < |old(p.body)| && i < |c.body| ==> c.body[i] == old(p.body)[i]
    }

    /** One round of the loop of `postTeacherToAllStudent`. */
    method PostCopy(p: Buf, cType: int, fd: int) returns (pbuf: Buf)
      requires bufpool.m_queue != [] && bufpool.m_queue[0] != p && p.Valid() && bufpool.m_queue[0].Valid()
      modifies bufpool, sendqueue, bufpool.m_queue[0]
      ensures pbuf == old(bufpool.m_queue)[0] && bufpool.m_queue == old(bufpool.m_queue)[1..]
      ensures sendqueue.m_queue == old(sendqueue.m_queue) + [pbuf]
      ensures CopyOf(pbuf, p, cType, fd)
    {
      var free := bufpool.Malloc();
      pbuf := free.value;
      pbuf.cLen, pbuf.cType := p.cLen, cType;
      if p.cLen > HEAD_LEN {
        var n := p.cLen - HEAD_LEN;
        pbuf.body := p.body[..n] + pbuf.body[n..];
      }
      pbuf.used := pbuf.cLen;
      pbuf.fd := fd;
      var signal := sendqueue.Push(pbuf);
    }

    /** The loop. */
    method PostCopies(p: Buf, cType: int, fds: seq<int>)
      requires p.Valid() && |fds| <= |bufpool.m_queue|
      requires forall j {:trigger bufpool.m_queue[j]} :: 0 <= j < |bufpool.m_queue| ==> bufpool.m_queue[j] != p && bufpool.m_queue[j].Valid()
      requires forall i, j :: 0 <= i < j < |bufpool.m_queue| ==> bufpool.m_queue[i] != bufpool.m_queue[j]
      modifies bufpool, sendqueue, bufpool.m_queue
      ensures bufpool.m_queue == old(bufpool.m_queue)[|fds|..]
      ensures sendqueue.m_queue == old(sendqueue.m_queue) + old(bufpool.m_queue)[..|fds|]
      ensures forall j :: 0 <= j < |fds| ==> CopyOf(old(bufpool.m_queue)[j], p, cType, fds[j])
    {
      ghost var pool, sending := bufpool.m_queue, sendqueue.m_queue;
      var i := 0;
      while i < |fds|
        invariant 0 <= i <= |fds|
        invariant bufpool.m_queue == pool[i..] && sendqueue.m_queue == sending + pool[..i]
        invariant p.Valid() && p.cLen == old(p.cLen) && p.body == old(p.body)
        invariant forall j :: 0 <= j < i ==> CopyOf(pool[j], p, cType, fds[j])
        invariant forall j {:trigger pool[j]} :: i <= j < |pool| ==> pool[j].Valid()
      {
        var copy := PostCopy(p, cType, fds[i]);
        assert pool[i..][1..] == pool[i + 1..];
        assert sending + pool[..i] + [pool[i]] == sending + pool[..i + 1];
        i := i + 1;
      }
    }

    /** The branch that has found a room: the copies, and the message itself back to the pool. */
    method CopyToStudents(p: Buf, cType: int, fds: seq<int>)
      requires p.Valid() && |fds| <= |bufpool.m_queue| && p !in bufpool.m_queue
      requires forall b :: b in bufpool.m_queue ==> b.Valid()
      requires forall i, j :: 0 <= i < j < |bufpool.m_queue| ==> bufpool.m_queue[i] != bufpool.m_queue[j]
      modifies bufpool, sendqueue, bufpool.m_queue, p
      ensures bufpool.m_queue == old(bufpool.m_queue)[|fds|..] + [p]
      ensures sendqueue.m_queue == old(sendqueue.m_queue) + old(bufpool.m_queue)[..|fds|]
      ensures forall j :: 0 <= j < |fds| ==> CopyOf(old(bufpool.m_queue)[j], p, cType, fds[j])
    {
      hide Server.CopyOf;
      ghost var pool := bufpool.m_queue;
      assert forall j {:trigger pool[j]} :: 0 <= j < |pool| ==> pool[j] in pool;
      PostCopies(p, cType, fds);
      p.Reset();
      bufpool.Free(p);
    }

    /** `postTeacherToAllStudent` of the next message received: a copy for every student, in the order of the
        room's map. The role of the sender is not looked at, and the pool must not run out. */
    method PostTeacherToAllStudent(manager: CRoomManager, cType: int, fds: seq<int>, ghost rs: seq<Room>) returns (ok: bool, p: Buf)
      requires Valid() && recvqueue.m_queue != [] && manager.Shows(rs) && recvqueue.m_queue[0].Valid()
      requires forall b :: b in bufpool.m_queue ==> b.Valid()
      requires var k := FirstByFd(rs, recvqueue.m_queue[0].fd);
               k < |rs| ==> Lists(fds, rs[k]) && |fds| <= |bufpool.m_queue|
      modifies bufpool, recvqueue, sendqueue, recvqueue.m_queue[0], bufpool.m_queue
      ensures p == old(recvqueue.m_queue)[0] && recvqueue.m_queue == old(recvqueue.m_queue)[1..]
      ensures ok <==> FirstByFd(rs, old(p.fd)) < |rs|
      ensures ok ==> sendqueue.m_queue == old(sendqueue.m_queue) + old(bufpool.m_queue)[..|fds|]
                     && bufpool.m_queue == old(bufpool.m_queue)[|fds|..] + [p]
      ensures !ok ==> sendqueue.m_queue == old(sendqueue.m_queue) && bufpool.m_queue == old(bufpool.m_queue) + [p]
      ensures Holds() == Stepped(old(Holds()), if ok then ToStudents(|fds|) else Forward(false)) && Valid()
      ensures ok ==> forall j :: 0 <= j < |fds| ==> CopyOf(old(bufpool.m_queue)[j], p, cType, fds[j])
    {
      HeldOnce();
      assert recvqueue.m_queue[0] in recvqueue.m_queue;
      assert recvqueue != sendqueue;
      hide Everywhere, Server.Valid, Lists, FirstByFd, Server.CopyOf, CRoomManager.Shows;
      p := NextReceived();
      var k := manager.GetRoomByFd(p.fd, rs);
      ok := k < |manager.rooms|;
      if ok {
        CopyToStudents(p, cType, fds);
      } else {
        bufpool.Free(p);
      }
      StillValid(if ok then ToStudents(|fds|) else Forward(false));
    }

    /** The buffers of the pool are all different, and none of them has been received. */
    lemma HeldOnce()
      requires Valid()
      ensures forall i, j :: 0 <= i < j < |bufpool.m_queue| ==> bufpool.m_queue[i] != bufpool.m_queue[j]
      ensures forall b :: b in bufpool.m_queue ==> b !in recvqueue.m_queue
    {
      var h := Holds();
      forall i, j | 0 <= i < j < |h.pool| ensures h.pool[i] != h.pool[j] {
        Parts(h.pool, j);
        assert h.pool[i] in h.pool[..j] && h.pool[j] in h.pool[j..];
        assert h.pool[i] in Everywhere(h);
      }
      forall b | b in h.pool ensures b !in h.received {
        assert b in Everywhere(h);
      }
    }

    /** One round of `SendTask::work`: the message given back after its bytes have been written, or at once when it
        has no receiver. */
    method SendNext() returns (sent: Option<(int, nat)>)
      requires Valid() && sendqueue.m_queue != []
      modifies bufpool, sendqueue, sendqueue.m_queue[0]
      ensures Holds() == Stepped(old(Holds()), SendOne) && Valid()
      ensures sendqueue.m_queue == old(sendqueue.m_queue)[1..] && recvqueue.m_queue == old(recvqueue.m_queue)
      ensures bufpool.m_queue == old(bufpool.m_queue) + [old(sendqueue.m_queue)[0]]
      ensures var p := old(sendqueue.m_queue)[0];
              sent == if old(p.fd) == 0 then None else Some((old(p.fd), old(p.used)))
    {
      assert recvqueue != sendqueue;
      hide Everywhere, Server.Valid;
      var out := sendqueue.Pop();
      var p := out.value;
      if p.fd == 0 {
        bufpool.Free(p);
        StillValid(SendOne);
        return None;
      }
      sent := Some((p.fd, p.used));
      p.Reset();
      bufpool.Free(p);
      StillValid(SendOne);
    }
  }
}
