/** Class rooms and the roles a connection plays in them: teacher, whiteboard, student.

    A room of the server is a `CRoom`; `Room` is what it holds. The names of teachers
    and classes, courses, games and the messages sent along are left out. */
module Rooms {
  import opened XmlChars

  datatype Student = Student(id: int, socket: int)

  /** A room: the teacher and the whiteboard are -1 before they first arrive and 0 after they have left. */
  datatype Room = Room(id: int, name: string, teacher: int, white: int, used: bool, students: map<int, Student>)

  /** `CRoom::get_room_by_fd`. */
  predicate Resolves(r: Room, fd: int) {
    fd in r.students || fd == r.teacher || fd == r.white
  }

  /** The first room that satisfies the test of a lookup, `|rs|` when there is none. */
  function FirstByFd(rs: seq<Room>, fd: int): (k: nat)
    ensures k <= |rs|
    ensures forall i :: 0 <= i < k ==> !Resolves(rs[i], fd)
    ensures k < |rs| ==> Resolves(rs[k], fd)
  {
    if rs == [] || Resolves(rs[0], fd) then 0 else 1 + FirstByFd(rs[1..], fd)
  }

  function FirstByName(rs: seq<Room>, name: string): (k: nat)
    ensures k <= |rs|
    ensures forall i :: 0 <= i < k ==> rs[i].name != name
    ensures k < |rs| ==> rs[k].name == name
  {
    if rs == [] || rs[0].name == name then 0 else 1 + FirstByName(rs[1..], name)
  }

  function FirstById(rs: seq<Room>, id: int): (k: nat)
    ensures k <= |rs|
    ensures forall i :: 0 <= i < k ==> rs[i].id != id
    ensures k < |rs| ==> rs[k].id == id
  {
    if rs == [] || rs[0].id == id then 0 else 1 + FirstById(rs[1..], id)
  }

  /** `CRoom::reset`: the room is free again; the teacher, the whiteboard and the students stay in it. */
  function Freed(r: Room): Room {
    r.(used := false, students := map f | f in r.students :: r.students[f].(socket := 0))
  }

  /** `CRoom::del_client` of the `i`-th room. A teacher's leaving also resets the first room that knows the teacher. */
  function DelAt(rs: seq<Room>, i: nat, fd: int): (qs: seq<Room>)
    requires i < |rs|
    ensures |qs| == |rs|
  {
    var r := rs[i];
    if fd == r.teacher then
      var k := FirstByFd(rs, fd);
      var qs := if rs[k].used then rs[k := Freed(rs[k])] else rs;
      qs[i := Freed(qs[i]).(teacher := 0)]
    else if fd == r.white then rs[i := r.(white := 0)]
    else rs[i := r.(students := r.students - {fd})]
  }

  function DelFrom(rs: seq<Room>, i: nat, fd: int): (qs: seq<Room>)
    requires i <= |rs|
    ensures |qs| == |rs|
    decreases |rs| - i
  {
    if i == |rs| then rs else DelFrom(DelAt(rs, i, fd), i + 1, fd)
  }

  /** The types of client in a request to select a room. */
  const MCT_STUDENT: int := 1
  const MCT_WHITEBOARD: int := 3

  datatype Event =
    | SelectAsStudent(fd: int, room: int)
    | SelectAsWhiteboard(fd: int, room: int)
    | SelectAsOther(fd: int, room: int)
    | Login(fd: int, name: string)
    | Logout(fd: int)
    | Disconnect(fd: int)

  function Next(rs: seq<Room>, e: Event): (qs: seq<Room>)
    ensures |qs| == |rs|
  {
    match e
    case SelectAsStudent(fd, id) =>
      var k := FirstById(rs, id);
      if k == |rs| || FirstByFd(rs, fd) < |rs| then rs
      else rs[k := rs[k].(students := rs[k].students[fd := Student(0, 0)])]
    case SelectAsWhiteboard(fd, id) =>
      var k := FirstById(rs, id);
      if k == |rs| then rs else rs[k := rs[k].(white := fd)]
    case SelectAsOther(fd, id) => rs
    case Login(fd, name) =>
      var k := FirstByName(rs, name);
      if k == |rs| || rs[k].used then rs else rs[k := rs[k].(teacher := fd, used := true)]
    case Logout(fd) =>
      var k := FirstByFd(rs, fd);
      if k == |rs| || rs[k].teacher != fd then rs else rs[k := Freed(rs[k])]
    case Disconnect(fd) => DelFrom(rs, 0, fd)
  }

  // ----- the classes

  class CRoom {
    const id: int
    const name: string
    var teacherFd: int
    var whiteFd: int
    var isUsed: int
    var students: map<int, Student>

    constructor (id: int, name: string)
      ensures View() == Room(id, name, -1, -1, false, map[])
    {
      this.id, this.name := id, name;
      teacherFd, whiteFd, isUsed, students := -1, -1, 0, map[];
    }

    function View(): Room
      reads this
    {
      Room(id, name, teacherFd, whiteFd, isUsed == 1, students)
    }

    method GetRoomByFd(fd: int) returns (found: bool)
      ensures found <==> Resolves(View(), fd)
    {
      if fd in students {
        found := true;
      } else if fd == teacherFd {
        found := true;
      } else {
        found := fd == whiteFd;
      }
    }

    /** A student of the same connection gives way to the new one. */
    method AddStudent(fd: int, student: Student)
      modifies this
      ensures View() == old(View()).(students := old(students)[fd := student])
    {
      if fd in students {
        students := students - {fd};
      }
      students := students[fd := student];
    }

    method Reset()
      modifies this
      ensures View() == Freed(old(View()))
    {
      students := map f | f in students :: students[f].(socket := 0);
      isUsed := 0;
    }

    /** `update_all_student_status` of a student who is offline. */
    method DropStudent(fd: int)
      modifies this
      ensures View() == old(View()).(students := old(students) - {fd})
    {
      if fd in students {
        students := students - {fd};
      } else {
        assert students - {fd} == students;
      }
    }
  }

  class CRoomManager {
    var rooms: seq<CRoom>

    ghost predicate Distinct()
      reads this
    {
      forall i, j :: 0 <= i < j < |rooms| ==> rooms[i] != rooms[j]
    }

    /** The rooms, in the order of their numbers, hold `rs`. */
    ghost predicate Shows(rs: seq<Room>)
      reads this, rooms
    {
      Distinct() && |rs| == |rooms| && forall i :: 0 <= i < |rooms| ==> rooms[i].View() == rs[i]
    }

    method GetRoomByFd(fd: int, ghost rs: seq<Room>) returns (k: nat)
      requires Shows(rs)
      ensures k == FirstByFd(rs, fd)
    {
      k := 0;
      while k < |rooms|
        invariant k <= |rooms| && forall i :: 0 <= i < k ==> !Resolves(rs[i], fd)
      {
        var found := rooms[k].GetRoomByFd(fd);
        if found {
          return;
        }
        k := k + 1;
      }
    }

    method GetRoomByName(name: string, ghost rs: seq<Room>) returns (k: nat)
      requires Shows(rs)
      ensures k == FirstByName(rs, name)
    {
      k := 0;
      while k < |rooms|
        invariant k <= |rooms| && forall i :: 0 <= i < k ==> rs[i].name != name
      {
        assert rooms[k].View() == rs[k];
        if rooms[k].name == name {
          return;
        }
        k := k + 1;
      }
    }

    /** `get_room`: the map of the source finds it by its number. */
    method GetRoom(id: int, ghost rs: seq<Room>) returns (k: nat)
      requires Shows(rs)
      ensures k == FirstById(rs, id)
    {
      k := 0;
      while k < |rooms|
        invariant k <= |rooms| && forall i :: 0 <= i < k ==> rs[i].id != id
      {
        assert rooms[k].View() == rs[k];
        if rooms[k].id == id {
          return;
        }
        k := k + 1;
      }
    }

    method ResetAt(k: nat, ghost rs: seq<Room>)
      requires Shows(rs) && k < |rooms|
      modifies rooms[k]
      ensures Shows(rs[k := Freed(rs[k])])
    {
      assert rooms[k].View() == rs[k];
      rooms[k].Reset();
    }

    /** The teacher's branch of `CRoom::del_client`: `k` is the first room that knows the connection. */
    method TeacherLeaves(i: nat, k: nat, ghost rs: seq<Room>)
      requires Shows(rs) && k <= i < |rooms|
      modifies rooms
      ensures rooms == old(rooms)
      ensures var qs := if rs[k].used then rs[k := Freed(rs[k])] else rs;
              Shows(qs[i := Freed(qs[i]).(teacher := 0)])
    {
      hide Freed;
      assert rooms[k].View() == rs[k];
      ghost var qs := if rs[k].used then rs[k := Freed(rs[k])] else rs;
      if rooms[k].isUsed == 1 {
        ResetAt(k, rs);
      }
      ResetAt(i, qs);
      assert rooms[i].View() == Freed(qs[i]);
      rooms[i].teacherFd := 0;
    }

    /** `CRoom::del_client`. */
    method DelClientOf(i: nat, fd: int, ghost rs: seq<Room>)
      requires Shows(rs) && i < |rooms|
      modifies rooms
      ensures rooms == old(rooms) && Shows(DelAt(rs, i, fd))
    {
      var room := rooms[i];
      assert room.View() == rs[i];
      if fd == room.teacherFd {
        var k := GetRoomByFd(fd, rs);
        assert Resolves(rs[i], fd) && k <= i;
        hide Shows, Freed;
        TeacherLeaves(i, k, rs);
      } else if fd == room.whiteFd {
        room.whiteFd := 0;
      } else {
        room.DropStudent(fd);
      }
    }

    /** `CRoomManager::del_client`. */
    method DelClient(fd: int, ghost rs: seq<Room>)
      requires Shows(rs)
      modifies rooms
      ensures rooms == old(rooms) && Shows(Next(rs, Disconnect(fd)))
    {
      ghost var now := rs;
      for i := 0 to |rooms|
        invariant rooms == old(rooms) && Shows(now) && DelFrom(now, i, fd) == DelFrom(rs, 0, fd)
      {
        DelClientOf(i, fd, now);
        now := DelAt(now, i, fd);
      }
    }

    /** `handleSelectedClassRoom`. A whiteboard takes the place whatever else its connection is; a client of another
        type changes nothing. */
    method HandleSelectedClassRoom(fd: int, id: int, clientType: int, ghost rs: seq<Room>)
      requires Shows(rs)
      modifies rooms
      ensures rooms == old(rooms)
      ensures Shows(Next(rs, if clientType == MCT_STUDENT then SelectAsStudent(fd, id)
                             else if clientType == MCT_WHITEBOARD then SelectAsWhiteboard(fd, id)
                             else SelectAsOther(fd, id)))
    {
      var k := GetRoom(id, rs);
      if k == |rooms| {
        return;
      }
      if clientType == MCT_STUDENT {
        var known := GetRoomByFd(fd, rs);
        if known < |rooms| {
          return;
        }
        assert rooms[k].View() == rs[k];
        rooms[k].AddStudent(fd, Student(0, 0));
      } else if clientType == MCT_WHITEBOARD {
        rooms[k].whiteFd := fd;
      }
    }

    /** `handleLoginClassRoom`: a room in use is refused, to its own teacher too. */
    method HandleLoginClassRoom(fd: int, name: string, ghost rs: seq<Room>)
      requires Shows(rs)
      modifies rooms
      ensures rooms == old(rooms) && Shows(Next(rs, Login(fd, name)))
    {
      var k := GetRoomByName(name, rs);
      if k == |rooms| {
        return;
      }
      assert rooms[k].View() == rs[k];
      if rooms[k].isUsed == 1 {
        return;
      }
      rooms[k].teacherFd := fd;
      rooms[k].isUsed := 1;
    }

    /** `handleLogoutClassRoom`: the teacher's connection stays the room's teacher. */
    method HandleLogoutClassRoom(fd: int, ghost rs: seq<Room>)
      requires Shows(rs)
      modifies rooms
      ensures rooms == old(rooms) && Shows(Next(rs, Logout(fd)))
    {
      var k := GetRoomByFd(fd, rs);
      if k == |rooms| {
        return;
      }
      assert rooms[k].View() == rs[k];
      if rooms[k].teacherFd == fd {
        rooms[k].isUsed := 0;
        rooms[k].Reset();
      }
    }
  }

  // ----- what every run keeps

  /** No connection is a student of two rooms; a room in use has a teacher. */
  predicate Sound(rs: seq<Room>) {
    && (forall i, j, f :: 0 <= i < j < |rs| && f in rs[i].students ==> f !in rs[j].students)
    && (forall i :: 0 <= i < |rs| && rs[i].used ==> rs[i].teacher > 0)
  }

  /** Connections have positive numbers. */
  predicate Real(e: Event) {
    e.fd > 0
  }

  /** What one step can do to a room: it gains no student, or it is the only one to gain one nobody knew; it comes
      into use only by a login; while it is in use its teacher stays. */
  predicate Moved(r: Room, q: Room, e: Event) {
    && q.id == r.id && q.name == r.name
    && (e.SelectAsStudent? || q.students.Keys <= r.students.Keys)
    && (q.used ==> q.teacher == r.teacher || (e.Login? && !r.used && q.teacher == e.fd))
    && (q.used && !r.used ==> e.Login?)
  }

  lemma DelClientMoves(rs: seq<Room>, i: nat, fd: int, e: Event)
    requires i < |rs| && e == Disconnect(fd)
    ensures var qs := DelAt(rs, i, fd); forall k :: 0 <= k < |rs| ==> Moved(rs[k], qs[k], e)
  {
  }

  lemma {:induction false} DelFromMoves(rs: seq<Room>, i: nat, fd: int, e: Event)
    requires i <= |rs| && e == Disconnect(fd)
    ensures var qs := DelFrom(rs, i, fd); forall k :: 0 <= k < |rs| ==> Moved(rs[k], qs[k], e)
    decreases |rs| - i
  {
    if i < |rs| {
      DelClientMoves(rs, i, fd, e);
      DelFromMoves(DelAt(rs, i, fd), i + 1, fd, e);
    }
  }

  lemma StepMoves(rs: seq<Room>, e: Event)
    ensures forall k :: 0 <= k < |rs| ==> Moved(rs[k], Next(rs, e)[k], e)
  {
    if e.Disconnect? {
      DelFromMoves(rs, 0, e.fd, e);
    }
  }

  lemma StepSound(rs: seq<Room>, e: Event)
    requires Sound(rs) && Real(e)
    ensures Sound(Next(rs, e))
  {
    StepMoves(rs, e);
    var qs := Next(rs, e);
    forall i, j, f | 0 <= i < j < |qs| && f in qs[i].students ensures f !in qs[j].students {
      assert Moved(rs[i], qs[i], e) && Moved(rs[j], qs[j], e);
    }
    forall i | 0 <= i < |qs| && qs[i].used ensures qs[i].teacher > 0 {
      assert Moved(rs[i], qs[i], e);
    }
  }

  function After(rs: seq<Room>, run: seq<Event>): (qs: seq<Room>)
    ensures |qs| == |rs|
    decreases run
  {
    if run == [] then rs else After(Next(rs, run[0]), run[1..])
  }

  lemma {:induction false} RunSound(rs: seq<Room>, run: seq<Event>)
    requires Sound(rs) && forall i :: 0 <= i < |run| ==> Real(run[i])
    ensures Sound(After(rs, run))
    decreases run
  {
    if run != [] {
      StepSound(rs, run[0]);
      RunSound(Next(rs, run[0]), run[1..]);
    }
  }

  /** The `k`-th room is in use after every step of the run. */
  predicate StaysUsed(rs: seq<Room>, run: seq<Event>, k: nat)
    requires k < |rs|
    decreases run
  {
    rs[k].used && (run == [] || StaysUsed(Next(rs, run[0]), run[1..], k))
  }

  /** As long as a room stays in use, its teacher does not change. */
  lemma {:induction false} TeacherStays(rs: seq<Room>, run: seq<Event>, k: nat)
    requires k < |rs| && StaysUsed(rs, run, k)
    ensures After(rs, run)[k].teacher == rs[k].teacher
    decreases run
  {
    if run != [] {
      StepMoves(rs, run[0]);
      assert Moved(rs[k], Next(rs, run[0])[k], run[0]);
      TeacherStays(Next(rs, run[0]), run[1..], k);
    }
  }

  // ----- leaving

  /** How many of the three roles a connection has in a room. */
  function Roles(r: Room, fd: int): nat {
    (if fd == r.teacher then 1 else 0) + (if fd == r.white then 1 else 0) + (if fd in r.students then 1 else 0)
  }

  lemma DelClientRoles(rs: seq<Room>, i: nat, fd: int)
    requires i < |rs| && fd > 0
    ensures var qs := DelAt(rs, i, fd);
            forall k :: 0 <= k < |rs| ==>
              Roles(qs[k], fd) == if k == i && Roles(rs[k], fd) > 0 then Roles(rs[k], fd) - 1 else Roles(rs[k], fd)
  {
  }

  lemma {:induction false} DelFromRoles(rs: seq<Room>, i: nat, fd: int)
    requires i <= |rs| && fd > 0
    ensures var qs := DelFrom(rs, i, fd);
            forall k :: 0 <= k < |rs| ==>
              Roles(qs[k], fd) == if k >= i && Roles(rs[k], fd) > 0 then Roles(rs[k], fd) - 1 else Roles(rs[k], fd)
    decreases |rs| - i
  {
    if i < |rs| {
      DelClientRoles(rs, i, fd);
      DelFromRoles(DelAt(rs, i, fd), i + 1, fd);
    }
  }

  /** A connection that leaves loses one role in every room: a room still knows it exactly when it had two or more. */
  lemma LeftIff(rs: seq<Room>, fd: int, k: nat)
    requires fd > 0 && k < |rs|
    ensures Resolves(Next(rs, Disconnect(fd))[k], fd) <==> Roles(rs[k], fd) >= 2
  {
    DelFromRoles(rs, 0, fd);
  }

  /** With at most one role in every room, no room knows a connection that has left. */
  lemma LeftForGood(rs: seq<Room>, fd: int)
    requires fd > 0 && forall k :: 0 <= k < |rs| ==> Roles(rs[k], fd) <= 1
    ensures FirstByFd(Next(rs, Disconnect(fd)), fd) == |rs|
  {
    var qs := Next(rs, Disconnect(fd));
    forall k | 0 <= k < |qs| ensures !Resolves(qs[k], fd) {
      LeftIff(rs, fd, k);
    }
  }

  /** With at most one role in every room, a connection that leaves frees only the rooms it was the teacher of. */
  lemma {:induction false} OwnRoomsFreed(rs: seq<Room>, i: nat, fd: int)
    requires i <= |rs| && fd > 0 && forall k :: 0 <= k < |rs| ==> Roles(rs[k], fd) <= if k < i then 0 else 1
    ensures var qs := DelFrom(rs, i, fd);
            forall k :: 0 <= k < |rs| ==> (qs[k].used <==> rs[k].used && (k < i || rs[k].teacher != fd))
    decreases |rs| - i
  {
    if i < |rs| {
      DelClientRoles(rs, i, fd);
      OneRoomFreed(rs, i, fd);
      hide DelAt;
      OwnRoomsFreed(DelAt(rs, i, fd), i + 1, fd);
    }
  }

  /** One room's part of it: no earlier room knows the connection any more. */
  lemma OneRoomFreed(rs: seq<Room>, i: nat, fd: int)
    requires i < |rs| && forall k :: 0 <= k < i ==> Roles(rs[k], fd) == 0
    ensures var qs := DelAt(rs, i, fd);
            forall k :: 0 <= k < |rs| ==>
              qs[k].teacher == (if k == i && rs[k].teacher == fd then 0 else rs[k].teacher)
              && (qs[k].used <==> rs[k].used && (k != i || rs[k].teacher != fd))
  {
    if fd == rs[i].teacher {
      assert forall j :: 0 <= j < i ==> Roles(rs[j], fd) == 0;
      assert FirstByFd(rs, fd) == i;
    }
  }

  // ----- who is what, told from the events

  /** A connection joins the `i`-th room: it selects it as a student, and no room knows it. */
  predicate Joins(rs: seq<Room>, e: Event, i: nat, f: int)
    requires i < |rs|
  {
    && e.SelectAsStudent? && e.fd == f && (forall k :: 0 <= k < |rs| ==> !Resolves(rs[k], f))
    && rs[i].id == e.room && forall k :: 0 <= k < i ==> rs[k].id != e.room
  }

  /** A student leaves the `i`-th room: the connection closes and is neither its teacher nor its whiteboard. */
  predicate Leaves(rs: seq<Room>, e: Event, i: nat, f: int)
    requires i < |rs|
  {
    e == Disconnect(f) && rs[i].teacher != f && rs[i].white != f
  }

  /** The whiteboard that an event gives the `i`-th room, 0 for one that leaves and is not the teacher as well. */
  function WhiteSet(rs: seq<Room>, e: Event, i: nat): Option<int>
    requires i < |rs|
  {
    if e.SelectAsWhiteboard? && rs[i].id == e.room && (forall k :: 0 <= k < i ==> rs[k].id != e.room) then Some(e.fd)
    else if e.Disconnect? && rs[i].white == e.fd && rs[i].teacher != e.fd then Some(0)
    else None
  }

  /** The teacher that an event gives the `i`-th room: one that logs in to it while it is free, 0 for one that leaves. */
  function TeacherSet(rs: seq<Room>, e: Event, i: nat): Option<int>
    requires i < |rs|
  {
    if Opens(rs, e, i) then Some(e.fd)
    else if e.Disconnect? && rs[i].teacher == e.fd then Some(0)
    else None
  }

  /** A login to the `i`-th room, which is free. */
  predicate Opens(rs: seq<Room>, e: Event, i: nat)
    requires i < |rs|
  {
    e.Login? && !rs[i].used && rs[i].name == e.name && forall k :: 0 <= k < i ==> rs[k].name != e.name
  }

  /** The `i`-th room becomes free: its teacher logs out, known to no earlier room; its teacher leaves; or the teacher of
      a later room leaves, this room being the first in which that connection has two roles. */
  predicate Closes(rs: seq<Room>, e: Event, i: nat)
    requires i < |rs|
  {
    match e
    case Logout(fd) => rs[i].teacher == fd && forall k :: 0 <= k < i ==> !Resolves(rs[k], fd)
    case Disconnect(fd) =>
      || rs[i].teacher == fd
      || (&& Roles(rs[i], fd) >= 2 && (forall k :: 0 <= k < i ==> Roles(rs[k], fd) <= 1)
          && exists m :: i < m < |rs| && rs[m].teacher == fd)
    case _ => false
  }

  lemma FirstIs(rs: seq<Room>, i: nat, fd: int)
    requires i < |rs| && Resolves(rs[i], fd) && forall k :: 0 <= k < i ==> !Resolves(rs[k], fd)
    ensures FirstByFd(rs, fd) == i
  {
  }

  /** One room's part of a disconnect, but for who is in use. */
  lemma DelAtRoles(rs: seq<Room>, i: nat, fd: int, k: nat)
    requires i < |rs| && k < |rs|
    ensures var r, q := rs[k], DelAt(rs, i, fd)[k];
            && q.id == r.id && q.name == r.name
            && q.teacher == (if k == i && r.teacher == fd then 0 else r.teacher)
            && q.white == (if k == i && r.white == fd && r.teacher != fd then 0 else r.white)
            && (forall f :: f in q.students <==>
                  f in r.students && !(k == i && f == fd && r.teacher != fd && r.white != fd))
            && (forall f :: f in q.students ==> q.students[f].id == r.students[f].id)
  {
  }

  lemma {:induction false} DelFromLaw(rs: seq<Room>, i: nat, fd: int, k: nat)
    requires i <= |rs| && k < |rs|
    ensures var r, q := rs[k], DelFrom(rs, i, fd)[k];
            && q.id == r.id && q.name == r.name
            && q.teacher == (if k >= i && r.teacher == fd then 0 else r.teacher)
            && q.white == (if k >= i && r.white == fd && r.teacher != fd then 0 else r.white)
            && (forall f :: f in q.students <==>
                  f in r.students && !(k >= i && f == fd && r.teacher != fd && r.white != fd))
            && (forall f :: f in q.students ==> q.students[f].id == r.students[f].id)
    decreases |rs| - i
  {
    if i < |rs| {
      DelAtRoles(rs, i, fd, k);
      hide DelAt;
      DelFromLaw(DelAt(rs, i, fd), i + 1, fd, k);
    }
  }

  /** The room still knows the connection once a disconnect that has come to the `i`-th room has passed it. */
  predicate StillKnows(rs: seq<Room>, i: nat, l: nat, fd: int)
    requires l < |rs|
  {
    Roles(rs[l], fd) >= if l < i then 1 else 2
  }

  /** A teacher's leaving from the `i`-th room on frees the `k`-th: its own room, or the first that still knows it. */
  predicate FreedFrom(rs: seq<Room>, i: nat, fd: int, k: nat)
    requires i <= |rs| && k < |rs|
  {
    || (k >= i && rs[k].teacher == fd)
    || (&& StillKnows(rs, i, k, fd) && (forall l :: 0 <= l < k ==> !StillKnows(rs, i, l, fd))
        && exists m :: i <= m < |rs| && k < m && rs[m].teacher == fd)
  }

  lemma DelAtUsed(rs: seq<Room>, i: nat, fd: int, k: nat)
    requires i < |rs| && k < |rs|
    ensures DelAt(rs, i, fd)[k].used <==>
            rs[k].used && !(rs[i].teacher == fd
                            && (k == i || (k < i && Resolves(rs[k], fd) && forall l :: 0 <= l < k ==> !Resolves(rs[l], fd))))
  {
    if rs[i].teacher == fd {
      var j := FirstByFd(rs, fd);
      assert Resolves(rs[i], fd);
      assert j <= i;
    }
  }

  lemma FreedNext(rs: seq<Room>, i: nat, fd: int, k: nat)
    requires i < |rs| && k < |rs| && fd > 0
    ensures FreedFrom(rs, i, fd, k) <==>
            || FreedFrom(DelAt(rs, i, fd), i + 1, fd, k)
            || (rs[i].teacher == fd
                && (k == i || (k < i && Resolves(rs[k], fd) && forall l :: 0 <= l < k ==> !Resolves(rs[l], fd))))
  {
    var qs := DelAt(rs, i, fd);
    DelClientRoles(rs, i, fd);
    forall m | 0 <= m < |rs| ensures m != i ==> qs[m].teacher == rs[m].teacher {
      DelAtRoles(rs, i, fd, m);
    }
    assert forall l :: 0 <= l < |rs| ==> (StillKnows(qs, i + 1, l, fd) <==> StillKnows(rs, i, l, fd));
    assert forall l :: 0 <= l < i ==> (StillKnows(rs, i, l, fd) <==> Resolves(rs[l], fd));
    hide DelAt, StillKnows, Resolves, Roles;
    if FreedFrom(rs, i, fd, k) && !(k >= i && rs[k].teacher == fd) {
      var m :| i <= m < |rs| && k < m && rs[m].teacher == fd;
      assert m > i ==> qs[m].teacher == fd;
    }
    if FreedFrom(qs, i + 1, fd, k) && !(k > i && qs[k].teacher == fd) {
      var m :| i + 1 <= m < |rs| && k < m && qs[m].teacher == fd;
      assert rs[m].teacher == fd;
    }
  }

  lemma {:induction false} DelFromUsed(rs: seq<Room>, i: nat, fd: int, k: nat)
    requires i <= |rs| && k < |rs| && fd > 0
    ensures DelFrom(rs, i, fd)[k].used <==> rs[k].used && !FreedFrom(rs, i, fd, k)
    decreases |rs| - i
  {
    if i < |rs| {
      DelAtUsed(rs, i, fd, k);
      FreedNext(rs, i, fd, k);
      hide DelAt, FreedFrom;
      DelFromUsed(DelAt(rs, i, fd), i + 1, fd, k);
    }
  }

  /** `q` is what an event makes of the `i`-th room: who joins and leaves, the whiteboard, the teacher, and whether it
      is in use. Nothing else changes. */
  ghost predicate Follows(rs: seq<Room>, e: Event, i: nat, q: Room)
    requires i < |rs|
  {
    var r, w, t := rs[i], WhiteSet(rs, e, i), TeacherSet(rs, e, i);
    && q.id == r.id && q.name == r.name
    && (forall f :: f in q.students <==> Joins(rs, e, i, f) || (f in r.students && !Leaves(rs, e, i, f)))
    && (forall f :: f in q.students ==> q.students[f].id == if f in r.students then r.students[f].id else 0)
    && q.white == (if w.Some? then w.value else r.white)
    && q.teacher == (if t.Some? then t.value else r.teacher)
    && (q.used <==> Opens(rs, e, i) || (r.used && !Closes(rs, e, i)))
  }

  lemma DisconnectLaw(rs: seq<Room>, fd: int, i: nat)
    requires i < |rs| && fd > 0
    ensures Follows(rs, Disconnect(fd), i, Next(rs, Disconnect(fd))[i])
  {
    DelFromLaw(rs, 0, fd, i);
    DelFromUsed(rs, 0, fd, i);
    var e := Disconnect(fd);
    assert FreedFrom(rs, 0, fd, i) <==> Closes(rs, e, i) by {
      assert forall l :: 0 <= l < |rs| ==> (StillKnows(rs, 0, l, fd) <==> Roles(rs[l], fd) >= 2);
    }
    hide DelFrom, FreedFrom, Roles;
  }

  lemma LogoutLaw(rs: seq<Room>, fd: int, i: nat)
    requires i < |rs|
    ensures Follows(rs, Logout(fd), i, Next(rs, Logout(fd))[i])
  {
    var k := FirstByFd(rs, fd);
    assert k < |rs| && rs[k].teacher == fd && k == i ==> Closes(rs, Logout(fd), i);
    if rs[i].teacher == fd && forall l :: 0 <= l < i ==> !Resolves(rs[l], fd) {
      FirstIs(rs, i, fd);
    }
  }

  lemma SelectLaw(rs: seq<Room>, fd: int, id: int, i: nat)
    requires i < |rs|
    ensures Follows(rs, SelectAsStudent(fd, id), i, Next(rs, SelectAsStudent(fd, id))[i])
  {
    var e := SelectAsStudent(fd, id);
    SelectIs(rs, fd, id, i);
    hide Next;
    assert forall f :: Joins(rs, e, i, f) ==> f == fd;
    hide Joins;
  }

  lemma SelectIs(rs: seq<Room>, fd: int, id: int, i: nat)
    requires i < |rs|
    ensures var e, r := SelectAsStudent(fd, id), rs[i];
            Next(rs, e)[i] == if Joins(rs, e, i, fd) then r.(students := r.students[fd := Student(0, 0)]) else r
  {
    assert (rs[i].id == id && forall l :: 0 <= l < i ==> rs[l].id != id) <==> FirstById(rs, id) == i;
    assert (forall l :: 0 <= l < |rs| ==> !Resolves(rs[l], fd)) <==> FirstByFd(rs, fd) == |rs|;
    hide Resolves, FirstById, FirstByFd;
  }

  lemma WhiteboardLaw(rs: seq<Room>, fd: int, id: int, i: nat)
    requires i < |rs|
    ensures Follows(rs, SelectAsWhiteboard(fd, id), i, Next(rs, SelectAsWhiteboard(fd, id))[i])
  {
    assert (rs[i].id == id && forall l :: 0 <= l < i ==> rs[l].id != id) <==> FirstById(rs, id) == i;
  }

  lemma LoginLaw(rs: seq<Room>, fd: int, name: string, i: nat)
    requires i < |rs|
    ensures Follows(rs, Login(fd, name), i, Next(rs, Login(fd, name))[i])
  {
    assert (rs[i].name == name && forall l :: 0 <= l < i ==> rs[l].name != name) <==> FirstByName(rs, name) == i;
  }

  /** Every step follows the law, in every room. */
  lemma StepLaw(rs: seq<Room>, e: Event, i: nat)
    requires i < |rs| && Real(e)
    ensures Follows(rs, e, i, Next(rs, e)[i])
  {
    match e
    case Disconnect(fd) => DisconnectLaw(rs, fd, i);
    case Logout(fd) => LogoutLaw(rs, fd, i);
    case SelectAsStudent(fd, id) => SelectLaw(rs, fd, id, i);
    case SelectAsWhiteboard(fd, id) => WhiteboardLaw(rs, fd, id, i);
    case Login(fd, name) => LoginLaw(rs, fd, name, i);
    case SelectAsOther(_, _) =>
  }

  /** The rooms in front of the `j`-th event of a run. */
  function Before(rs: seq<Room>, run: seq<Event>, j: nat): (qs: seq<Room>)
    requires j <= |run|
    ensures |qs| == |rs|
  {
    After(rs, run[..j])
  }

  lemma {:induction false} AfterSnoc(rs: seq<Room>, run: seq<Event>)
    requires run != []
    ensures After(rs, run) == Next(After(rs, run[..|run| - 1]), run[|run| - 1])
    decreases run
  {
    hide Next;
    if |run| == 1 {
      assert run[..0] == [] && run[1..] == [];
    } else {
      assert run[..|run| - 1][1..] == run[1..][..|run[1..]| - 1];
      AfterSnoc(Next(rs, run[0]), run[1..]);
    }
  }

  /** One event of a run, seen from the rooms in front of it. */
  lemma RunStep(rs: seq<Room>, run: seq<Event>, i: nat, j: nat)
    requires j < |run| && i < |rs| && Real(run[j])
    ensures Follows(Before(rs, run, j), run[j], i, Before(rs, run, j + 1)[i])
  {
    hide Follows, Next;
    AfterSnoc(rs, run[..j + 1]);
    assert run[..j + 1][..j] == run[..j];
    StepLaw(After(rs, run[..j]), run[j], i);
  }

  lemma BeforeEnds(rs: seq<Room>, run: seq<Event>)
    ensures Before(rs, run, 0) == rs && Before(rs, run, |run|) == After(rs, run)
  {
    assert run[..|run|] == run && run[..0] == [];
  }

  /** It has started at `k` and not stopped up to `m`. */
  predicate Runs(start: seq<bool>, stop: seq<bool>, k: nat, m: nat)
    requires k <= m < |start| == |stop| + 1
  {
    start[k] && forall j :: k <= j < m ==> !stop[j]
  }

  /** What starts and stops holds exactly when it has started and not stopped since. */
  lemma {:induction false} Since(holds: seq<bool>, start: seq<bool>, stop: seq<bool>, m: nat)
    requires m < |holds| == |start| == |stop| + 1 && holds[0] == start[0]
    requires forall j :: 0 <= j < |stop| ==> (holds[j + 1] <==> start[j + 1] || (holds[j] && !stop[j]))
    ensures holds[m] <==> exists k :: 0 <= k <= m && Runs(start, stop, k, m)
  {
    if m == 0 {
      assert Runs(start, stop, 0, m) <==> start[0];
    } else {
      Since(holds, start, stop, m - 1);
      assert holds[m - 1 + 1] <==> start[m - 1 + 1] || (holds[m - 1] && !stop[m - 1]);
      assert Runs(start, stop, m, m) <==> start[m];
      if holds[m] && !start[m] {
        var k :| 0 <= k <= m - 1 && Runs(start, stop, k, m - 1);
        assert Runs(start, stop, k, m);
      }
      if k :| 0 <= k < m && Runs(start, stop, k, m) {
        assert Runs(start, stop, k, m - 1);
      }
    }
  }

  /** Behind the `k`-th event of the run the connection has become a student of the room; it was one from the start
      for `k` 0. */
  predicate StudentFrom(rs: seq<Room>, run: seq<Event>, i: nat, f: int, k: nat)
    requires i < |rs| && k <= |run|
  {
    if k == 0 then f in rs[i].students else Joins(Before(rs, run, k - 1), run[k - 1], i, f)
  }

  /** The connection leaves the room with the `j`-th event. */
  predicate LeavesAt(rs: seq<Room>, run: seq<Event>, i: nat, f: int, j: nat)
    requires i < |rs| && j < |run|
  {
    Leaves(Before(rs, run, j), run[j], i, f)
  }

  /** Over every run: a connection is a student of a room exactly when it has joined it, or was there, and has not left
      it since. */
  lemma StudentIff(rs: seq<Room>, run: seq<Event>, i: nat, f: int)
    requires i < |rs| && forall j :: 0 <= j < |run| ==> Real(run[j])
    ensures f in After(rs, run)[i].students <==>
            exists k :: 0 <= k <= |run| && StudentFrom(rs, run, i, f, k)
                        && forall j :: k <= j < |run| ==> !LeavesAt(rs, run, i, f, j)
  {
    var n := |run|;
    BeforeEnds(rs, run);
    hide Before, After, Joins, Leaves;
    var holds := seq(n + 1, k requires 0 <= k <= n => f in Before(rs, run, k)[i].students);
    var start := seq(n + 1, k requires 0 <= k <= n => StudentFrom(rs, run, i, f, k));
    var stop := seq(n, j requires 0 <= j < n => LeavesAt(rs, run, i, f, j));
    forall j | 0 <= j < n ensures holds[j + 1] <==> start[j + 1] || (holds[j] && !stop[j]) {
      RunStep(rs, run, i, j);
    }
    Since(holds, start, stop, n);
    hide StudentFrom, LeavesAt;
    forall k | 0 <= k <= n
      ensures Runs(start, stop, k, n) <==>
              StudentFrom(rs, run, i, f, k) && forall j :: k <= j < n ==> !LeavesAt(rs, run, i, f, j)
    {
      assert forall j :: 0 <= j < n ==> stop[j] == LeavesAt(rs, run, i, f, j);
    }
  }

  predicate UsedFrom(rs: seq<Room>, run: seq<Event>, i: nat, k: nat)
    requires i < |rs| && k <= |run|
  {
    if k == 0 then rs[i].used else Opens(Before(rs, run, k - 1), run[k - 1], i)
  }

  predicate ClosesAt(rs: seq<Room>, run: seq<Event>, i: nat, j: nat)
    requires i < |rs| && j < |run|
  {
    Closes(Before(rs, run, j), run[j], i)
  }

  /** A room is in use exactly when a login has opened it, or it was in use, and nothing has closed it since. */
  lemma UsedIff(rs: seq<Room>, run: seq<Event>, i: nat)
    requires i < |rs| && forall j :: 0 <= j < |run| ==> Real(run[j])
    ensures After(rs, run)[i].used <==>
            exists k :: 0 <= k <= |run| && UsedFrom(rs, run, i, k)
                        && forall j :: k <= j < |run| ==> !ClosesAt(rs, run, i, j)
  {
    var n := |run|;
    BeforeEnds(rs, run);
    hide Before, After, Opens, Closes;
    var holds := seq(n + 1, k requires 0 <= k <= n => Before(rs, run, k)[i].used);
    var start := seq(n + 1, k requires 0 <= k <= n => UsedFrom(rs, run, i, k));
    var stop := seq(n, j requires 0 <= j < n => ClosesAt(rs, run, i, j));
    forall j | 0 <= j < n ensures holds[j + 1] <==> start[j + 1] || (holds[j] && !stop[j]) {
      RunStep(rs, run, i, j);
    }
    Since(holds, start, stop, n);
    hide UsedFrom, ClosesAt;
    forall k | 0 <= k <= n
      ensures Runs(start, stop, k, n) <==> UsedFrom(rs, run, i, k) && forall j :: k <= j < n ==> !ClosesAt(rs, run, i, j)
    {
      assert forall j :: 0 <= j < n ==> stop[j] == ClosesAt(rs, run, i, j);
    }
  }

  /** The whiteboard of a room is the one the last event to set it has set: the `k`-th, or none for `k` 0. */
  lemma WhiteboardIs(rs: seq<Room>, run: seq<Event>, i: nat) returns (k: nat)
    requires i < |rs| && forall j :: 0 <= j < |run| ==> Real(run[j])
    ensures k <= |run| && forall j :: k <= j < |run| ==> WhiteSet(Before(rs, run, j), run[j], i).None?
    ensures if k == 0 then After(rs, run)[i].white == rs[i].white
            else WhiteSet(Before(rs, run, k - 1), run[k - 1], i) == Some(After(rs, run)[i].white)
  {
    BeforeEnds(rs, run);
    hide Before, After, WhiteSet, Joins, Leaves, Opens, Closes, TeacherSet;
    k := 0;
    for j := 0 to |run|
      invariant k <= j && forall l :: k <= l < j ==> WhiteSet(Before(rs, run, l), run[l], i).None?
      invariant if k == 0 then Before(rs, run, j)[i].white == rs[i].white
                else WhiteSet(Before(rs, run, k - 1), run[k - 1], i) == Some(Before(rs, run, j)[i].white)
    {
      RunStep(rs, run, i, j);
      if WhiteSet(Before(rs, run, j), run[j], i).Some? {
        k := j + 1;
      }
    }
  }

  /** The teacher of a room is the one the last event to set it has set. */
  lemma TeacherIs(rs: seq<Room>, run: seq<Event>, i: nat) returns (k: nat)
    requires i < |rs| && forall j :: 0 <= j < |run| ==> Real(run[j])
    ensures k <= |run| && forall j :: k <= j < |run| ==> TeacherSet(Before(rs, run, j), run[j], i).None?
    ensures if k == 0 then After(rs, run)[i].teacher == rs[i].teacher
            else TeacherSet(Before(rs, run, k - 1), run[k - 1], i) == Some(After(rs, run)[i].teacher)
  {
    BeforeEnds(rs, run);
    hide Before, After, WhiteSet, Joins, Leaves, Opens, Closes, TeacherSet;
    k := 0;
    for j := 0 to |run|
      invariant k <= j && forall l :: k <= l < j ==> TeacherSet(Before(rs, run, l), run[l], i).None?
      invariant if k == 0 then Before(rs, run, j)[i].teacher == rs[i].teacher
                else TeacherSet(Before(rs, run, k - 1), run[k - 1], i) == Some(Before(rs, run, j)[i].teacher)
    {
      RunStep(rs, run, i, j);
      if TeacherSet(Before(rs, run, j), run[j], i).Some? {
        k := j + 1;
      }
    }
  }

  /** A connection that leaves takes nobody's role but its own. */
  lemma OthersKept(rs: seq<Room>, fd: int, f: int, k: nat)
    requires fd > 0 && k < |rs| && f > 0 && f != fd
    ensures var r, q := rs[k], Next(rs, Disconnect(fd))[k];
            && (f in q.students <==> f in r.students) && (q.white == f <==> r.white == f)
            && (q.teacher == f <==> r.teacher == f)
  {
    DisconnectLaw(rs, fd, k);
    hide Next;
  }

  /** Two roles in one room can be had, and then the connection is still known after it has left: a student who is
      also taken for the whiteboard. */
  lemma StillKnown()
    ensures var rs := [Room(1, "A", -1, -1, false, map[])];
            var run := [SelectAsStudent(7, 1), SelectAsWhiteboard(7, 1), Disconnect(7)];
            Sound(rs) && Resolves(After(rs, run)[0], 7)
  {
    var rs := [Room(1, "A", -1, -1, false, map[])];
    var e1, e2, e3 := SelectAsStudent(7, 1), SelectAsWhiteboard(7, 1), Disconnect(7);
    var run := [e1, e2, e3];
    var q1 := Next(rs, e1);
    var q2 := Next(q1, e2);
    assert q1[0].students == map[7 := Student(0, 0)];
    assert Roles(q2[0], 7) == 2;
    LeftIff(q2, 7, 0);
    assert run[1..] == [e2, e3] && run[1..][1..] == [e3] && [e3][1..] == [];
    assert After(q2, [e3]) == Next(q2, e3);
    assert After(q1, [e2, e3]) == After(q2, [e3]);
  }
}
