/** Length-prefixed messages over a byte stream: the write loop of `SendTask`, the read
    loop of `recv_v` and the header-then-body reception of `recv_cb`.

    What `send` and `recv` answer is a finite schedule of results, fixed beforehand and
    cut down to what the call can transfer. */
module Framing {

  type Byte = b: nat | b < 256 witness 0

  datatype Errno = Eintr | Eagain | Other

  /** What a call answers: a number of bytes, 0 or -1, and the error code then set. */
  datatype Result = Result(n: int, errno: Errno)

  const MAX_BUF: nat := 5120

  /** An answer after which both loops give up. */
  predicate Hard(r: Result) {
    r.n <= 0 && r.errno == Other
  }

  function Min(a: int, b: int): int {
    if a < b then a else b
  }

  /** One direction of a connection: the bytes on the way and the answers to come. */
  class Socket {
    var wire: seq<Byte>
    var results: seq<Result>

    constructor (wire: seq<Byte>, results: seq<Result>)
      ensures this.wire == wire && this.results == results
    {
      this.wire, this.results := wire, results;
    }

    method Send(data: seq<Byte>) returns (written: int, errno: Errno)
      requires results != []
      modifies this
      ensures results == old(results)[1..] && errno == old(results)[0].errno
      ensures written == Min(old(results)[0].n, |data|)
      ensures wire == old(wire) + if written > 0 then data[..written] else []
    {
      written, errno := Min(results[0].n, |data|), results[0].errno;
      results := results[1..];
      wire := wire + if written > 0 then data[..written] else [];
    }

    /** Bytes go into `buf` from `at` on. A call that could take bytes when there are none answers that it should be
        tried again. */
    method Recv(buf: array<Byte>, at: nat, left: nat) returns (len: int, errno: Errno)
      requires results != [] && at + left <= buf.Length
      modifies this, buf
      ensures results == old(results)[1..]
      ensures var r := old(results)[0];
              if r.n <= 0 then len == r.n && errno == r.errno
              else if old(wire) == [] || left == 0 then len == -1 && errno == Eagain
              else len == Min(r.n, Min(left, |old(wire)|)) && len > 0
      ensures len > 0 ==> wire == old(wire)[len..] && forall i {:trigger buf[i]} :: at <= i < at + len ==> buf[i] == old(wire)[i - at]
      ensures len <= 0 ==> wire == old(wire)
      ensures forall i {:trigger buf[i]} :: 0 <= i < buf.Length && !(at <= i < at + len) ==> buf[i] == old(buf[i])
    {
      var r := results[0];
      results := results[1..];
      if r.n <= 0 {
        len, errno := r.n, r.errno;
      } else if wire == [] || left == 0 {
        len, errno := -1, Eagain;
      } else {
        len, errno := Min(r.n, Min(left, |wire|)), Other;
        forall i | 0 <= i < len {
          buf[at + i] := wire[i];
        }
        wire := wire[len..];
      }
    }
  }

  // ----- sending

  /** What a message leaves on the wire, and the answers that are still to come. */
  datatype Sent = Sent(out: seq<Byte>, results: seq<Result>)

  function Sending(data: seq<Byte>, rs: seq<Result>): (s: Sent)
    ensures s.out <= data && |s.results| <= |rs|
    decreases rs
  {
    if data == [] || rs == [] then Sent([], rs)
    else
      var w := Min(rs[0].n, |data|);
      if w > 0 then
        var t := Sending(data[w..], rs[1..]);
        assert data[..w] + data[w..] == data;
        Sent(data[..w] + t.out, t.results)
      else if rs[0].errno == Other then Sent([], rs[1..])
      else Sending(data, rs[1..])
  }

  /** The write loop of `SendTask::work`; it stops short when the schedule ends. */
  method SendLoop(socket: Socket, data: seq<Byte>)
    modifies socket
    ensures var s := Sending(data, old(socket.results));
            socket.wire == old(socket.wire) + s.out && socket.results == s.results
  {
    hide Sending;
    var bytesLeft: nat, ptr: nat := |data|, 0;
    ghost var all := Sending(data, socket.results);
    assert data[0..] == data;
    while bytesLeft > 0 && socket.results != []
      invariant ptr + bytesLeft == |data|
      invariant Sends(old(socket.wire), all, socket.wire, Sending(data[ptr..], socket.results))
      decreases |socket.results|
    {
      SendStep(socket.wire, data[ptr..], socket.results);
      var written, errno := socket.Send(data[ptr..]);
      if written <= 0 {
        if errno == Eintr {
          if written < 0 {
            continue;
          }
        } else if errno == Eagain {
          if written < 0 {
            continue;
          }
        } else {
          return;
        }
        // A call that wrote nothing without an error is tried again as well.
        written := 0;
      }
      assert written > 0 ==> data[ptr..][written..] == data[ptr + written..];
      bytesLeft := bytesLeft - written;
      ptr := ptr + written;
    }
    SendStep(socket.wire, data[ptr..], socket.results);
  }

  /** With `wire` as it is, `s` is what is left of `all`. */
  ghost predicate Sends(was: seq<Byte>, all: Sent, wire: seq<Byte>, s: Sent) {
    wire + s.out == was + all.out && s.results == all.results
  }

  lemma SendStep(wire: seq<Byte>, data: seq<Byte>, rs: seq<Result>)
    ensures var s := Sending(data, rs);
            if data == [] || rs == [] then wire + s.out == wire && s.results == rs
            else
              var w := Min(rs[0].n, |data|);
              if w > 0 then Sends(wire, s, wire + data[..w], Sending(data[w..], rs[1..]))
              else if rs[0].errno == Other then wire + s.out == wire + [] && s.results == rs[1..]
              else wire + [] == wire && s == Sending(data, rs[1..])
  {
    if data != [] && rs != [] {
      var w := Min(rs[0].n, |data|);
      if w > 0 {
        var t := Sending(data[w..], rs[1..]);
        assert wire + (data[..w] + t.out) == (wire + data[..w]) + t.out;
      }
    }
  }

  function Flat(ms: seq<seq<Byte>>): seq<Byte> {
    if ms == [] then [] else ms[0] + Flat(ms[1..])
  }

  /** Messages sent one after the other: a hard error ends its message only. */
  function SendingAll(ms: seq<seq<Byte>>, rs: seq<Result>): Sent
    decreases ms
  {
    if ms == [] then Sent([], rs)
    else
      var s := Sending(ms[0], rs);
      var t := SendingAll(ms[1..], s.results);
      Sent(s.out + t.out, t.results)
  }

  /** A connection that has failed hard once goes on doing so. */
  predicate StaysBroken(rs: seq<Result>) {
    forall i, j :: 0 <= i < j < |rs| && Hard(rs[i]) ==> Hard(rs[j])
  }

  predicate AllHard(rs: seq<Result>) {
    forall i :: 0 <= i < |rs| ==> Hard(rs[i])
  }

  lemma {:induction false} SendingPart(data: seq<Byte>, rs: seq<Result>)
    requires StaysBroken(rs)
    ensures var s := Sending(data, rs); StaysBroken(s.results) && (s.out != data ==> AllHard(s.results))
    decreases rs
  {
    if data != [] && rs != [] {
      var w := Min(rs[0].n, |data|);
      if w > 0 {
        SendingPart(data[w..], rs[1..]);
        assert data[..w] + data[w..] == data;
      } else if rs[0].errno != Other {
        SendingPart(data, rs[1..]);
      }
    }
  }

  lemma {:induction false} NothingMore(ms: seq<seq<Byte>>, rs: seq<Result>)
    requires AllHard(rs)
    ensures SendingAll(ms, rs).out == []
    decreases ms
  {
    if ms != [] {
      NothingMore(ms[1..], Sending(ms[0], rs).results);
    }
  }

  /** Once a message has been cut short, no byte of a later one goes out. */
  predicate NothingAfterCut(ms: seq<seq<Byte>>, rs: seq<Result>)
    decreases ms
  {
    ms == [] ||
    var s := Sending(ms[0], rs);
    if s.out == ms[0] then NothingAfterCut(ms[1..], s.results) else SendingAll(ms[1..], s.results).out == []
  }

  /** So it is on a connection that stays broken. */
  lemma {:induction false} BrokenSendsNothing(ms: seq<seq<Byte>>, rs: seq<Result>)
    requires StaysBroken(rs)
    ensures NothingAfterCut(ms, rs)
    decreases ms
  {
    if ms != [] {
      var s := Sending(ms[0], rs);
      SendingPart(ms[0], rs);
      if s.out == ms[0] {
        BrokenSendsNothing(ms[1..], s.results);
      } else {
        NothingMore(ms[1..], s.results);
      }
    }
  }

  /** Then a hard error leaves an exact prefix of the bytes on the wire. */
  lemma {:induction false} SentPrefix(ms: seq<seq<Byte>>, rs: seq<Result>)
    requires NothingAfterCut(ms, rs)
    ensures SendingAll(ms, rs).out <= Flat(ms)
    decreases ms
  {
    if ms != [] && Sending(ms[0], rs).out == ms[0] {
      SentPrefix(ms[1..], Sending(ms[0], rs).results);
    }
  }

  /** Messages of the same number and lengths. */
  predicate SameLengths(ms: seq<seq<Byte>>, qs: seq<seq<Byte>>) {
    |ms| == |qs| && forall i :: 0 <= i < |ms| ==> |ms[i]| == |qs[i]|
  }

  /** How far a message gets depends on its length only. */
  lemma {:induction false} SendingByLength(a: seq<Byte>, b: seq<Byte>, rs: seq<Result>)
    requires |a| == |b|
    ensures |Sending(a, rs).out| == |Sending(b, rs).out| && Sending(a, rs).results == Sending(b, rs).results
    decreases rs
  {
    if a != [] && rs != [] {
      var w := Min(rs[0].n, |a|);
      if w > 0 {
        SendingByLength(a[w..], b[w..], rs[1..]);
      } else if rs[0].errno != Other {
        SendingByLength(a, b, rs[1..]);
      }
    }
  }

  lemma {:induction false} SendingAllByLength(ms: seq<seq<Byte>>, qs: seq<seq<Byte>>, rs: seq<Result>)
    requires SameLengths(ms, qs)
    ensures |SendingAll(ms, rs).out| == |SendingAll(qs, rs).out|
    decreases ms
  {
    if ms != [] {
      SendingByLength(ms[0], qs[0], rs);
      SendingAllByLength(ms[1..], qs[1..], Sending(ms[0], rs).results);
    }
  }

  /** Messages of the same lengths whose bytes are all `b`. */
  function Filled(ms: seq<seq<Byte>>, b: Byte): (qs: seq<seq<Byte>>)
    ensures SameLengths(ms, qs) && forall i, j :: 0 <= i < |qs| && 0 <= j < |qs[i]| ==> qs[i][j] == b
  {
    if ms == [] then [] else [seq(|ms[0]|, i => b)] + Filled(ms[1..], b)
  }

  lemma {:induction false} FilledSends(ms: seq<seq<Byte>>, b: Byte, rs: seq<Result>)
    requires forall i, j :: 0 <= i < |ms| && 0 <= j < |ms[i]| ==> ms[i][j] == b
    ensures forall j :: 0 <= j < |SendingAll(ms, rs).out| ==> SendingAll(ms, rs).out[j] == b
    decreases ms
  {
    if ms != [] {
      var s := Sending(ms[0], rs);
      assert forall j :: 0 <= j < |s.out| ==> s.out[j] == ms[0][j];
      FilledSends(ms[1..], b, s.results);
    }
  }

  /** When bytes go out after a cut, there are messages of the same lengths of which no prefix is sent: 0 in the
      message that is cut and 1 in those behind it. */
  lemma {:induction false} CutShows(ms: seq<seq<Byte>>, rs: seq<Result>) returns (qs: seq<seq<Byte>>)
    requires !NothingAfterCut(ms, rs)
    ensures SameLengths(ms, qs) && !(SendingAll(qs, rs).out <= Flat(qs))
    decreases ms
  {
    var s := Sending(ms[0], rs);
    if s.out == ms[0] {
      var rest := CutShows(ms[1..], s.results);
      qs := [ms[0]] + rest;
      assert qs[1..] == rest;
      BehindWhole(ms[0], SendingAll(rest, s.results).out, Flat(rest));
    } else {
      qs := Filled([ms[0]], 0) + Filled(ms[1..], 1);
      ghost var zeros, ones := qs[0], Filled(ms[1..], 1);
      assert qs[1..] == ones;
      SendingByLength(ms[0], zeros, rs);
      SendingAllByLength(ms[1..], ones, s.results);
      FilledSends(ones, 1, s.results);
      var k, out, more := |s.out|, SendingAll(qs, rs).out, SendingAll(ones, s.results).out;
      assert out == Sending(zeros, rs).out + more && Flat(qs) == zeros + Flat(ones);
      assert k < |zeros| && out[k] == more[0] == 1 && Flat(qs)[k] == zeros[k] == 0;
    }
  }

  lemma BehindWhole(m: seq<Byte>, out: seq<Byte>, all: seq<Byte>)
    ensures m + out <= m + all <==> out <= all
  {
    assert (m + out)[|m|..] == out && (m + all)[|m|..] == all;
    if m + out <= m + all {
      assert forall i :: 0 <= i < |out| ==> out[i] == (m + out)[|m| + i] == (m + all)[|m| + i] == all[i];
    }
  }

  /** A schedule leaves an exact prefix of the bytes, whatever the messages say, exactly when it lets nothing out
      behind a cut. */
  lemma PrefixIff(ms: seq<seq<Byte>>, rs: seq<Result>)
    ensures (forall qs | SameLengths(ms, qs) :: SendingAll(qs, rs).out <= Flat(qs)) <==> NothingAfterCut(ms, rs)
  {
    if NothingAfterCut(ms, rs) {
      forall qs | SameLengths(ms, qs) ensures SendingAll(qs, rs).out <= Flat(qs) {
        CutByLength(ms, qs, rs);
        SentPrefix(qs, rs);
      }
    } else {
      var qs := CutShows(ms, rs);
    }
  }

  lemma {:induction false} CutByLength(ms: seq<seq<Byte>>, qs: seq<seq<Byte>>, rs: seq<Result>)
    requires SameLengths(ms, qs) && NothingAfterCut(ms, rs)
    ensures NothingAfterCut(qs, rs)
    decreases ms
  {
    if ms != [] {
      var s := Sending(ms[0], rs);
      SendingByLength(ms[0], qs[0], rs);
      if s.out == ms[0] {
        CutByLength(ms[1..], qs[1..], s.results);
      } else {
        SendingAllByLength(ms[1..], qs[1..], s.results);
      }
    }
  }

  /** A real loss: the loop drops the rest of a message and sends the next one. */
  lemma PrefixLost()
    ensures exists ms: seq<seq<Byte>>, rs: seq<Result> ::
              (forall i :: 0 <= i < |ms| ==> IsMessage(ms[i])) && !(SendingAll(ms, rs).out <= Flat(ms))
  {
    var a: seq<Byte> := [5, 0, 0, 0, 1];
    var b: seq<Byte> := [4, 0, 0, 0];
    var r0, r1, r2 := Result(1, Other), Result(-1, Other), Result(4, Other);
    var rs := [r0, r1, r2];
    assert rs[1..] == [r1, r2] && rs[1..][1..] == [r2] && [r2][1..] == [];
    assert Sending(a[1..], [r1, r2]) == Sent([], [r2]);
    assert Sending(a, rs) == Sent([5], [r2]) by {
      assert a[..1] == [5];
    }
    assert b[..4] == b && b[4..] == [];
    assert Sending(b, [r2]) == Sent(b, []);
    var ms := [a, b];
    assert ms[1..] == [b] && [b][1..] == [];
    assert SendingAll([b], [r2]) == Sent(b, []);
    assert SendingAll(ms, rs).out == [5] + b;
    assert Flat([b]) == b + [];
    assert Flat(ms) == a + (b + []);
    assert (a + (b + []))[1] == 0 && ([5] + b)[1] == 4;
    SmallLengths(a, b);
  }

  lemma SmallLengths(a: seq<Byte>, b: seq<Byte>)
    requires a == [5, 0, 0, 0, 1] && b == [4, 0, 0, 0]
    ensures IsMessage(a) && IsMessage(b)
  {
    assert LengthBytes(5) == [5, 0, 0, 0] && LengthBytes(4) == [4, 0, 0, 0];
  }

  /** The answers that let bytes through. */
  function Through(rs: seq<Result>): nat {
    if rs == [] then 0 else (if rs[0].n > 0 then 1 else 0) + Through(rs[1..])
  }

  /** Every answer lets bytes through or asks for another try. */
  predicate NoneHard(rs: seq<Result>) {
    forall i :: 0 <= i < |rs| ==> rs[i].n > 0 || rs[i].errno == Eintr || rs[i].errno == Eagain
  }

  /** A message that the answers up to a hard one have not let through whole ends there, and the next one goes on
      behind it. */
  lemma {:induction false} HardCuts(data: seq<Byte>, rs: seq<Result>, k: nat)
    requires k < |rs| && NoneHard(rs[..k]) && rs[k].n <= 0 && rs[k].errno == Other
    requires Sending(data, rs[..k]).out != data
    ensures Sending(data, rs) == Sent(Sending(data, rs[..k]).out, rs[k + 1..])
    decreases rs
  {
    if k > 0 {
      assert rs[..k][1..] == rs[1..][..k - 1] && rs[..k][0] == rs[0];
      assert rs[1..][k..] == rs[k + 1..];
      HardCutsStep(data, rs, k);
    }
  }

  lemma {:induction false} HardCutsStep(data: seq<Byte>, rs: seq<Result>, k: nat)
    requires 0 < k < |rs| && NoneHard(rs[..k]) && rs[k].n <= 0 && rs[k].errno == Other
    requires Sending(data, rs[..k]).out != data
    requires rs[..k][1..] == rs[1..][..k - 1] && rs[..k][0] == rs[0] && rs[1..][k..] == rs[k + 1..]
    ensures Sending(data, rs) == Sent(Sending(data, rs[..k]).out, rs[k + 1..])
    decreases rs, 0
  {
    var w := Min(rs[0].n, |data|);
    if w > 0 {
      assert data[..w] + data[w..] == data;
      HardCuts(data[w..], rs[1..], k - 1);
    } else {
      HardCuts(data, rs[1..], k - 1);
    }
  }

  lemma {:induction false} SendingWhole(data: seq<Byte>, rs: seq<Result>, more: nat)
    requires NoneHard(rs) && Through(rs) >= |data| + more
    ensures var s := Sending(data, rs); s.out == data && NoneHard(s.results) && Through(s.results) >= more
    decreases rs
  {
    if data != [] && rs != [] {
      var w := Min(rs[0].n, |data|);
      if w > 0 {
        SendingWhole(data[w..], rs[1..], more);
        assert data[..w] + data[w..] == data;
      } else {
        SendingWhole(data, rs[1..], more);
      }
    }
  }

  /** Without hard errors, retries and fragments of any size change nothing. */
  lemma {:induction false} SentWhole(ms: seq<seq<Byte>>, rs: seq<Result>)
    requires NoneHard(rs) && Through(rs) >= |Flat(ms)|
    ensures SendingAll(ms, rs).out == Flat(ms)
    decreases ms
  {
    if ms != [] {
      SendingWhole(ms[0], rs, |Flat(ms[1..])|);
      SentWhole(ms[1..], Sending(ms[0], rs).results);
    }
  }

  // ----- receiving

  datatype Read = Read(got: seq<Byte>, wire: seq<Byte>, results: seq<Result>)

  function Reading(wire: seq<Byte>, left: nat, rs: seq<Result>): (r: Read)
    ensures r.got + r.wire == wire && |r.got| <= left && |r.results| <= |rs|
    ensures r.got != [] ==> |r.results| < |rs|
    decreases rs
  {
    if left == 0 || rs == [] then Read([], wire, rs)
    else if Hard(rs[0]) then Read([], wire, rs[1..])
    else if rs[0].n <= 0 || wire == [] then Reading(wire, left, rs[1..])
    else
      var k := Min(rs[0].n, Min(left, |wire|));
      var t := Reading(wire[k..], left - k, rs[1..]);
      Read(wire[..k] + t.got, t.wire, t.results)
  }

  /** `recv_v`, into a buffer from index `at` on; a negative count reads nothing. */
  method RecvV(socket: Socket, buf: array<Byte>, at: nat, count: int) returns (recved: nat)
    requires at <= buf.Length && at + count <= buf.Length
    modifies socket, buf
    ensures var r := Reading(old(socket.wire), Max0(count), old(socket.results));
            && recved == |r.got| && buf[at..at + recved] == r.got
            && socket.wire == r.wire && socket.results == r.results
    ensures forall i :: 0 <= i < buf.Length && !(at <= i < at + recved) ==> buf[i] == old(buf[i])
  {
    hide Reading;
    hide Reads;
    recved := 0;
    var left := count;
    ghost var all, got: seq<Byte> := Reading(socket.wire, Max0(count), socket.results), [];
    assert Reads(all, got, all) by {
      ReadsAll(all);
    }
    while left > 0 && socket.results != []
      invariant |got| == recved && recved + Max0(left) == Max0(count) && (left < 0 ==> left == count)
      invariant forall i {:trigger buf[i]} :: at <= i < at + recved ==> buf[i] == got[i - at]
      invariant forall i {:trigger buf[i]} :: 0 <= i < buf.Length && !(at <= i < at + recved) ==> buf[i] == old(buf[i])
      invariant Reads(all, got, Reading(socket.wire, Max0(left), socket.results))
      decreases |socket.results|
    {
      ghost var wire := socket.wire;
      ReadStep(all, got, wire, left, socket.results);
      var len, errno := socket.Recv(buf, at + recved, left);
      if len <= 0 {
        if errno == Eagain {
          continue;
        } else if errno == Eintr {
          continue;
        } else {
          assert buf[at..at + recved] == got;
          return;
        }
      }
      got := got + wire[..len];
      left := left - len;
      recved := recved + len;
    }
    ReadStep(all, got, socket.wire, Max0(left), socket.results);
    assert buf[at..at + recved] == got;
  }

  function Max0(n: int): nat {
    if n < 0 then 0 else n
  }

  /** With `done` read, `r` is what is left of `all`. */
  ghost predicate Reads(all: Read, done: seq<Byte>, r: Read) {
    done + r.got == all.got && r.wire == all.wire && r.results == all.results
  }

  lemma ReadsAll(all: Read)
    ensures Reads(all, [], all)
  {
    assert [] + all.got == all.got;
  }

  lemma ReadStep(all: Read, done: seq<Byte>, wire: seq<Byte>, left: nat, rs: seq<Result>)
    requires Reads(all, done, Reading(wire, left, rs))
    ensures if left == 0 || rs == [] then all == Read(done, wire, rs)
            else if Hard(rs[0]) then all == Read(done, wire, rs[1..])
            else if rs[0].n <= 0 || wire == [] then Reads(all, done, Reading(wire, left, rs[1..]))
            else
              var k := Min(rs[0].n, Min(left, |wire|));
              Reads(all, done + wire[..k], Reading(wire[k..], left - k, rs[1..]))
  {
    assert done + [] == done;
    if left == 0 || rs == [] {
      assert Reading(wire, left, rs) == Read([], wire, rs);
    } else if Hard(rs[0]) {
      assert Reading(wire, left, rs) == Read([], wire, rs[1..]);
    } else {
      ReadingUnfold(wire, left, rs);
      hide Reading;
      if rs[0].n > 0 && wire != [] {
        var k := Min(rs[0].n, Min(left, |wire|));
        ConcatThree(done, wire[..k], Reading(wire[k..], left - k, rs[1..]).got);
      }
    }
  }

  lemma ConcatThree(a: seq<Byte>, b: seq<Byte>, c: seq<Byte>)
    ensures a + (b + c) == (a + b) + c
  {
  }

  /** A little-endian `int` of 4 bytes. */
  function Header(b: seq<Byte>): int
    requires |b| == 4
  {
    var u: int := b[0] as int + 0x100 * b[1] as int + 0x1_0000 * b[2] as int + 0x100_0000 * b[3] as int;
    if u < 0x8000_0000 then u else u - 0x1_0000_0000
  }

  /** The bytes of an `int` in memory, by division and remainder, the least significant first; a negative one is
      2^32 more. */
  function LengthBytes(n: int): (b: seq<Byte>)
    requires -0x8000_0000 <= n < 0x8000_0000
    ensures |b| == 4
  {
    var u: nat := if n < 0 then n + 0x1_0000_0000 else n;
    [u % 0x100, u / 0x100 % 0x100, u / 0x1_0000 % 0x100, u / 0x100_0000]
  }

  /** Every `int` is read back from its bytes. */
  lemma HeaderBack(n: int)
    requires -0x8000_0000 <= n < 0x8000_0000
    ensures Header(LengthBytes(n)) == n
  {
    var u: nat := if n < 0 then n + 0x1_0000_0000 else n;
    DigitsSum(u);
  }

  lemma DigitsSum(u: nat)
    ensures u == u % 0x100 + 0x100 * (u / 0x100 % 0x100) + 0x1_0000 * (u / 0x1_0000 % 0x100) + 0x100_0000 * (u / 0x100_0000)
  {
    assert u / 0x1_0000 == u / 0x100 / 0x100 && u / 0x100_0000 == u / 0x1_0000 / 0x100;
  }

  /** A message: its first 4 bytes are those of its whole length. */
  predicate IsMessage(m: seq<Byte>) {
    4 <= |m| <= MAX_BUF && m[..4] == LengthBytes(|m|)
  }

  /** A message with a body: what a sender writes. */
  function Framed(body: seq<Byte>): (m: seq<Byte>)
    requires |body| + 4 <= MAX_BUF
    ensures IsMessage(m) && m[4..] == body
  {
    LengthBytes(|body| + 4) + body
  }

  /** What `recv_cb` does with a readable connection: a message handed on, the connection closed, or a length that
      the buffer has no room for, which the source does not check. */
  datatype Received =
    | Message(bytes: seq<Byte>, wire: seq<Byte>, results: seq<Result>)
    | Closed
    | NoRoom

  function Receive(wire: seq<Byte>, rs: seq<Result>): (r: Received)
    ensures r.Message? ==> |r.results| < |rs|
  {
    var h := Reading(wire, 4, rs);
    if |h.got| != 4 then Closed
    else
      var n := Header(h.got);
      if n > MAX_BUF then NoRoom
      else if n < 4 then Closed
      else
        var b := Reading(h.wire, n - 4, h.results);
        if |b.got| != n - 4 then Closed else Message(h.got + b.got, b.wire, b.results)
  }

  /** `recv_cb`, into the buffer it has taken from the pool. */
  method RecvCb(socket: Socket, buf: array<Byte>) returns (ok: bool)
    requires buf.Length == MAX_BUF
    requires !Receive(socket.wire, socket.results).NoRoom?
    modifies socket, buf
    ensures var r := Receive(old(socket.wire), old(socket.results));
            && (ok <==> r.Message?)
            && (ok ==> buf[..|r.bytes|] == r.bytes && socket.wire == r.wire && socket.results == r.results)
  {
    var i := RecvV(socket, buf, 0, 4);
    if i != 4 {
      return false;
    }
    ghost var head := buf[0..4];
    var n := Header(buf[0..4]);
    i := RecvV(socket, buf, 4, n - 4);
    if n - 4 != i {
      return false;
    }
    assert buf[0..4] == head && buf[..n] == head + buf[4..4 + i];
    ok := true;
  }

  /** The messages received until the connection is closed. */
  function ReceiveAll(wire: seq<Byte>, rs: seq<Result>): seq<seq<Byte>>
    decreases |rs|
  {
    match Receive(wire, rs)
    case Message(m, w, qs) => [m] + ReceiveAll(w, qs)
    case _ => []
  }

  /** Reading stops short at a hard answer as well. */
  lemma {:induction false} HardEndsReading(wire: seq<Byte>, left: nat, rs: seq<Result>, k: nat)
    requires k < |rs| && NoneHard(rs[..k]) && rs[k].n <= 0 && rs[k].errno == Other
    requires |Reading(wire, left, rs[..k]).got| < left
    ensures var r := Reading(wire, left, rs[..k]); Reading(wire, left, rs) == Read(r.got, r.wire, rs[k + 1..])
    decreases rs
  {
    if k > 0 {
      assert rs[..k][1..] == rs[1..][..k - 1] && rs[..k][0] == rs[0];
      assert rs[1..][k..] == rs[k + 1..];
      HardEndsStep(wire, left, rs, k);
    }
  }

  lemma {:induction false} HardEndsStep(wire: seq<Byte>, left: nat, rs: seq<Result>, k: nat)
    requires 0 < k < |rs| && NoneHard(rs[..k]) && rs[k].n <= 0 && rs[k].errno == Other
    requires |Reading(wire, left, rs[..k]).got| < left
    requires rs[..k][1..] == rs[1..][..k - 1] && rs[..k][0] == rs[0] && rs[1..][k..] == rs[k + 1..]
    ensures var r := Reading(wire, left, rs[..k]); Reading(wire, left, rs) == Read(r.got, r.wire, rs[k + 1..])
    decreases rs, 0
  {
    hide Reading;
    ReadingUnfold(wire, left, rs);
    ReadingUnfold(wire, left, rs[..k]);
    assert NoneHard(rs[1..][..k - 1]);
    hide NoneHard;
    if rs[0].n <= 0 || wire == [] {
      HardEndsReading(wire, left, rs[1..], k - 1);
    } else {
      var n := Min(rs[0].n, Min(left, |wire|));
      HardEndsReading(wire[n..], left - n, rs[1..], k - 1);
    }
  }

  lemma ReadingUnfold(wire: seq<Byte>, left: nat, rs: seq<Result>)
    requires left > 0 && rs != [] && (rs[0].n > 0 || rs[0].errno == Eintr || rs[0].errno == Eagain)
    ensures Reading(wire, left, rs) ==
              if rs[0].n <= 0 || wire == [] then Reading(wire, left, rs[1..])
              else
                var k := Min(rs[0].n, Min(left, |wire|));
                var t := Reading(wire[k..], left - k, rs[1..]);
                Read(wire[..k] + t.got, t.wire, t.results)
  {
  }

  // ----- what is received, whatever arrives

  /** Four bytes are those of the `int` they are read as. */
  lemma HeaderForth(b: seq<Byte>)
    requires |b| == 4
    ensures -0x8000_0000 <= Header(b) < 0x8000_0000 && LengthBytes(Header(b)) == b
  {
    var u: nat := b[0] as int + 0x100 * b[1] as int + 0x1_0000 * b[2] as int + 0x100_0000 * b[3] as int;
    DigitAt(b[0], b[1] as int + 0x100 * b[2] as int + 0x1_0000 * b[3] as int, u);
    DigitAt(b[1], b[2] as int + 0x100 * b[3] as int, u / 0x100);
    DigitAt(b[2], b[3], u / 0x1_0000);
    assert u / 0x1_0000 == u / 0x100 / 0x100 && u / 0x100_0000 == u / 0x1_0000 / 0x100;
  }

  lemma DigitAt(d: nat, r: nat, u: nat)
    requires d < 0x100 && u == d + 0x100 * r
    ensures u % 0x100 == d && u / 0x100 == r
  {
  }

  lemma MessageParts(wire: seq<Byte>, rs: seq<Result>) returns (h: seq<Byte>, b: seq<Byte>)
    requires Receive(wire, rs).Message?
    ensures var r := Receive(wire, rs); r.bytes == h + b && wire == h + (b + r.wire)
    ensures |h| == 4 && 4 <= Header(h) == |h + b| <= MAX_BUF
  {
    hide Reading, Header;
    var x := Reading(wire, 4, rs);
    var y := Reading(x.wire, Header(x.got) - 4, x.results);
    h, b := x.got, y.got;
  }

  /** What is handed on is a message of its own length, taken from the front of what has arrived. */
  lemma OnlyMessages(wire: seq<Byte>, rs: seq<Result>)
    ensures var r := Receive(wire, rs); r.Message? ==> IsMessage(r.bytes) && r.bytes + r.wire == wire
  {
    hide Receive, Header, LengthBytes;
    var r := Receive(wire, rs);
    if r.Message? {
      var h, b := MessageParts(wire, rs);
      HeaderForth(h);
      assert (h + b)[..4] == h;
      assert (h + b) + r.wire == h + (b + r.wire);
    }
  }

  /** Whatever bytes arrive, even no messages at all: what is received are messages, and they are the front of it. */
  lemma {:induction false} AllMessages(wire: seq<Byte>, rs: seq<Result>)
    ensures var ms := ReceiveAll(wire, rs); Flat(ms) <= wire && forall i :: 0 <= i < |ms| ==> IsMessage(ms[i])
    decreases |rs|
  {
    OnlyMessages(wire, rs);
    hide Receive, IsMessage;
    var r := Receive(wire, rs);
    if r.Message? {
      AllMessages(r.wire, r.results);
      var ms := ReceiveAll(r.wire, r.results);
      assert Flat([r.bytes] + ms) == r.bytes + Flat(ms) by {
        assert ([r.bytes] + ms)[1..] == ms;
      }
      assert r.bytes + Flat(ms) <= r.bytes + r.wire;
    }
  }

  // ----- end to end

  /** The first message comes out of the wire whole, or nothing does. */
  lemma ReceiveFirst(wire: seq<Byte>, rs: seq<Result>, m: seq<Byte>, tail: seq<Byte>)
    requires IsMessage(m) && wire <= m + tail
    ensures var r := Receive(wire, rs);
            !r.NoRoom? && (r.Message? ==> r.bytes == m && m + r.wire == wire && r.wire <= tail)
  {
    var h := Reading(wire, 4, rs);
    if |h.got| == 4 {
      assert h.got == wire[..4] == m[..4];
      HeaderBack(|m|);
      var b := Reading(h.wire, |m| - 4, h.results);
      if |b.got| == |m| - 4 {
        assert h.got + b.got == wire[..|m|] == m;
        assert b.wire == wire[|m|..] && (m + tail)[|m|..] == tail;
      }
    }
  }

  /** Whatever prefix of the bytes arrives and whatever the calls answer, what is received is a prefix of the messages. */
  lemma {:induction false} ReceivedPrefix(wire: seq<Byte>, rs: seq<Result>, ms: seq<seq<Byte>>)
    requires forall i :: 0 <= i < |ms| ==> IsMessage(ms[i])
    requires wire <= Flat(ms)
    ensures ReceiveAll(wire, rs) <= ms
    decreases |rs|
  {
    if ms != [] {
      ReceiveFirst(wire, rs, ms[0], Flat(ms[1..]));
      var r := Receive(wire, rs);
      if r.Message? {
        ReceivedPrefix(r.wire, r.results, ms[1..]);
      }
    }
  }

  lemma {:induction false} ReadingWhole(wire: seq<Byte>, left: nat, rs: seq<Result>)
    requires NoneHard(rs) && Through(rs) >= |wire| >= left
    ensures var r := Reading(wire, left, rs);
            |r.got| == left && NoneHard(r.results) && Through(r.results) >= |r.wire|
    decreases rs
  {
    hide *;
    if left == 0 || rs == [] {
      ReadingNone(wire, left, rs);
    } else {
      NotHard(rs);
      ReadingUnfold(wire, left, rs);
      ThroughNext(rs);
      var k := Min(rs[0].n, Min(left, |wire|));
      MinOf(rs[0].n, Min(left, |wire|));
      MinOf(left, |wire|);
      if rs[0].n <= 0 {
        ReadingWhole(wire, left, rs[1..]);
      } else {
        ReadingWhole(wire[k..], left - k, rs[1..]);
      }
    }
  }

  lemma ReadingNone(wire: seq<Byte>, left: nat, rs: seq<Result>)
    requires left == 0 || rs == []
    ensures Reading(wire, left, rs) == Read([], wire, rs) && (rs == [] ==> Through(rs) == 0)
  {
  }

  lemma NotHard(rs: seq<Result>)
    requires NoneHard(rs) && rs != []
    ensures rs[0].n > 0 || rs[0].errno == Eintr || rs[0].errno == Eagain
  {
  }

  lemma MinOf(a: int, b: int)
    ensures Min(a, b) == (if a < b then a else b)
  {
  }

  lemma ThroughNext(rs: seq<Result>)
    requires NoneHard(rs) && rs != []
    ensures NoneHard(rs[1..]) && Through(rs) == (if rs[0].n > 0 then 1 else 0) + Through(rs[1..])
  {
  }

  lemma NothingReceived(rs: seq<Result>)
    ensures Receive([], rs).Closed? && Flat([]) == [] && ReceiveAll([], rs) == []
  {
    assert Reading([], 4, rs).got == [];
  }

  lemma ReceivedOne(m: seq<Byte>, tail: seq<Byte>, rs: seq<Result>)
    requires IsMessage(m) && NoneHard(rs) && Through(rs) >= |m + tail|
    ensures var r := Receive(m + tail, rs);
            r.Message? && r.bytes == m && r.wire == tail && NoneHard(r.results) && Through(r.results) >= |tail|
  {
    var wire := m + tail;
    ReceiveFirst(wire, rs, m, tail);
    ReadingWhole(wire, 4, rs);
    var h := Reading(wire, 4, rs);
    assert h.got == wire[..4] == m[..4];
    HeaderBack(|m|);
    ReadingWhole(h.wire, |m| - 4, h.results);
    hide Reading, Through, NoneHard, Header, LengthBytes;
    var r := Receive(wire, rs);
    assert m + r.wire == m + tail;
    assert r.wire == (m + r.wire)[|m|..] == (m + tail)[|m|..] == tail;
  }

  lemma {:induction false} ReceivedWhole(rs: seq<Result>, ms: seq<seq<Byte>>)
    requires forall i :: 0 <= i < |ms| ==> IsMessage(ms[i])
    requires NoneHard(rs) && Through(rs) >= |Flat(ms)|
    ensures ReceiveAll(Flat(ms), rs) == ms
    decreases |ms|
  {
    hide *;
    if ms == [] {
      NothingReceived(rs);
    } else {
      var m, tail := ms[0], Flat(ms[1..]);
      FlatNext(ms);
      ReceivedOne(m, tail, rs);
      ReceiveNext(m + tail, rs);
      var r := Receive(m + tail, rs);
      ReceivedWhole(r.results, ms[1..]);
      assert ms == [m] + ms[1..];
    }
  }

  lemma FlatNext(ms: seq<seq<Byte>>)
    requires ms != []
    ensures Flat(ms) == ms[0] + Flat(ms[1..])
  {
  }

  lemma ReceiveNext(wire: seq<Byte>, rs: seq<Result>)
    requires Receive(wire, rs).Message?
    ensures var r := Receive(wire, rs); ReceiveAll(wire, rs) == [r.bytes] + ReceiveAll(r.wire, r.results)
  {
  }

  /** The sender's loop followed by the receiver's: with any fragments, interruptions and retries on both sides the
      messages received are a prefix of those sent, and all of them when nothing fails hard. */
  lemma EndToEnd(ms: seq<seq<Byte>>, sends: seq<Result>, recvs: seq<Result>)
    requires forall i :: 0 <= i < |ms| ==> IsMessage(ms[i])
    requires NothingAfterCut(ms, sends)
    ensures ReceiveAll(SendingAll(ms, sends).out, recvs) <= ms
    ensures NoneHard(sends) && NoneHard(recvs) && Through(sends) >= |Flat(ms)| && Through(recvs) >= |Flat(ms)| ==>
              ReceiveAll(SendingAll(ms, sends).out, recvs) == ms
  {
    SentPrefix(ms, sends);
    ReceivedPrefix(SendingAll(ms, sends).out, recvs, ms);
    if NoneHard(sends) && NoneHard(recvs) && Through(sends) >= |Flat(ms)| && Through(recvs) >= |Flat(ms)| {
      SentWhole(ms, sends);
      ReceivedWhole(recvs, ms);
    }
  }
}
