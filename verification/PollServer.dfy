/** The poll server: its descriptor table against a kernel that may do anything
    POSIX allows. A round of the event loop is described by what the kernel
    answers in it, so a run is any sequence of legal rounds. */
module PollServer {

  const MAX_CLIENTS := 100

  /** pollin is POLLIN; broken is POLLERR, POLLHUP or POLLNVAL. */
  datatype Revents = Revents(pollin: bool, broken: bool)

  const NOTHING := Revents(false, false)

  /** A slot of the table; fd is -1 in a slot that is not in use. */
  datatype PollFd = PollFd(fd: int, revents: Revents)

  datatype Event =
    | Polled(ready: set<int>)
    | Accepted(fd: int)
    | Refused(fd: int)
    | Received(fd: int)
    | Closed(fd: int, wasOpen: bool)

  /** fds is the table, open the descriptors of the process that are open, log
      what has happened so far. */
  datatype State = State(fds: seq<PollFd>, open: set<int>, log: seq<Event>, running: bool)

  datatype PollAnswer = Interrupted | PollFailed | Ready(revents: seq<Revents>)

  datatype RecvAnswer = Data | EndOfStream | WouldBlock | RecvFailed

  /** What the kernel answers in one round: to poll, to the accepts up to the
      one that fails, and to a recv on each slot. */
  datatype Round = Round(poll: PollAnswer, accepts: seq<int>, recvs: seq<RecvAnswer>)

  // ---- The event loop ----

  function Start(server: int): State {
    State([PollFd(server, NOTHING)] + seq(MAX_CLIENTS, _ => PollFd(-1, NOTHING)), {server}, [], true)
  }

  /** The lowest free slot from i on, or the size of the table. */
  function FreeSlot(fds: seq<PollFd>, i: nat): (r: nat)
    requires i <= |fds|
    ensures i <= r <= |fds|
    ensures r < |fds| ==> fds[r].fd == -1
    ensures forall k :: i <= k < r ==> fds[k].fd != -1
    decreases |fds| - i
  {
    if i == |fds| || fds[i].fd == -1 then i else FreeSlot(fds, i + 1)
  }

  /** An accepted connection is stored in the lowest free slot, whose revents
      are left as they are, or closed at once. */
  function AcceptOne(st: State, fd: int): State
    requires 0 < |st.fds|
  {
    var i := FreeSlot(st.fds, 1);
    if i < |st.fds| then
      st.(fds := st.fds[i := st.fds[i].(fd := fd)], open := st.open + {fd}, log := st.log + [Accepted(fd)])
    else st.(log := st.log + [Refused(fd)])
  }

  function AcceptAll(st: State, accepts: seq<int>, n: nat): (r: State)
    requires 0 < |st.fds| && n <= |accepts|
    ensures |r.fds| == |st.fds|
  {
    if n == 0 then st else AcceptOne(AcceptAll(st, accepts, n - 1), accepts[n - 1])
  }

  /** close: on a descriptor that is not open it fails with EBADF and has no
      effect. */
  function Close(st: State, fd: int): State {
    st.(open := st.open - {fd}, log := st.log + [Closed(fd, fd in st.open)])
  }

  function CloseSlot(st: State, i: nat, fd: int): State
    requires i < |st.fds|
  {
    var s := Close(st, fd);
    s.(fds := s.fds[i := s.fds[i].(fd := -1)])
  }

  /** Both parts of the body of the client loop. They close the descriptor read
      at the top of the body, the second one even if the first one has done so. */
  function ClientStep(st: State, i: nat, recv: RecvAnswer): (r: State)
    requires i < |st.fds|
    ensures |r.fds| == |st.fds|
  {
    var fd, revents := st.fds[i].fd, st.fds[i].revents;
    if fd == -1 then st
    else
      var received := if revents.pollin then st.(log := st.log + [Received(fd)]) else st;
      var first := if revents.pollin && (recv.EndOfStream? || recv.RecvFailed?) then CloseSlot(received, i, fd) else received;
      if revents.broken then CloseSlot(first, i, fd) else first
  }

  function ClientPass(st: State, recvs: seq<RecvAnswer>, n: nat): (r: State)
    requires n <= |recvs| && n <= |st.fds|
    ensures |r.fds| == |st.fds|
  {
    if n <= 1 then st else ClientStep(ClientPass(st, recvs, n - 1), n - 1, recvs[n - 1])
  }

  function ReadySet(fds: seq<PollFd>): set<int> {
    set i | 0 <= i < |fds| && fds[i].fd != -1 && fds[i].revents.pollin :: fds[i].fd
  }

  function PollDone(st: State, revents: seq<Revents>): (r: State)
    requires |revents| == |st.fds|
    ensures |r.fds| == |st.fds|
  {
    var fds := seq(|st.fds|, i requires 0 <= i < |st.fds| => PollFd(st.fds[i].fd, revents[i]));
    st.(fds := fds, log := st.log + [Polled(ReadySet(fds))])
  }

  function AcceptPass(st: State, accepts: seq<int>): (r: State)
    requires 0 < |st.fds|
    ensures |r.fds| == |st.fds|
  {
    if st.fds[0].revents.pollin then AcceptAll(st, accepts, |accepts|) else st
  }

  /** One round: a failed poll leaves the loop unless it was interrupted. */
  function Step(st: State, round: Round): (r: State)
    requires 0 < |st.fds| && Shaped(st, round)
    ensures |r.fds| == |st.fds|
  {
    if !st.running then st
    else match round.poll
      case Interrupted => st
      case PollFailed => st.(running := false)
      case Ready(revents) =>
        ClientPass(AcceptPass(PollDone(st, revents), round.accepts), round.recvs, |st.fds|)
  }

  // ---- What POSIX promises ----

  predicate Shaped(st: State, round: Round) {
    |round.recvs| == |st.fds| && (round.poll.Ready? ==> |round.poll.revents| == |st.fds|)
  }

  /** accept returns a descriptor that was not open. */
  predicate LegalAccept(st: State, accepts: seq<int>, n: nat)
    requires 0 < |st.fds| && n < |accepts|
  {
    accepts[n] >= 0 && accepts[n] !in AcceptAll(st, accepts, n).open
  }

  predicate LegalAccepts(st: State, accepts: seq<int>)
    requires 0 < |st.fds|
  {
    forall n {:trigger LegalAccept(st, accepts, n)} :: 0 <= n < |accepts| ==> LegalAccept(st, accepts, n)
  }

  /** poll reports nothing on a slot whose fd is negative. */
  predicate Legal(st: State, round: Round)
    requires 0 < |st.fds|
  {
    && Shaped(st, round)
    && (round.poll.Ready? ==>
          && (forall i :: 0 <= i < |st.fds| && st.fds[i].fd < 0 ==> round.poll.revents[i] == NOTHING)
          && LegalAccepts(PollDone(st, round.poll.revents), round.accepts))
  }

  ghost predicate LegalRun(server: int, rounds: seq<Round>) {
    rounds == [] || (LegalRun(server, Front(rounds)) && Legal(Run(server, Front(rounds)), rounds[|rounds| - 1]))
  }

  ghost function Run(server: int, rounds: seq<Round>): (st: State)
    ensures |st.fds| == MAX_CLIENTS + 1
  {
    if rounds == [] then Start(server)
    else
      var st, round := Run(server, Front(rounds)), rounds[|rounds| - 1];
      if Shaped(st, round) then Step(st, round) else st
  }

  function Front(rounds: seq<Round>): seq<Round>
    requires rounds != []
  {
    rounds[..|rounds| - 1]
  }

  // ---- Ownership ----

  /** The open descriptors are exactly the entries of the table: slot 0 is the
      listening socket, and no descriptor is in two slots. */
  ghost predicate Owned(server: int, st: State) {
    && |st.fds| == MAX_CLIENTS + 1
    && st.fds[0].fd == server >= 0
    && (forall i :: 0 <= i < |st.fds| ==> st.fds[i].fd == -1 || st.fds[i].fd in st.open)
    && (forall i, j :: 0 <= i < j < |st.fds| && st.fds[i].fd != -1 ==> st.fds[i].fd != st.fds[j].fd)
    && (forall fd :: fd in st.open ==> fd >= 0 && exists i :: 0 <= i < |st.fds| && st.fds[i].fd == fd)
  }

  lemma StartOwned(server: int)
    requires server >= 0
    ensures Owned(server, Start(server))
  {
    assert Start(server).fds[0].fd == server;
  }

  lemma PollOwned(server: int, st: State, revents: seq<Revents>)
    requires Owned(server, st) && |revents| == |st.fds|
    ensures Owned(server, PollDone(st, revents))
  {
    var r := PollDone(st, revents);
    forall fd | fd in r.open
      ensures exists i :: 0 <= i < |r.fds| && r.fds[i].fd == fd
    {
      var i :| 0 <= i < |st.fds| && st.fds[i].fd == fd;
      assert r.fds[i].fd == fd;
    }
  }

  lemma AcceptOwned(server: int, st: State, fd: int)
    requires Owned(server, st) && fd >= 0 && fd !in st.open
    ensures Owned(server, AcceptOne(st, fd))
  {
    var r, slot := AcceptOne(st, fd), FreeSlot(st.fds, 1);
    forall x | x in r.open
      ensures x >= 0 && exists i :: 0 <= i < |r.fds| && r.fds[i].fd == x
    {
      if x == fd {
        assert r.fds[slot].fd == x;
      } else {
        var i :| 0 <= i < |st.fds| && st.fds[i].fd == x;
        assert r.fds[i].fd == x;
      }
    }
  }

  function Freed(fds: seq<PollFd>, i: nat): seq<PollFd>
    requires i < |fds|
  {
    fds[i := fds[i].(fd := -1)]
  }

  /** A connection is given up when it has ended, has failed or is broken. */
  predicate GivenUp(p: PollFd, recv: RecvAnswer) {
    p.fd != -1 && (p.revents.broken || (p.revents.pollin && (recv.EndOfStream? || recv.RecvFailed?)))
  }

  /** What one slot of the client pass does: it frees its slot and closes its
      own descriptor, once or twice, exactly when the connection is given up,
      and so never closes the connection of another slot. */
  lemma ClientStepEffect(st: State, i: nat, recv: RecvAnswer)
    requires i < |st.fds|
    ensures var r, gone := ClientStep(st, i, recv), GivenUp(st.fds[i], recv);
      && r.fds == (if gone then Freed(st.fds, i) else st.fds)
      && r.open == (if gone then st.open - {st.fds[i].fd} else st.open)
  {
  }

  lemma FreedOwned(server: int, st: State, i: nat)
    requires Owned(server, st) && 0 < i < |st.fds| && st.fds[i].fd != -1
    ensures Owned(server, st.(fds := Freed(st.fds, i), open := st.open - {st.fds[i].fd}))
  {
    var fd, fds := st.fds[i].fd, Freed(st.fds, i);
    forall x | x in st.open && x != fd
      ensures exists k :: 0 <= k < |fds| && fds[k].fd == x
    {
      var k :| 0 <= k < |st.fds| && st.fds[k].fd == x;
      assert fds[k].fd == x;
    }
  }

  // ---- The log ----

  /** The last poll reported input on fd, and since then no connection with
      that number has been accepted or closed. */
  ghost predicate Reported(log: seq<Event>, fd: int) {
    log != [] &&
    match log[|log| - 1]
    case Polled(ready) => fd in ready
    case Accepted(x) => x != fd && Reported(log[..|log| - 1], fd)
    case Closed(x, _) => x != fd && Reported(log[..|log| - 1], fd)
    case Refused(_) => Reported(log[..|log| - 1], fd)
    case Received(_) => Reported(log[..|log| - 1], fd)
  }

  /** The connections that the log says are open: those accepted and not closed
      since. */
  ghost function Connections(log: seq<Event>): set<int> {
    if log == [] then {}
    else
      var before := Connections(log[..|log| - 1]);
      match log[|log| - 1]
      case Accepted(fd) => before + {fd}
      case Closed(fd, _) => before - {fd}
      case _ => before
  }

  /** What the last event of a log may be, given the events before it:
      - a connection is read only after the last poll reported on it;
      - a client is turned away only when 100 connections are open;
      - a close that finds its descriptor closed follows the close of the same
        descriptor at once. */
  ghost predicate LastEventSound(log: seq<Event>)
    requires log != []
  {
    var before := log[..|log| - 1];
    match log[|log| - 1]
    case Received(fd) => Reported(before, fd)
    case Refused(fd) => |Connections(before)| == MAX_CLIENTS
    case Closed(fd, wasOpen) =>
      if wasOpen then fd in Connections(before) else before != [] && before[|before| - 1] == Closed(fd, true)
    case Accepted(fd) => fd !in Connections(before)
    case Polled(_) => true
  }

  ghost predicate Sound(log: seq<Event>) {
    log == [] || (Sound(log[..|log| - 1]) && LastEventSound(log))
  }

  lemma Append(log: seq<Event>, e: Event)
    ensures (log + [e])[..|log + [e]| - 1] == log && (log + [e])[|log + [e]| - 1] == e
  {
  }

  // ---- The invariant of every run ----

  /** At every loop head: the log is sound, and the connections it says are open
      are the descriptors in slots 1 to 100. */
  ghost predicate Inv(server: int, st: State) {
    && Owned(server, st)
    && Sound(st.log)
    && Connections(st.log) == st.open - {server}
  }

  /** During a round: what the last poll has reported on the slots from i on is
      still true of the connections in them, and a free slot reports nothing. */
  ghost predicate Armed(st: State, i: nat) {
    && (forall k :: i <= k < |st.fds| && st.fds[k].fd != -1 && st.fds[k].revents.pollin ==> Reported(st.log, st.fds[k].fd))
    && (forall k :: i <= k < |st.fds| && st.fds[k].fd == -1 ==> st.fds[k].revents == NOTHING)
  }

  /** What poll answers is what the table holds afterwards, slot by slot, and
      what the log says was ready. */
  lemma PollInv(server: int, st: State, revents: seq<Revents>)
    requires Inv(server, st) && |revents| == |st.fds|
    requires forall i :: 0 <= i < |st.fds| && st.fds[i].fd < 0 ==> revents[i] == NOTHING
    ensures Inv(server, PollDone(st, revents)) && Armed(PollDone(st, revents), 1)
    ensures var r := PollDone(st, revents);
      && (forall i :: 0 <= i < |st.fds| ==> r.fds[i] == PollFd(st.fds[i].fd, revents[i]))
      && r.open == st.open && r.log == st.log + [Polled(ReadySet(r.fds))]
    ensures forall fd :: fd in ReadySet(PollDone(st, revents).fds) <==>
      fd != -1 && exists i :: 0 <= i < |st.fds| && st.fds[i].fd == fd && revents[i].pollin
  {
    var r := PollDone(st, revents);
    PollOwned(server, st, revents);
    Append(st.log, Polled(ReadySet(r.fds)));
    forall fd
      ensures fd in ReadySet(r.fds) <==>
        fd != -1 && exists i :: 0 <= i < |st.fds| && st.fds[i].fd == fd && revents[i].pollin
    {
      ReadySetIff(st, revents, fd);
    }
  }

  lemma ReadySetIff(st: State, revents: seq<Revents>, fd: int)
    requires |revents| == |st.fds|
    ensures fd in ReadySet(PollDone(st, revents).fds) <==>
      fd != -1 && exists i :: 0 <= i < |st.fds| && st.fds[i].fd == fd && revents[i].pollin
  {
    var fds := PollDone(st, revents).fds;
    if i :| 0 <= i < |st.fds| && st.fds[i].fd == fd && revents[i].pollin {
      assert fds[i] == PollFd(fd, revents[i]);
    }
  }

  /** The descriptors in slots 1 to n - 1. */
  ghost function Clients(fds: seq<PollFd>, n: nat): set<int>
    requires n <= |fds|
  {
    if n <= 1 then {}
    else if fds[n - 1].fd == -1 then Clients(fds, n - 1)
    else Clients(fds, n - 1) + {fds[n - 1].fd}
  }

  lemma {:induction false} ClientsIff(fds: seq<PollFd>, n: nat, fd: int)
    requires n <= |fds|
    ensures fd in Clients(fds, n) <==> fd != -1 && exists i :: 1 <= i < n && fds[i].fd == fd
  {
    if n > 1 {
      ClientsIff(fds, n - 1, fd);
    }
  }

  predicate AllUsed(fds: seq<PollFd>, n: nat)
    requires n <= |fds|
  {
    forall i :: 1 <= i < n ==> fds[i].fd != -1
  }

  lemma LastIsNew(server: int, st: State, n: nat)
    requires Owned(server, st) && 0 < n < |st.fds| && st.fds[n].fd != -1
    ensures st.fds[n].fd !in Clients(st.fds, n)
  {
    ClientsIff(st.fds, n, st.fds[n].fd);
  }

  lemma {:induction false} ClientsCount(server: int, st: State, n: nat)
    requires Owned(server, st) && 0 < n <= |st.fds|
    ensures |Clients(st.fds, n)| <= n - 1
    ensures |Clients(st.fds, n)| == n - 1 <==> AllUsed(st.fds, n)
  {
    if n > 1 {
      ClientsCount(server, st, n - 1);
      ClientsGrow(server, st, n - 1);
    }
  }

  lemma ClientsGrow(server: int, st: State, n: nat)
    requires Owned(server, st) && 0 < n < |st.fds|
    ensures |Clients(st.fds, n + 1)| == |Clients(st.fds, n)| + if st.fds[n].fd != -1 then 1 else 0
    ensures AllUsed(st.fds, n + 1) <==> AllUsed(st.fds, n) && st.fds[n].fd != -1
  {
    var before := Clients(st.fds, n);
    if st.fds[n].fd != -1 {
      LastIsNew(server, st, n);
      hide Owned, Clients;
      assert |before + {st.fds[n].fd}| == |before| + 1;
    }
  }

  lemma ClientsOpen(server: int, st: State)
    requires Owned(server, st)
    ensures Clients(st.fds, |st.fds|) == st.open - {server}
  {
    var clients := Clients(st.fds, |st.fds|);
    forall fd
      ensures fd in clients <==> fd in st.open && fd != server
    {
      ClientsIff(st.fds, |st.fds|, fd);
      if fd in clients {
        var i :| 1 <= i < |st.fds| && st.fds[i].fd == fd;
        assert st.fds[0].fd != st.fds[i].fd;
      }
      if fd in st.open {
        var i :| 0 <= i < |st.fds| && st.fds[i].fd == fd;
        assert i == 0 ==> fd == server;
      }
    }
  }

  /** The table is full exactly when 100 connections are open. */
  lemma FullIff(server: int, st: State)
    requires Owned(server, st)
    ensures FreeSlot(st.fds, 1) == |st.fds| <==> |st.open - {server}| == MAX_CLIENTS
  {
    ClientsCount(server, st, |st.fds|);
    ClientsOpen(server, st);
  }

  /** What becomes of a new connection: with fewer than 100 clients it is stored
      in the lowest free slot, otherwise it is closed at once. */
  lemma AcceptOneEffect(server: int, st: State, fd: int) returns (slot: nat)
    requires Owned(server, st) && fd >= 0 && fd !in st.open
    ensures var r, clients := AcceptOne(st, fd), |st.open - {server}|;
      && clients <= MAX_CLIENTS && r.running == st.running
      && (clients < MAX_CLIENTS ==>
            && 1 <= slot <= MAX_CLIENTS && st.fds[slot].fd == -1
            && (forall i :: 1 <= i < slot ==> st.fds[i].fd != -1)
            && r.fds == st.fds[slot := PollFd(fd, st.fds[slot].revents)]
            && r.open == st.open + {fd} && r.log == st.log + [Accepted(fd)])
      && (clients == MAX_CLIENTS ==>
            r.fds == st.fds && r.open == st.open && r.log == st.log + [Refused(fd)])
  {
    ClientsCount(server, st, |st.fds|);
    ClientsOpen(server, st);
    FullIff(server, st);
    slot := FreeSlot(st.fds, 1);
  }

  lemma AcceptInv(server: int, st: State, fd: int)
    requires Inv(server, st) && Armed(st, 1) && fd >= 0 && fd !in st.open
    ensures Inv(server, AcceptOne(st, fd)) && Armed(AcceptOne(st, fd), 1)
  {
    AcceptOwned(server, st, fd);
    FullIff(server, st);
    Append(st.log, Accepted(fd));
    Append(st.log, Refused(fd));
    var r := AcceptOne(st, fd);
    forall k | 1 <= k < |r.fds| && r.fds[k].fd != -1 && r.fds[k].revents.pollin
      ensures Reported(r.log, r.fds[k].fd)
    {
      assert r.fds[k] == st.fds[k];
    }
  }

  lemma {:induction false} AcceptAllInv(server: int, st: State, accepts: seq<int>, n: nat)
    requires Inv(server, st) && Armed(st, 1) && LegalAccepts(st, accepts) && n <= |accepts|
    ensures Inv(server, AcceptAll(st, accepts, n)) && Armed(AcceptAll(st, accepts, n), 1)
  {
    assert 0 < |st.fds|;
    if n > 0 {
      hide Inv, Armed, AcceptOne, Owned;
      var before := AcceptAll(st, accepts, n - 1);
      AcceptAllInv(server, st, accepts, n - 1);
      assert LegalAccept(st, accepts, n - 1);
      AcceptInv(server, before, accepts[n - 1]);
    }
  }

  lemma ReceiveInv(server: int, st: State, i: nat)
    requires Inv(server, st) && 0 < i < |st.fds| && Armed(st, i)
    requires st.fds[i].fd != -1 && st.fds[i].revents.pollin
    ensures var r := st.(log := st.log + [Received(st.fds[i].fd)]);
      Inv(server, r) && Armed(r, i)
  {
    Append(st.log, Received(st.fds[i].fd));
  }

  lemma CloseInv(server: int, st: State, i: nat)
    requires Inv(server, st) && 0 < i < |st.fds| && Armed(st, i) && st.fds[i].fd != -1
    ensures var r := CloseSlot(st, i, st.fds[i].fd);
      && Inv(server, r) && Armed(r, i + 1)
      && r.log == st.log + [Closed(st.fds[i].fd, true)] && r.fds == Freed(st.fds, i)
  {
    var fd := st.fds[i].fd;
    var r := CloseSlot(st, i, fd);
    FreedOwned(server, st, i);
    Append(st.log, Closed(fd, true));
    forall k | i + 1 <= k < |r.fds| && r.fds[k].fd != -1 && r.fds[k].revents.pollin
      ensures Reported(r.log, r.fds[k].fd)
    {
      assert Reported(st.log, st.fds[k].fd) && st.fds[k].fd != fd;
    }
  }

  /** The second close of the client pass, after the first. */
  lemma CloseAgainInv(server: int, st: State, i: nat, fd: int)
    requires Inv(server, st) && 0 < i < |st.fds| && Armed(st, i + 1) && st.fds[i].fd == -1
    requires st.log != [] && st.log[|st.log| - 1] == Closed(fd, true) && fd !in st.open
    requires forall k :: 0 <= k < |st.fds| ==> st.fds[k].fd != fd
    ensures var r := CloseSlot(st, i, fd);
      Inv(server, r) && Armed(r, i + 1) && r.fds == st.fds && r.open == st.open
  {
    var r := CloseSlot(st, i, fd);
    assert r.fds == st.fds && r.open == st.open;
    Append(st.log, Closed(fd, false));
    forall k | i + 1 <= k < |r.fds| && r.fds[k].fd != -1 && r.fds[k].revents.pollin
      ensures Reported(r.log, r.fds[k].fd)
    {
      assert Reported(st.log, st.fds[k].fd);
    }
  }

  lemma ClientInv(server: int, st: State, i: nat, recv: RecvAnswer)
    requires Inv(server, st) && 0 < i < |st.fds| && Armed(st, i)
    ensures Inv(server, ClientStep(st, i, recv)) && Armed(ClientStep(st, i, recv), i + 1)
  {
    hide Inv, Owned;
    var fd, revents := st.fds[i].fd, st.fds[i].revents;
    if fd != -1 {
      var received := if revents.pollin then st.(log := st.log + [Received(fd)]) else st;
      if revents.pollin {
        ReceiveInv(server, st, i);
      }
      CloseInv(server, received, i);
      if revents.pollin && (recv.EndOfStream? || recv.RecvFailed?) && revents.broken {
        DistinctFromFreed(server, received, i);
        CloseAgainInv(server, CloseSlot(received, i, fd), i, fd);
      }
    }
  }

  lemma DistinctFromFreed(server: int, st: State, i: nat)
    requires Inv(server, st) && 0 < i < |st.fds| && st.fds[i].fd != -1
    ensures forall k :: 0 <= k < |st.fds| ==> Freed(st.fds, i)[k].fd != st.fds[i].fd
  {
  }

  lemma {:induction false} ClientPassInv(server: int, st: State, recvs: seq<RecvAnswer>, n: nat)
    requires Inv(server, st) && Armed(st, 1) && 0 < n <= |st.fds| == |recvs|
    ensures Inv(server, ClientPass(st, recvs, n)) && Armed(ClientPass(st, recvs, n), n)
  {
    if n > 1 {
      ClientPassInv(server, st, recvs, n - 1);
      ClientInv(server, ClientPass(st, recvs, n - 1), n - 1, recvs[n - 1]);
    }
  }

  lemma StepInv(server: int, st: State, round: Round)
    requires Inv(server, st) && Legal(st, round)
    ensures Inv(server, Step(st, round))
  {
    if st.running && round.poll.Ready? {
      var polled := PollDone(st, round.poll.revents);
      PollInv(server, st, round.poll.revents);
      var accepted := AcceptPass(polled, round.accepts);
      if polled.fds[0].revents.pollin {
        AcceptAllInv(server, polled, round.accepts, |round.accepts|);
      }
      ClientPassInv(server, accepted, round.recvs, |st.fds|);
    }
  }

  /** Every run: at every loop head the open connections, by the log of what was
      accepted and closed, are exactly the entries of slots 1 to 100, which are
      pairwise distinct; and every event of the log was sound when it happened. */
  lemma {:induction false} RunInv(server: int, rounds: seq<Round>)
    requires server >= 0 && LegalRun(server, rounds)
    ensures Inv(server, Run(server, rounds))
  {
    if rounds == [] {
      StartOwned(server);
    } else {
      RunInv(server, Front(rounds));
      StepInv(server, Run(server, Front(rounds)), rounds[|rounds| - 1]);
    }
  }

  // ---- Leaving the loop ----

  /** The cleanup: the descriptors in slots 1 to n - 1 are closed. */
  function CloseAll(st: State, n: nat): (r: State)
    requires n <= |st.fds|
    ensures r.fds == st.fds
  {
    if n <= 1 then st
    else
      var before := CloseAll(st, n - 1);
      if st.fds[n - 1].fd != -1 then Close(before, st.fds[n - 1].fd) else before
  }

  function Cleanup(st: State): State
    requires 0 < |st.fds|
  {
    Close(CloseAll(st, |st.fds|), st.fds[0].fd)
  }

  lemma {:induction false} CloseAllOpen(st: State, n: nat)
    requires n <= |st.fds|
    ensures forall fd :: fd in CloseAll(st, n).open <==>
      fd in st.open && forall i :: 1 <= i < n && st.fds[i].fd != -1 ==> st.fds[i].fd != fd
  {
    if n > 1 {
      CloseAllOpen(st, n - 1);
    }
  }

  /** The events of the log from index n on are closes of descriptors that were
      open. */
  predicate OnlyCloses(log: seq<Event>, n: nat) {
    forall k :: n <= k < |log| ==> log[k].Closed? && log[k].wasOpen
  }

  lemma {:induction false} CloseAllLog(server: int, st: State, n: nat)
    requires Owned(server, st) && n <= |st.fds|
    ensures st.log <= CloseAll(st, n).log && OnlyCloses(CloseAll(st, n).log, |st.log|)
  {
    if n > 1 {
      CloseAllLog(server, st, n - 1);
      CloseAllOpen(st, n - 1);
    }
  }

  /** No run leaves a descriptor open once the loop is left and the cleanup has
      been done, and the cleanup closes none twice. */
  lemma CleanupClosesAll(server: int, rounds: seq<Round>)
    requires server >= 0 && LegalRun(server, rounds)
    ensures var st := Run(server, rounds);
      && Cleanup(st).open == {}
      && st.log <= Cleanup(st).log && OnlyCloses(Cleanup(st).log, |st.log|)
  {
    var st := Run(server, rounds);
    RunInv(server, rounds);
    var closed := CloseAll(st, |st.fds|);
    CloseAllOpen(st, |st.fds|);
    CloseAllLog(server, st, |st.fds|);
    assert server in closed.open;
    forall fd | fd in closed.open
      ensures fd == server
    {
      assert fd in st.open;
      var i :| 0 <= i < |st.fds| && st.fds[i].fd == fd;
      assert i == 0;
    }
  }
}
