/** What a round of the poll server does, in terms of what the kernel answers in
    it alone: which events it logs, which connections it opens, reads and
    closes, and when the loop ends. */
module PollRounds {
  import opened PollServer

  // ---- The events of a round ----

  /** The connections that the accept pass of a round sees. */
  function Newcomers(round: Round): seq<int>
    requires round.poll.Ready? && 0 < |round.poll.revents|
  {
    if round.poll.revents[0].pollin then round.accepts else []
  }

  /** New connections when some clients are open already: they are kept until
      there are 100, and the rest are turned away. */
  function Arrivals(accepts: seq<int>, clients: nat): (r: seq<Event>)
    ensures |r| == |accepts|
  {
    seq(|accepts|, k requires 0 <= k < |accepts| =>
      if clients + k < MAX_CLIENTS then Accepted(accepts[k]) else Refused(accepts[k]))
  }

  predicate Ended(revents: Revents, recv: RecvAnswer) {
    revents.pollin && (recv.EndOfStream? || recv.RecvFailed?)
  }

  /** A connection on which poll reports input is read; it is closed when it has
      ended or failed, and closed, perhaps once more, when it is broken. */
  function SlotEvents(fd: int, revents: Revents, recv: RecvAnswer): seq<Event> {
    if fd == -1 then []
    else
      (if revents.pollin then [Received(fd)] else [])
      + (if Ended(revents, recv) then [Closed(fd, true)] else [])
      + (if revents.broken then [Closed(fd, !Ended(revents, recv))] else [])
  }

  /** The events of the slots 1 to n - 1. */
  function ClientEvents(fds: seq<PollFd>, revents: seq<Revents>, recvs: seq<RecvAnswer>, n: nat): seq<Event>
    requires n <= |fds| && n <= |revents| && n <= |recvs|
  {
    if n <= 1 then []
    else ClientEvents(fds, revents, recvs, n - 1) + SlotEvents(fds[n - 1].fd, revents[n - 1], recvs[n - 1])
  }

  // ---- The accept pass ----

  /** The accept pass fills free slots only, and touches no revents. */
  ghost predicate FilledFrom(before: seq<PollFd>, fds: seq<PollFd>) {
    && |fds| == |before|
    && forall k :: 0 <= k < |fds| ==>
      fds[k].revents == before[k].revents && (before[k].fd != -1 ==> fds[k] == before[k])
  }

  lemma ArrivalsStep(accepts: seq<int>, clients: nat, n: nat)
    requires n < |accepts|
    ensures Arrivals(accepts[..n + 1], clients) == Arrivals(accepts[..n], clients) +
      [if clients + n < MAX_CLIENTS then Accepted(accepts[n]) else Refused(accepts[n])]
  {
  }

  ghost predicate Kept(accepts: seq<int>, clients: nat, n: nat, fd: int)
    requires n <= |accepts|
  {
    exists k :: 0 <= k < n && clients + k < MAX_CLIENTS && accepts[k] == fd
  }

  lemma KeptStep(accepts: seq<int>, clients: nat, n: nat, fd: int)
    requires n < |accepts|
    ensures Kept(accepts, clients, n + 1, fd) <==>
      Kept(accepts, clients, n, fd) || (clients + n < MAX_CLIENTS && accepts[n] == fd)
  {
  }

  /** The first n new connections have been handled since st. */
  ghost predicate AfterAccepts(server: int, st: State, accepts: seq<int>, n: nat, r: State)
    requires n <= |accepts|
  {
    var clients := |st.open - {server}|;
    && r.running == st.running && FilledFrom(st.fds, r.fds)
    && r.log == st.log + Arrivals(accepts[..n], clients)
    && |r.open - {server}| == (if clients + n < MAX_CLIENTS then clients + n else MAX_CLIENTS)
    && (forall fd :: fd in r.open <==> fd in st.open || Kept(accepts, clients, n, fd))
    && (forall fd :: Kept(accepts, clients, n, fd) ==> fd !in st.open)
  }

  lemma AfterNone(server: int, st: State, accepts: seq<int>)
    requires Inv(server, st)
    ensures AfterAccepts(server, st, accepts, 0, st)
  {
    NoMoreThan100(server, st);
    hide Inv;
    assert Arrivals(accepts[..0], |st.open - {server}|) == [];
  }

  lemma AfterOneMore(server: int, st: State, accepts: seq<int>, n: nat, before: State)
    requires n < |accepts| && AfterAccepts(server, st, accepts, n, before)
    requires Owned(server, before) && accepts[n] >= 0 && accepts[n] !in before.open
    ensures AfterAccepts(server, st, accepts, n + 1, AcceptOne(before, accepts[n]))
  {
    assert 0 < |before.fds|;
    hide Owned, AcceptOne, FilledFrom, Arrivals, Kept;
    var clients := |st.open - {server}|;
    ArrivalsStep(accepts, clients, n);
    AcceptOneCount(server, before, accepts[n]);
    FilledTrans(st.fds, before.fds, AcceptOne(before, accepts[n]).fds);
    forall fd
      ensures Kept(accepts, clients, n + 1, fd) <==>
        Kept(accepts, clients, n, fd) || (clients + n < MAX_CLIENTS && accepts[n] == fd)
    {
      KeptStep(accepts, clients, n, fd);
    }
  }

  lemma TableSize(server: int, st: State)
    requires Inv(server, st)
    ensures 0 < |st.fds|
  {
  }

  lemma AcceptAllUnfold(st: State, accepts: seq<int>, n: nat)
    requires 0 < |st.fds| && n <= |accepts|
    ensures AcceptAll(st, accepts, n) ==
      if n == 0 then st else AcceptOne(AcceptAll(st, accepts, n - 1), accepts[n - 1])
  {
  }

  lemma {:induction false} AcceptAllEffect(server: int, st: State, accepts: seq<int>, n: nat)
    requires Inv(server, st) && Armed(st, 1) && LegalAccepts(st, accepts) && n <= |accepts|
    ensures AfterAccepts(server, st, accepts, n, AcceptAll(st, accepts, n))
  {
    hide *;
    TableSize(server, st);
    AcceptAllUnfold(st, accepts, n);
    if n == 0 {
      AfterNone(server, st, accepts);
    } else {
      AcceptAllEffect(server, st, accepts, n - 1);
      AcceptAllInv(server, st, accepts, n - 1);
      NextAccept(server, st, accepts, n - 1);
      AfterOneMore(server, st, accepts, n - 1, AcceptAll(st, accepts, n - 1));
    }
  }

  lemma NoMoreThan100(server: int, st: State)
    requires Inv(server, st)
    ensures |st.open - {server}| <= MAX_CLIENTS
  {
    ClientsCount(server, st, |st.fds|);
    ClientsOpen(server, st);
  }

  lemma NextAccept(server: int, st: State, accepts: seq<int>, n: nat)
    requires 0 < |st.fds| && n < |accepts| && LegalAccepts(st, accepts) && Inv(server, AcceptAll(st, accepts, n))
    ensures Owned(server, AcceptAll(st, accepts, n))
    ensures accepts[n] >= 0 && accepts[n] !in AcceptAll(st, accepts, n).open
  {
    assert LegalAccept(st, accepts, n);
  }

  lemma FilledTrans(a: seq<PollFd>, b: seq<PollFd>, c: seq<PollFd>)
    requires FilledFrom(a, b) && FilledFrom(b, c)
    ensures FilledFrom(a, c)
  {
  }

  lemma AcceptOneCount(server: int, st: State, fd: int)
    requires Owned(server, st) && fd >= 0 && fd !in st.open
    ensures var r, clients := AcceptOne(st, fd), |st.open - {server}|;
      && FilledFrom(st.fds, r.fds) && r.running == st.running
      && |r.open - {server}| == (if clients < MAX_CLIENTS then clients + 1 else clients)
      && r.open == (if clients < MAX_CLIENTS then st.open + {fd} else st.open)
      && r.log == st.log + [if clients < MAX_CLIENTS then Accepted(fd) else Refused(fd)]
  {
    var slot := AcceptOneEffect(server, st, fd);
    assert server in st.open;
    var r := AcceptOne(st, fd);
    hide AcceptOne, Owned;
    if |st.open - {server}| < MAX_CLIENTS {
      assert r.open - {server} == (st.open - {server}) + {fd};
    }
  }

  // ---- The client pass ----

  lemma ClientStepLog(st: State, i: nat, recv: RecvAnswer)
    requires i < |st.fds| && (st.fds[i].fd != -1 ==> st.fds[i].fd in st.open)
    ensures ClientStep(st, i, recv).log == st.log + SlotEvents(st.fds[i].fd, st.fds[i].revents, recv)
  {
  }

  lemma InUseIsOpen(server: int, st: State, i: nat)
    requires Inv(server, st) && i < |st.fds|
    ensures st.fds[i].fd != -1 ==> st.fds[i].fd in st.open
  {
  }

  lemma ClientPassStep(st: State, recvs: seq<RecvAnswer>, n: nat)
    requires 1 < n <= |recvs| && n <= |st.fds|
    ensures ClientPass(st, recvs, n) == ClientStep(ClientPass(st, recvs, n - 1), n - 1, recvs[n - 1])
  {
  }

  lemma ClientEventsStep(fds: seq<PollFd>, revents: seq<Revents>, recvs: seq<RecvAnswer>, n: nat)
    requires 1 < n <= |fds| && n <= |revents| && n <= |recvs|
    ensures ClientEvents(fds, revents, recvs, n) ==
      ClientEvents(fds, revents, recvs, n - 1) + SlotEvents(fds[n - 1].fd, revents[n - 1], recvs[n - 1])
  {
  }

  lemma {:induction false} ClientPassLog(server: int, st: State, recvs: seq<RecvAnswer>, revents: seq<Revents>, n: nat)
    requires Inv(server, st) && Armed(st, 1) && 0 < n <= |st.fds| == |recvs| == |revents|
    requires forall k :: 0 <= k < |st.fds| ==> st.fds[k].revents == revents[k]
    ensures ClientPass(st, recvs, n).log == st.log + ClientEvents(st.fds, revents, recvs, n)
  {
    if n == 1 {
      return;
    }
    hide Inv, Armed, ClientStep, SlotEvents, ClientEvents, ClientPass;
    ClientPassLog(server, st, recvs, revents, n - 1);
    ClientPassFrame(st, recvs, n - 1);
    ClientPassInv(server, st, recvs, n - 1);
    InUseIsOpen(server, ClientPass(st, recvs, n - 1), n - 1);
    ClientPassStep(st, recvs, n);
    ClientEventsStep(st.fds, revents, recvs, n);
    ClientStepLog(ClientPass(st, recvs, n - 1), n - 1, recvs[n - 1]);
  }

  lemma {:induction false} ClientPassFrame(st: State, recvs: seq<RecvAnswer>, n: nat)
    requires n <= |recvs| && n <= |st.fds|
    ensures forall k :: 0 < n <= k < |st.fds| ==> ClientPass(st, recvs, n).fds[k] == st.fds[k]
  {
    if n > 1 {
      ClientPassFrame(st, recvs, n - 1);
      ClientStepEffect(ClientPass(st, recvs, n - 1), n - 1, recvs[n - 1]);
    }
  }

  lemma ClientStepRunning(st: State, i: nat, recv: RecvAnswer)
    requires i < |st.fds|
    ensures ClientStep(st, i, recv).running == st.running
  {
  }

  lemma {:induction false} ClientPassTable(st: State, recvs: seq<RecvAnswer>, n: nat)
    requires n <= |st.fds| == |recvs|
    ensures var r := ClientPass(st, recvs, n);
      && r.running == st.running
      && forall k :: 0 <= k < |st.fds| ==>
        r.fds[k] == if 1 <= k < n && GivenUp(st.fds[k], recvs[k]) then st.fds[k].(fd := -1) else st.fds[k]
  {
    if n > 1 {
      hide ClientStep, GivenUp;
      ClientPassTable(st, recvs, n - 1);
      ClientStepEffect(ClientPass(st, recvs, n - 1), n - 1, recvs[n - 1]);
      ClientStepRunning(ClientPass(st, recvs, n - 1), n - 1, recvs[n - 1]);
    }
  }

  // ---- A round ----

  /** The three stages of a round in which poll returns with events. */
  lemma RoundStages(server: int, st: State, round: Round) returns (polled: State, accepted: State)
    requires Inv(server, st) && Legal(st, round) && st.running && round.poll.Ready?
    ensures var revents, clients := round.poll.revents, |st.open - {server}|;
      && polled == PollDone(st, revents) && accepted == AcceptPass(polled, round.accepts)
      && Inv(server, accepted) && Armed(accepted, 1) && accepted.running
      && FilledFrom(polled.fds, accepted.fds)
      && (forall k :: 0 <= k < |st.fds| ==> polled.fds[k] == PollFd(st.fds[k].fd, revents[k]))
      && accepted.log == polled.log + Arrivals(Newcomers(round), clients)
      && (forall fd :: fd in accepted.open <==> fd in st.open || Kept(Newcomers(round), clients, |Newcomers(round)|, fd))
      && (forall fd :: Kept(Newcomers(round), clients, |Newcomers(round)|, fd) ==> fd !in st.open)
  {
    polled := PollDone(st, round.poll.revents);
    PollInv(server, st, round.poll.revents);
    accepted := AcceptPass(polled, round.accepts);
    hide Inv, Armed, AcceptAll, LegalAccepts, Kept, Arrivals;
    if round.poll.revents[0].pollin {
      assert Newcomers(round)[..|round.accepts|] == round.accepts;
      AcceptAllInv(server, polled, round.accepts, |round.accepts|);
      AcceptAllEffect(server, polled, round.accepts, |round.accepts|);
    } else {
      NobodyNew(|st.open - {server}|);
    }
  }

  lemma NobodyNew(clients: nat)
    ensures Arrivals([], clients) == [] && forall fd :: !Kept([], clients, 0, fd)
  {
  }

  lemma {:induction false} ClientEventsSame(a: seq<PollFd>, b: seq<PollFd>, revents: seq<Revents>, recvs: seq<RecvAnswer>, n: nat)
    requires n <= |a| == |b| == |revents| == |recvs|
    requires forall k :: 0 <= k < |a| ==> a[k].fd == b[k].fd || revents[k] == NOTHING
    ensures ClientEvents(a, revents, recvs, n) == ClientEvents(b, revents, recvs, n)
  {
    if n > 1 {
      ClientEventsSame(a, b, revents, recvs, n - 1);
    }
  }

  /** The log of a round, from what the kernel answers in it: what poll reports;
      if it reports the listening socket, one event for each new connection, in
      order, kept as long as there are fewer than 100; then for each slot in
      use what its answers call for. */
  lemma RoundLog(server: int, st: State, round: Round) returns (ready: set<int>)
    requires Inv(server, st) && Legal(st, round) && st.running && round.poll.Ready?
    ensures forall fd :: fd in ready <==>
      fd != -1 && exists i :: 0 <= i < |st.fds| && st.fds[i].fd == fd && round.poll.revents[i].pollin
    ensures Step(st, round).log ==
      st.log + [Polled(ready)] + Arrivals(Newcomers(round), |st.open - {server}|)
      + ClientEvents(st.fds, round.poll.revents, round.recvs, |st.fds|)
  {
    var revents := round.poll.revents;
    PollInv(server, st, revents);
    ready := ReadySet(PollDone(st, revents).fds);
    var polled, accepted := RoundStages(server, st, round);
    ClientEventsSame(accepted.fds, st.fds, revents, round.recvs, |st.fds|);
    hide Inv, Armed, PollDone, AcceptPass, ClientEvents, Arrivals, Kept, ReadySet;
    ClientPassLog(server, accepted, round.recvs, revents, |st.fds|);
  }

  /** The connection in a slot ends in this round: it is broken, or it is read
      and has ended or failed. */
  predicate Dropped(round: Round, i: nat)
    requires round.poll.Ready? && i < |round.poll.revents| && i < |round.recvs|
  {
    round.poll.revents[i].broken || Ended(round.poll.revents[i], round.recvs[i])
  }

  predicate Leaves(st: State, round: Round, i: nat)
    requires Shaped(st, round) && round.poll.Ready? && i < |st.fds|
  {
    i > 0 && st.fds[i].fd != -1 && Dropped(round, i)
  }

  /** The table after a round: the slots of the connections that end are freed,
      and no other slot that was in use changes. */
  lemma RoundTable(server: int, st: State, round: Round) returns (accepted: State)
    requires Inv(server, st) && Legal(st, round) && st.running && round.poll.Ready?
    ensures Owned(server, accepted) && Owned(server, Step(st, round))
    ensures forall k :: 0 <= k <= MAX_CLIENTS && st.fds[k].fd != -1 ==> accepted.fds[k].fd == st.fds[k].fd
    ensures forall k :: 0 <= k <= MAX_CLIENTS ==>
      Step(st, round).fds[k].fd == if Leaves(st, round, k) then -1 else accepted.fds[k].fd
    ensures var kept, clients := Newcomers(round), |st.open - {server}|;
      && (forall fd :: fd in accepted.open <==> fd in st.open || Kept(kept, clients, |kept|, fd))
      && (forall fd :: Kept(kept, clients, |kept|, fd) ==> fd !in st.open)
  {
    var polled;
    polled, accepted := RoundStages(server, st, round);
    StepInv(server, st, round);
    ClientPassTable(accepted, round.recvs, |st.fds|);
    hide PollDone, AcceptPass, ClientPass, Kept, Sound, Connections, Armed, LegalAccepts;
    assert Step(st, round) == ClientPass(accepted, round.recvs, |st.fds|);
  }

  /** What is open when some slots of a table have been freed. */
  lemma TableOpen(server: int, a: State, r: State, left: seq<bool>, fd: int)
    requires Owned(server, a) && Owned(server, r) && |left| == MAX_CLIENTS + 1
    requires forall k :: 0 <= k <= MAX_CLIENTS ==> r.fds[k].fd == if left[k] then -1 else a.fds[k].fd
    ensures fd in r.open <==> fd in a.open && forall k :: 0 <= k <= MAX_CLIENTS && left[k] ==> a.fds[k].fd != fd
  {
    if fd in r.open {
      var k :| 0 <= k < |r.fds| && r.fds[k].fd == fd;
      assert a.fds[k].fd == fd;
    }
    if fd in a.open {
      var k :| 0 <= k < |a.fds| && a.fds[k].fd == fd;
      assert !left[k] ==> r.fds[k].fd == fd;
    }
  }

  /** The open descriptors after a round: the new connections that were kept,
      and of those that were open before all but the ones that end. */
  lemma RoundOpen(server: int, st: State, round: Round, fd: int)
    requires Inv(server, st) && Legal(st, round) && st.running && round.poll.Ready?
    ensures fd in Step(st, round).open <==>
      || Kept(Newcomers(round), |st.open - {server}|, |Newcomers(round)|, fd)
      || (fd in st.open && !exists i :: 1 <= i <= MAX_CLIENTS && st.fds[i].fd == fd && Dropped(round, i))
  {
    var accepted := RoundTable(server, st, round);
    assert |st.fds| == MAX_CLIENTS + 1 && -1 !in st.open && Shaped(st, round);
    hide Step, Kept, Inv, Owned, Legal;
    var left := seq(MAX_CLIENTS + 1, k requires 0 <= k <= MAX_CLIENTS => Leaves(st, round, k));
    TableOpen(server, accepted, Step(st, round), left, fd);
    if fd in st.open {
      assert forall k :: 0 <= k <= MAX_CLIENTS && left[k] ==>
        1 <= k && st.fds[k].fd == accepted.fds[k].fd && Dropped(round, k);
      assert forall k :: 1 <= k <= MAX_CLIENTS && st.fds[k].fd == fd && Dropped(round, k) ==> left[k];
    }
  }

  /** The connection of a slot is closed in a round if and only if poll reports
      it broken, or reports input and recv finds that it has ended or failed. */
  lemma RoundCloses(server: int, st: State, round: Round, i: nat)
    requires Inv(server, st) && Legal(st, round) && st.running && round.poll.Ready?
    requires 1 <= i <= MAX_CLIENTS && st.fds[i].fd != -1
    ensures var r, fd, revents, recv := Step(st, round), st.fds[i].fd, round.poll.revents[i], round.recvs[i];
      var gone := revents.broken || (revents.pollin && (recv.EndOfStream? || recv.RecvFailed?));
      && fd in st.open && r.fds[i].fd == (if gone then -1 else fd) && (fd in r.open <==> !gone)
  {
    var accepted := RoundTable(server, st, round);
    RoundOpen(server, st, round, st.fds[i].fd);
    InUseIsOpen(server, st, i);
    OnlyInSlot(server, st, i);
    hide Step, Kept, Inv, Owned, Legal;
    assert Leaves(st, round, i) == Dropped(round, i);
  }

  lemma OnlyInSlot(server: int, st: State, i: nat)
    requires Owned(server, st) && i < |st.fds| && st.fds[i].fd != -1
    ensures forall k :: 0 <= k < |st.fds| && st.fds[k].fd == st.fds[i].fd ==> k == i
  {
  }

  // ---- Reads ----

  /** How often a connection with this number has been read. */
  ghost function Reads(log: seq<Event>, fd: int): nat {
    if log == [] then 0
    else Reads(log[..|log| - 1], fd) + if log[|log| - 1] == Received(fd) then 1 else 0
  }

  lemma ReadsAppend(log: seq<Event>, e: Event, fd: int)
    ensures Reads(log + [e], fd) == Reads(log, fd) + if e == Received(fd) then 1 else 0
  {
    Append(log, e);
  }

  /** The table says that there is input on fd in one of the slots 1 to n - 1. */
  ghost predicate ReadyIn(fds: seq<PollFd>, n: nat, fd: int)
    requires n <= |fds|
  {
    exists i :: 1 <= i < n && fds[i].fd == fd && fd != -1 && fds[i].revents.pollin
  }

  lemma ClientStepReads(st: State, i: nat, recv: RecvAnswer, x: int)
    requires i < |st.fds|
    ensures Reads(ClientStep(st, i, recv).log, x) ==
      Reads(st.log, x) + if st.fds[i].fd == x != -1 && st.fds[i].revents.pollin then 1 else 0
  {
    hide Reads;
    var fd, revents := st.fds[i].fd, st.fds[i].revents;
    if fd != -1 {
      ReadsAppend(st.log, Received(fd), x);
      var received := if revents.pollin then st.(log := st.log + [Received(fd)]) else st;
      CloseSlotReads(received, i, fd, x);
      CloseSlotReads(CloseSlot(received, i, fd), i, fd, x);
    }
  }

  lemma CloseSlotReads(st: State, i: nat, fd: int, x: int)
    requires i < |st.fds|
    ensures Reads(CloseSlot(st, i, fd).log, x) == Reads(st.log, x)
  {
    ReadsAppend(st.log, Closed(fd, fd in st.open), x);
  }

  lemma {:induction false} ClientPassReads(server: int, st: State, recvs: seq<RecvAnswer>, n: nat, fd: int)
    requires Owned(server, st) && 0 < n <= |recvs| == |st.fds|
    ensures Reads(ClientPass(st, recvs, n).log, fd) == Reads(st.log, fd) + if ReadyIn(st.fds, n, fd) then 1 else 0
  {
    if n > 1 {
      ClientPassReads(server, st, recvs, n - 1, fd);
      ClientPassFrame(st, recvs, n - 1);
      ClientStepReads(ClientPass(st, recvs, n - 1), n - 1, recvs[n - 1], fd);
      ReadyGrows(server, st, n - 1, fd);
    }
  }

  lemma ReadyGrows(server: int, st: State, n: nat, fd: int)
    requires Owned(server, st) && 0 < n < |st.fds|
    ensures ReadyIn(st.fds, n + 1, fd) <==>
      ReadyIn(st.fds, n, fd) || (st.fds[n].fd == fd != -1 && st.fds[n].revents.pollin)
    ensures ReadyIn(st.fds, n, fd) ==> st.fds[n].fd != fd
  {
  }

  lemma AcceptOneReady(st: State, client: int, fd: int)
    requires Armed(st, 1) && 0 < |st.fds|
    ensures Reads(AcceptOne(st, client).log, fd) == Reads(st.log, fd)
    ensures ReadyIn(AcceptOne(st, client).fds, |st.fds|, fd) <==> ReadyIn(st.fds, |st.fds|, fd)
  {
    ReadsAppend(st.log, Accepted(client), fd);
    ReadsAppend(st.log, Refused(client), fd);
    var slot, fds := FreeSlot(st.fds, 1), AcceptOne(st, client).fds;
    assert forall i :: 1 <= i < |fds| && i != slot ==> fds[i] == st.fds[i];
    assert slot < |fds| ==> fds[slot].revents == st.fds[slot].revents == NOTHING && st.fds[slot].fd == -1;
  }

  lemma {:induction false} AcceptAllReady(server: int, st: State, accepts: seq<int>, n: nat, fd: int)
    requires Inv(server, st) && Armed(st, 1) && LegalAccepts(st, accepts) && n <= |accepts|
    ensures Reads(AcceptAll(st, accepts, n).log, fd) == Reads(st.log, fd)
    ensures ReadyIn(AcceptAll(st, accepts, n).fds, |st.fds|, fd) <==> ReadyIn(st.fds, |st.fds|, fd)
  {
    hide *;
    TableSize(server, st);
    AcceptAllUnfold(st, accepts, n);
    if n > 0 {
      AcceptAllReady(server, st, accepts, n - 1, fd);
      AcceptAllInv(server, st, accepts, n - 1);
      AcceptOneReady(AcceptAll(st, accepts, n - 1), accepts[n - 1], fd);
    }
  }

  /** Progress of a round: the connections that its poll reports are read once
      each, and no other connection is read. */
  lemma RoundReads(server: int, st: State, round: Round, fd: int)
    requires Inv(server, st) && Legal(st, round) && st.running && round.poll.Ready?
    ensures Reads(Step(st, round).log, fd) == Reads(st.log, fd) +
      if exists i :: 1 <= i <= MAX_CLIENTS && st.fds[i].fd == fd != -1 && round.poll.revents[i].pollin then 1 else 0
  {
    var polled := PollDone(st, round.poll.revents);
    PollInv(server, st, round.poll.revents);
    ReadyClients(server, polled, fd);
    ReadsAppend(st.log, Polled(ReadySet(polled.fds)), fd);
    PassesReads(server, polled, round, fd);
  }

  lemma PassesReads(server: int, st: State, round: Round, fd: int)
    requires Inv(server, st) && Armed(st, 1) && |round.recvs| == |st.fds| && LegalAccepts(st, round.accepts)
    ensures Reads(ClientPass(AcceptPass(st, round.accepts), round.recvs, |st.fds|).log, fd) ==
      Reads(st.log, fd) + if ReadyIn(st.fds, |st.fds|, fd) then 1 else 0
  {
    hide Reads, ReadyIn, Armed, AcceptAll, ClientPass, Sound, Connections;
    var accepted := AcceptPass(st, round.accepts);
    if st.fds[0].revents.pollin {
      AcceptAllInv(server, st, round.accepts, |round.accepts|);
      AcceptAllReady(server, st, round.accepts, |round.accepts|, fd);
    }
    ClientPassReads(server, accepted, round.recvs, |st.fds|, fd);
  }

  lemma ReadyClients(server: int, st: State, fd: int)
    requires Owned(server, st)
    ensures fd in ReadySet(st.fds) && fd != server <==> ReadyIn(st.fds, |st.fds|, fd)
  {
    if i :| 1 <= i < |st.fds| && st.fds[i].fd == fd && fd != -1 && st.fds[i].revents.pollin {
      assert st.fds[0].fd != st.fds[i].fd;
    }
  }

  // ---- The end of the loop ----

  lemma {:induction false} AcceptAllRunning(st: State, accepts: seq<int>, n: nat)
    requires 0 < |st.fds| && n <= |accepts|
    ensures AcceptAll(st, accepts, n).running == st.running
  {
    if n > 0 {
      AcceptAllRunning(st, accepts, n - 1);
    }
  }

  lemma StepRunning(st: State, round: Round)
    requires 0 < |st.fds| && Shaped(st, round)
    ensures Step(st, round).running <==> st.running && !round.poll.PollFailed?
  {
    if st.running && round.poll.Ready? {
      var polled := PollDone(st, round.poll.revents);
      AcceptAllRunning(polled, round.accepts, |round.accepts|);
      ClientPassTable(AcceptPass(polled, round.accepts), round.recvs, |st.fds|);
    }
  }

  /** The loop goes on until poll fails for another reason than a signal. */
  lemma {:induction false} RunningIff(server: int, rounds: seq<Round>)
    requires LegalRun(server, rounds)
    ensures Run(server, rounds).running <==> forall k :: 0 <= k < |rounds| ==> !rounds[k].poll.PollFailed?
  {
    if rounds != [] {
      hide Step;
      var front := Front(rounds);
      RunningIff(server, front);
      StepRunning(Run(server, front), rounds[|rounds| - 1]);
      assert forall k :: 0 <= k < |front| ==> front[k] == rounds[k];
    }
  }

  /** A poll that fails ends the run: nothing that the kernel could answer later
      is looked at any more. */
  lemma {:induction false} FailedPollEndsRun(server: int, rounds: seq<Round>, k: nat)
    requires LegalRun(server, rounds) && k < |rounds| && rounds[k].poll.PollFailed?
    ensures Run(server, rounds) == Run(server, rounds[..k]).(running := false)
  {
    var front := Front(rounds);
    if k < |rounds| - 1 {
      FailedPollEndsRun(server, front, k);
      assert front[..k] == rounds[..k];
    }
  }

  function Uninterrupted(rounds: seq<Round>): seq<Round> {
    if rounds == [] then []
    else
      var front, last := Uninterrupted(Front(rounds)), rounds[|rounds| - 1];
      if last.poll.Interrupted? then front else front + [last]
  }

  /** A poll that a signal interrupts leaves no trace: without those rounds the
      run goes through the same states. */
  lemma {:induction false} InterruptsLeaveNoTrace(server: int, rounds: seq<Round>)
    ensures Run(server, Uninterrupted(rounds)) == Run(server, rounds)
  {
    if rounds != [] {
      InterruptsLeaveNoTrace(server, Front(rounds));
      if !rounds[|rounds| - 1].poll.Interrupted? {
        var front := Uninterrupted(Front(rounds));
        assert Front(front + [rounds[|rounds| - 1]]) == front;
      }
    }
  }
}
