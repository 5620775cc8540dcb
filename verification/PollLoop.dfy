/** The event loop of the poll server as it runs: the table is an array that is
    changed in place. Each pass does what its function in PollServer says. */
module PollLoop {
  import opened PollServer
  import opened PollRounds

  class Server {
    var fds: array<PollFd>
    var open: set<int>
    var log: seq<Event>
    var running: bool

    function View(): State
      reads this, fds
    {
      State(fds[..], open, log, running)
    }

    predicate Valid()
      reads this
    {
      fds.Length == MAX_CLIENTS + 1
    }

    constructor (server: int)
      ensures Valid() && fresh(fds)
      ensures View() == Start(server)
    {
      fds := new PollFd[MAX_CLIENTS + 1];
      open, log, running := {server}, [], true;
      new;
      for i := 0 to MAX_CLIENTS + 1
        invariant fds.Length == MAX_CLIENTS + 1 && fresh(fds)
        invariant open == {server} && log == [] && running
        invariant forall k :: 0 <= k < i ==> fds[k] == PollFd(-1, NOTHING)
      {
        fds[i] := PollFd(-1, NOTHING);
      }
      fds[0] := PollFd(server, NOTHING);
      assert fds[..] == Start(server).fds;
    }

    method CloseFd(fd: int)
      requires Valid()
      modifies this`open, this`log
      ensures View() == Close(old(View()), fd)
    {
      log := log + [Closed(fd, fd in open)];
      open := open - {fd};
    }

    /** poll, when it returns with events. */
    method Poll(revents: seq<Revents>)
      requires Valid() && |revents| == fds.Length
      modifies fds, this`log
      ensures Valid() && View() == PollDone(old(View()), revents)
    {
      for i := 0 to fds.Length
        invariant Valid() && log == old(log)
        invariant forall k :: 0 <= k < fds.Length ==>
          fds[k] == if k < i then PollFd(old(fds[k].fd), revents[k]) else old(fds[k])
      {
        fds[i] := PollFd(fds[i].fd, revents[i]);
      }
      assert fds[..] == PollDone(old(View()), revents).fds;
      log := log + [Polled(ReadySet(fds[..]))];
    }

    /** The accept loop; accepts holds the results before the one that ends it. */
    method AcceptClients(accepts: seq<int>)
      requires Valid()
      modifies fds, this`open, this`log
      ensures Valid() && View() == AcceptAll(old(View()), accepts, |accepts|)
    {
      for n := 0 to |accepts|
        invariant Valid() && View() == AcceptAll(old(View()), accepts, n)
      {
        StoreClient(accepts[n]);
      }
    }

    /** A new connection: stored in the first free slot, or closed. */
    method StoreClient(clientFd: int)
      requires Valid()
      modifies fds, this`open, this`log
      ensures Valid() && View() == AcceptOne(old(View()), clientFd)
    {
      for i := 1 to MAX_CLIENTS + 1
        invariant View() == old(View())
        invariant forall k :: 1 <= k < i ==> fds[k].fd != -1
      {
        if fds[i].fd == -1 {
          FirstFree(fds[..], 1, i);
          fds[i] := fds[i].(fd := clientFd);
          open, log := open + {clientFd}, log + [Accepted(clientFd)];
          assert fds[..] == AcceptOne(old(View()), clientFd).fds;
          return;
        }
      }
      FirstFree(fds[..], 1, MAX_CLIENTS + 1);
      log := log + [Refused(clientFd)];
    }

    /** The loop over the client slots; recvs[i] is what a recv on slot i gives. */
    method HandleClients(recvs: seq<RecvAnswer>)
      requires Valid() && |recvs| == fds.Length
      modifies fds, this`open, this`log
      ensures Valid() && View() == ClientPass(old(View()), recvs, |recvs|)
    {
      for i := 1 to MAX_CLIENTS + 1
        invariant Valid() && View() == ClientPass(old(View()), recvs, i)
      {
        HandleClient(i, recvs[i]);
      }
    }

    /** The body of that loop. */
    method HandleClient(i: nat, recv: RecvAnswer)
      requires Valid() && i < fds.Length
      modifies fds, this`open, this`log
      ensures Valid() && View() == ClientStep(old(View()), i, recv)
    {
      var fd := fds[i].fd;
      if fd == -1 {
        return;
      }
      if fds[i].revents.pollin {
        log := log + [Received(fd)];
        if recv.EndOfStream? || recv.RecvFailed? {
          CloseFd(fd);
          fds[i] := fds[i].(fd := -1);
        }
      }
      if fds[i].revents.broken {
        CloseFd(fd);
        fds[i] := fds[i].(fd := -1);
      }
      assert fds[..] == ClientStep(old(View()), i, recv).fds;
    }

    /** The body of the event loop. */
    method ServeRound(round: Round)
      requires Valid() && running && Shaped(View(), round)
      modifies fds, this`open, this`log, this`running
      ensures Valid() && View() == Step(old(View()), round)
      ensures running <==> !round.poll.PollFailed?
    {
      hide PollDone, AcceptAll, ClientPass;
      ghost var st := View();
      StepRunning(st, round);
      match round.poll
      case Interrupted =>
      case PollFailed => running := false;
      case Ready(revents) =>
        Poll(revents);
        if fds[0].revents.pollin {
          AcceptClients(round.accepts);
        }
        HandleClients(round.recvs);
    }

    /** The event loop on the given answers of the kernel: it stops early exactly
        when poll fails otherwise than by a signal, in the last of the n rounds
        that have then been begun. */
    method Serve(server: int, rounds: seq<Round>) returns (n: nat)
      requires Valid() && View() == Start(server) && server >= 0 && LegalRun(server, rounds)
      modifies fds, this`open, this`log, this`running
      ensures Valid() && n <= |rounds| && (n == |rounds| || !running)
      ensures forall k :: 0 <= k < n - 1 ==> !rounds[k].poll.PollFailed?
      ensures running <==> n == 0 || !rounds[n - 1].poll.PollFailed?
      ensures View() == Run(server, rounds[..n]) && Inv(server, View())
    {
      n := 0;
      assert View().running;
      hide Step, Inv, LegalAccepts, LegalRun, Start;
      assert rounds[..0] == [];
      while n < |rounds| && running
        invariant Valid() && n <= |rounds| && View() == Run(server, rounds[..n])
        invariant forall k :: 0 <= k < n - 1 ==> !rounds[k].poll.PollFailed?
        invariant running <==> n == 0 || !rounds[n - 1].poll.PollFailed?
        decreases |rounds| - n
      {
        assert Front(rounds[..n + 1]) == rounds[..n];
        LegalPrefix(server, rounds, n + 1);
        ServeRound(rounds[n]);
        n := n + 1;
      }
      LegalPrefix(server, rounds, n);
      RunInv(server, rounds[..n]);
    }

    /** What follows the loop. */
    method CleanUp()
      requires Valid()
      modifies this`open, this`log
      ensures View() == Cleanup(old(View()))
    {
      for i := 1 to MAX_CLIENTS + 1
        invariant View() == CloseAll(old(View()), i)
      {
        if fds[i].fd != -1 {
          CloseFd(fds[i].fd);
        }
      }
      CloseFd(fds[0].fd);
    }
  }

  lemma FirstFree(fds: seq<PollFd>, i: nat, r: nat)
    requires i <= r <= |fds| && (r < |fds| ==> fds[r].fd == -1)
    requires forall k :: i <= k < r ==> fds[k].fd != -1
    ensures FreeSlot(fds, i) == r
  {
  }

  lemma {:induction false} LegalPrefix(server: int, rounds: seq<Round>, n: nat)
    requires LegalRun(server, rounds) && n <= |rounds|
    ensures LegalRun(server, rounds[..n])
    ensures n > 0 ==> Legal(Run(server, Front(rounds[..n])), rounds[n - 1])
  {
    if n < |rounds| {
      LegalPrefix(server, Front(rounds), n);
      assert Front(rounds)[..n] == rounds[..n];
    } else {
      assert rounds[..n] == rounds;
    }
  }
}
