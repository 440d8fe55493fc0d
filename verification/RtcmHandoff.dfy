/** The hand-off of the RTCM client descriptor in src/gnss.c between the accept thread, the
    GNSS thread and the final clean-up in gnss_stop. Each critical section of mutex_data is one
    step, and so is every system call outside it; the steps of the threads interleave freely.
    Descriptor numbers are handed out by the kernel, which reuses a number as soon as it is
    closed, for a new client or for any other file of the process. */
module RtcmHandoff {
  import opened Common

  /** rtcm_accept_thread_fn. An fd of -1 in a local is the source's "no descriptor". */
  datatype AcceptPc =
    | Waiting                  // in accept()
    | Accepted(fd: int)        // a new client_fd, not yet in the slot
    | Swapped(previous: int)       // the slot taken over, old_fd still to be closed
    | AcceptGone

  /** The RTCM part of gnss_thread. */
  datatype GnssPc =
    | Idle                     // at the top of a turn, stop was not set
    | Snapped(cfd: int)        // cfd copied out of the slot
    | SendFailed(cfd: int)     // send() on it returned an error
    | Removed(cfd: int)        // taken out of the slot, to be closed
    | TurnEnd                  // about to read stop
    | GnssGone

  /** gnss_stop and rtcm_sock_cleanup. */
  datatype MainPc =
    | Running
    | JoiningGnss              // stop = true
    | Cleaning                 // gnss_thread joined
    | JoiningAccept            // listening socket closed
    | Taking                   // accept thread joined
    | Taken(cfd: int)          // slot emptied, cfd still to be closed
    | Stopped

  /** clients maps the open client descriptors to the connections they stand for, others are
      the remaining open descriptors of the process. closed lists the connections in the order
      of their close, stray counts closes of anything that is not an open client descriptor. */
  datatype State = State(
    slot: int, listening: bool,
    accept: AcceptPc, gnss: GnssPc, main: MainPc,
    clients: map<int, nat>, others: set<int>,
    accepted: nat, closed: seq<nat>, stray: nat)

  datatype Action =
    | AcceptClient(fd: int)    // accept() returns fd
    | AcceptRetry              // accept() fails for another reason
    | AcceptEnd                // accept() fails with EINVAL or EBADF, or the flag was seen
    | Swap
    | CloseOld
    | Snapshot
    | Send(ok: bool)
    | Compare
    | CloseRemoved
    | NoFrame                  // nothing to forward in this turn
    | ReadStop
    | RequestStop
    | JoinGnss
    | CloseListener
    | JoinAccept
    | TakeSlot
    | CloseTaken
    | OtherOpen(fd: int)       // any other part of the process opens a file
    | OtherClose(fd: int)

  predicate Unused(s: State, fd: int) {
    fd >= 0 && fd !in s.clients && fd !in s.others
  }

  predicate Enabled(s: State, a: Action) {
    match a
    case AcceptClient(fd) => s.accept.Waiting? && s.listening && Unused(s, fd)
    case AcceptRetry => s.accept.Waiting? && s.listening
    case AcceptEnd => s.accept.Waiting? && !s.listening
    case Swap => s.accept.Accepted?
    case CloseOld => s.accept.Swapped?
    case Snapshot => s.gnss.Idle?
    case Send(_) => s.gnss.Snapped?
    case Compare => s.gnss.SendFailed?
    case CloseRemoved => s.gnss.Removed?
    case NoFrame => s.gnss.Idle?
    case ReadStop => s.gnss.TurnEnd?
    case RequestStop => s.main.Running?
    case JoinGnss => s.main.JoiningGnss? && s.gnss.GnssGone?
    case CloseListener => s.main.Cleaning?
    case JoinAccept => s.main.JoiningAccept? && s.accept.AcceptGone?
    case TakeSlot => s.main.Taking?
    case CloseTaken => s.main.Taken?
    case OtherOpen(fd) => Unused(s, fd)
    case OtherClose(fd) => fd in s.others
  }

  /** if (fd >= 0) close(fd) */
  function Close(s: State, fd: int): State {
    if fd < 0 then s
    else if fd in s.clients then s.(clients := s.clients - {fd}, closed := s.closed + [s.clients[fd]])
    else s.(others := s.others - {fd}, stray := s.stray + 1)
  }

  function Do(s: State, a: Action): State
    requires Enabled(s, a)
  {
    match a
    case AcceptClient(fd) =>
      s.(clients := s.clients[fd := s.accepted], accepted := s.accepted + 1, accept := Accepted(fd))
    case AcceptRetry => s
    case AcceptEnd => s.(accept := AcceptGone)
    case Swap => s.(slot := s.accept.fd, accept := Swapped(s.slot))
    case CloseOld => Close(s, s.accept.previous).(accept := Waiting)
    case Snapshot => s.(gnss := if s.slot >= 0 then Snapped(s.slot) else TurnEnd)
    case NoFrame => s.(gnss := TurnEnd)
    case ReadStop => s.(gnss := if s.main.Running? then Idle else GnssGone)
    case Send(ok) => s.(gnss := if ok then TurnEnd else SendFailed(s.gnss.cfd))
    case Compare =>
      if s.slot == s.gnss.cfd then s.(slot := -1, gnss := Removed(s.gnss.cfd)) else s.(gnss := TurnEnd)
    case CloseRemoved => Close(s, s.gnss.cfd).(gnss := TurnEnd)
    case RequestStop => s.(main := JoiningGnss)
    case JoinGnss => s.(main := Cleaning)
    case CloseListener => s.(listening := false, main := JoiningAccept)
    case JoinAccept => s.(main := Taking)
    case TakeSlot => s.(slot := -1, main := Taken(s.slot))
    case CloseTaken => Close(s, s.main.cfd).(main := Stopped)
    case OtherOpen(fd) => s.(others := s.others + {fd})
    case OtherClose(fd) => s.(others := s.others - {fd})
  }

  /** After gnss_init: the listening socket is open and no client has come yet. */
  predicate Initial(s: State) {
    && s.slot == -1 && s.listening && s.accept == Waiting && s.gnss == TurnEnd && s.main == Running
    && s.clients == map[] && s.accepted == 0 && s.closed == [] && s.stray == 0
  }

  // ----------------------------------------------------------- ownership

  datatype Owner = Slot | AcceptThread | GnssThread | MainThread

  predicate Owns(s: State, who: Owner, fd: int) {
    fd >= 0 &&
    match who
    case Slot => s.slot == fd
    case AcceptThread => s.accept == Accepted(fd) || s.accept == Swapped(fd)
    case GnssThread => s.gnss == Removed(fd)
    case MainThread => s.main == Taken(fd)
  }

  /** Every open client descriptor has exactly one owner, and owners hold open ones only. */
  ghost predicate LinearOwnership(s: State) {
    && (forall who, fd :: Owns(s, who, fd) ==> fd in s.clients)
    && (forall v, w, fd :: Owns(s, v, fd) && Owns(s, w, fd) ==> v == w)
    && (forall fd :: fd in s.clients ==>
          Owns(s, Slot, fd) || Owns(s, AcceptThread, fd) || Owns(s, GnssThread, fd) || Owns(s, MainThread, fd))
  }

  /** Every accepted connection is open under one number or was closed once. */
  ghost predicate Accounted(s: State) {
    && (forall fd :: fd in s.clients ==> fd >= 0 && s.clients[fd] < s.accepted && s.clients[fd] !in s.closed)
    && (forall f, g :: f in s.clients && g in s.clients && s.clients[f] == s.clients[g] ==> f == g)
    && (forall i, j :: 0 <= i < j < |s.closed| ==> s.closed[i] != s.closed[j])
    && (forall c :: c in s.closed ==> c < s.accepted)
    && (forall c: nat :: c < s.accepted ==> c in s.closed || exists fd :: fd in s.clients && s.clients[fd] == c)
  }

  /** The order of the shutdown. */
  ghost predicate Shutdown(s: State) {
    && (s.gnss.GnssGone? ==> !s.main.Running?)
    && (s.accept.AcceptGone? ==> !s.listening)
    && (!s.listening ==> s.main.JoiningAccept? || s.main.Taking? || s.main.Taken? || s.main.Stopped?)
    && (s.main.JoiningAccept? ==> !s.listening)
    && (!s.main.Running? && !s.main.JoiningGnss? ==> s.gnss.GnssGone?)
    && (s.main.Taking? || s.main.Taken? || s.main.Stopped? ==> s.accept.AcceptGone?)
    && (s.main.Taken? || s.main.Stopped? ==> s.slot == -1)
    && (s.accept.Accepted? ==> s.accept.fd >= 0)
    && (s.gnss.Snapped? || s.gnss.SendFailed? || s.gnss.Removed? ==> s.gnss.cfd >= 0)
    && s.slot >= -1
  }

  ghost predicate Inv(s: State) {
    && LinearOwnership(s) && Accounted(s) && Shutdown(s)
    && s.stray == 0 && Apart(s)
  }

  /** Closing a descriptor that who has just given up. */
  lemma CloseAccounted(s: State, fd: int)
    requires Accounted(s) && fd in s.clients
    ensures Accounted(Close(s, fd))
  {
    var t := Close(s, fd);
    var gone := s.clients[fd];
    forall c: nat | c < s.accepted
      ensures c in t.closed || exists f :: f in t.clients && t.clients[f] == c
    {
      if c == gone {
        assert t.closed[|s.closed|] == c;
      } else if c in s.closed {
        var i :| 0 <= i < |s.closed| && s.closed[i] == c;
        assert t.closed[i] == c;
      } else {
        var f :| f in s.clients && s.clients[f] == c;
        assert f in t.clients;
      }
    }
  }

  lemma AcceptAccounted(s: State, fd: int)
    requires Accounted(s) && Enabled(s, AcceptClient(fd))
    ensures Accounted(Do(s, AcceptClient(fd)))
  {
    var t := Do(s, AcceptClient(fd));
    assert t.clients[fd] == s.accepted;
    forall c: nat | c < t.accepted
      ensures c in t.closed || exists f :: f in t.clients && t.clients[f] == c
    {
      if c == s.accepted {
        assert fd in t.clients && t.clients[fd] == c;
      } else if c !in s.closed {
        var f :| f in s.clients && s.clients[f] == c;
        assert f in t.clients && t.clients[f] == c;
      }
    }
  }

  /** The descriptor a step closes, if any, and who has to own it. */
  function Closing(s: State, a: Action): (int, Owner)
    requires Enabled(s, a)
  {
    match a
    case CloseOld => (s.accept.previous, AcceptThread)
    case CloseRemoved => (s.gnss.cfd, GnssThread)
    case CloseTaken => (s.main.cfd, MainThread)
    case _ => (-1, Slot)
  }

  function Exchange(who: Owner, x: Owner, y: Owner): Owner {
    if who == x then y else if who == y then x else who
  }

  /** A hand-off: what x owned is y's now and the other way round. */
  lemma HandOff(s: State, t: State, x: Owner, y: Owner)
    requires LinearOwnership(s) && t.clients == s.clients
    requires forall who, fd :: Owns(t, who, fd) <==> Owns(s, Exchange(who, x, y), fd)
    ensures LinearOwnership(t)
  {
    forall v, w, fd | Owns(t, v, fd) && Owns(t, w, fd)
      ensures v == w
    {
      assert Owns(s, Exchange(v, x, y), fd) && Owns(s, Exchange(w, x, y), fd);
    }
    forall fd | fd in t.clients
      ensures Owns(t, Slot, fd) || Owns(t, AcceptThread, fd) || Owns(t, GnssThread, fd) || Owns(t, MainThread, fd)
    {
      var who :| Owns(s, who, fd);
      assert Owns(t, Exchange(who, x, y), fd);
    }
  }

  /** An accepted client is the accept thread's; nobody owned its number before. */
  lemma AcceptOwned(s: State, fd: int)
    requires LinearOwnership(s) && Enabled(s, AcceptClient(fd))
    ensures LinearOwnership(Do(s, AcceptClient(fd)))
  {
    var t := Do(s, AcceptClient(fd));
    assert forall who :: !Owns(s, who, fd);
    assert forall who, f :: who != AcceptThread ==> (Owns(t, who, f) <==> Owns(s, who, f));
    assert forall f :: Owns(t, AcceptThread, f) <==> f == fd;
    assert forall f :: !Owns(s, AcceptThread, f);
  }

  /** A close: who gives its descriptor up and the number leaves the table. */
  lemma CloseOwned(s: State, t: State, who: Owner, fd: int)
    requires LinearOwnership(s) && t.clients == (if fd < 0 then s.clients else s.clients - {fd})
    requires forall f :: Owns(s, who, f) <==> f >= 0 && f == fd
    requires forall w, f :: Owns(t, w, f) <==> w != who && Owns(s, w, f)
    ensures LinearOwnership(t)
  {
    assert fd >= 0 ==> Owns(s, who, fd);
    forall w, f | Owns(t, w, f)
      ensures f in t.clients
    {
      assert Owns(s, w, f);
    }
    forall f | f in t.clients
      ensures Owns(t, Slot, f) || Owns(t, AcceptThread, f) || Owns(t, GnssThread, f) || Owns(t, MainThread, f)
    {
      var w :| Owns(s, w, f);
      assert w != who;
      assert Owns(t, w, f);
    }
  }

  lemma OwnershipStep(s: State, a: Action)
    requires LinearOwnership(s) && Shutdown(s) && Enabled(s, a)
    ensures LinearOwnership(Do(s, a))
  {
    var t := Do(s, a);
    match a
    case AcceptClient(fd) => AcceptOwned(s, fd);
    case CloseOld =>
      assert s.accept.previous >= 0 ==> Owns(s, AcceptThread, s.accept.previous);
      CloseOwned(s, t, AcceptThread, s.accept.previous);
    case CloseRemoved =>
      assert s.gnss.cfd >= 0 ==> Owns(s, GnssThread, s.gnss.cfd);
      CloseOwned(s, t, GnssThread, s.gnss.cfd);
    case CloseTaken =>
      assert s.main.cfd >= 0 ==> Owns(s, MainThread, s.main.cfd);
      CloseOwned(s, t, MainThread, s.main.cfd);
    case Swap => HandOff(s, t, Slot, AcceptThread);
    case Compare =>
      if s.slot == s.gnss.cfd {
        HandOff(s, t, Slot, GnssThread);
      } else {
        HandOff(s, t, Slot, Slot);
      }
    case TakeSlot => HandOff(s, t, Slot, MainThread);
    case _ => HandOff(s, t, Slot, Slot);
  }

  /** A step that closes nothing and accepts nobody leaves the accounts alone. */
  lemma AccountsUntouched(s: State, t: State)
    requires Accounted(s) && t.clients == s.clients && t.accepted == s.accepted && t.closed == s.closed
    ensures Accounted(t)
  {
  }

  lemma AccountedStep(s: State, a: Action)
    requires LinearOwnership(s) && Accounted(s) && s.stray == 0 && Enabled(s, a)
    ensures Accounted(Do(s, a)) && Do(s, a).stray == 0
  {
    var (fd, who) := Closing(s, a);
    if fd >= 0 {
      assert Owns(s, who, fd);
      CloseAccounted(s, fd);
      AccountsUntouched(Close(s, fd), Do(s, a));
    } else if a.AcceptClient? {
      AcceptAccounted(s, a.fd);
    } else {
      AccountsUntouched(s, Do(s, a));
    }
  }

  lemma ShutdownStep(s: State, a: Action)
    requires Shutdown(s) && Enabled(s, a)
    ensures Shutdown(Do(s, a))
  {
  }

  /** A number is either a client's or another file's. */
  ghost predicate Apart(s: State) {
    forall fd :: fd in s.others ==> fd !in s.clients
  }

  lemma ApartStep(s: State, a: Action)
    requires LinearOwnership(s) && Apart(s) && Enabled(s, a)
    ensures Apart(Do(s, a))
  {
    var (fd, who) := Closing(s, a);
    if fd >= 0 {
      assert Owns(s, who, fd);
    }
  }

  lemma InvStep(s: State, a: Action)
    requires Inv(s) && Enabled(s, a)
    ensures Inv(Do(s, a))
  {
    OwnershipStep(s, a);
    AccountedStep(s, a);
    ShutdownStep(s, a);
    ApartStep(s, a);
  }

  /** acts is a legal run from s and ends in t. */
  ghost predicate Reach(s: State, acts: seq<Action>, t: State)
    decreases |acts|
  {
    if acts == [] then s == t
    else Enabled(s, acts[0]) && Reach(Do(s, acts[0]), acts[1..], t)
  }

  lemma {:induction false} InvRun(s: State, acts: seq<Action>, t: State)
    requires Inv(s) && Reach(s, acts, t)
    ensures Inv(t)
    decreases |acts|
  {
    if acts != [] {
      InvStep(s, acts[0]);
      InvRun(Do(s, acts[0]), acts[1..], t);
    }
  }

  /** Under every interleaving and every reuse of descriptor numbers: each open client
      descriptor has exactly one owner, no close ever hit anything but an open client
      descriptor, and no connection was closed twice. */
  lemma DescriptorsAreLinear(s: State, acts: seq<Action>, t: State)
    requires Initial(s) && Reach(s, acts, t)
    ensures forall fd :: fd in t.clients ==>
              exists who :: Owns(t, who, fd) && forall other :: Owns(t, other, fd) ==> other == who
    ensures forall who, fd :: Owns(t, who, fd) ==> fd in t.clients
    ensures t.stray == 0
    ensures forall i, j :: 0 <= i < j < |t.closed| ==> t.closed[i] != t.closed[j]
  {
    InvRun(s, acts, t);
  }

  /** Whatever is closed in a run is an open client at that moment: its number leaves the table
      and its connection goes to the end of the list of closed ones. */
  lemma ClosesHitOpenClients(s: State, acts: seq<Action>, t: State, a: Action)
    requires Initial(s) && Reach(s, acts, t) && Enabled(t, a) && Closing(t, a).0 >= 0
    ensures
      var fd := Closing(t, a).0;
      fd in t.clients && Do(t, a).clients == t.clients - {fd} && Do(t, a).closed == t.closed + [t.clients[fd]]
  {
    InvRun(s, acts, t);
    assert Owns(t, Closing(t, a).1, Closing(t, a).0);
  }

  /** Once gnss_stop has returned nothing is left open, and every connection that was ever
      accepted has been closed exactly once. */
  lemma EverythingClosedAfterStop(s: State, acts: seq<Action>, t: State)
    requires Initial(s) && Reach(s, acts, t) && t.main.Stopped?
    ensures t.clients == map[]
    ensures forall c: nat :: c < t.accepted <==> c in t.closed
    ensures |t.closed| == t.accepted
  {
    InvRun(s, acts, t);
    assert forall fd :: fd !in t.clients;
    assert forall c: nat :: c < t.accepted <==> c in t.closed;
    PermutationLength(t.closed, t.accepted);
  }

  lemma PermutationLength(q: seq<nat>, n: nat)
    requires forall i, j :: 0 <= i < j < |q| ==> q[i] != q[j]
    requires forall c: nat :: c < n <==> c in q
    ensures |q| == n
  {
    DistinctSize(q);
    assert (set c: nat | c in q) == Numbers(n);
  }

  /** The numbers below n. */
  ghost function Numbers(n: nat): (r: set<nat>)
    ensures |r| == n && forall c: nat :: c in r <==> c < n
  {
    if n == 0 then {} else Numbers(n - 1) + {n - 1}
  }

  lemma {:induction false} DistinctSize(q: seq<nat>)
    requires forall i, j :: 0 <= i < j < |q| ==> q[i] != q[j]
    ensures |set c: nat | c in q| == |q|
    decreases |q|
  {
    if q != [] {
      var front, last := q[..|q| - 1], q[|q| - 1];
      DistinctSize(front);
      assert (set c: nat | c in q) == (set c: nat | c in front) + {last};
    }
  }

  // ------------------------------------------------- whose connection is it

  lemma ConnectionStep(s: State, a: Action, fd: int)
    requires Inv(s) && Enabled(s, a) && fd in Do(s, a).clients
    ensures if a == AcceptClient(fd) then Do(s, a).clients[fd] == s.accepted
            else fd in s.clients && Do(s, a).clients[fd] == s.clients[fd]
  {
  }

  /** The connection behind an open number at the end of a run: the one that was there before,
      unless the number was handed out again, and then a younger one. */
  lemma {:induction false} ConnectionBehind(s: State, acts: seq<Action>, t: State, fd: int)
    requires Inv(s) && Reach(s, acts, t) && fd in t.clients
    ensures AcceptClient(fd) !in acts ==> fd in s.clients && t.clients[fd] == s.clients[fd]
    ensures AcceptClient(fd) in acts ==> t.clients[fd] >= s.accepted
    ensures t.accepted >= s.accepted
    decreases |acts|
  {
    if acts != [] {
      var a, rest := acts[0], acts[1..];
      assert acts == [a] + rest;
      InvStep(s, a);
      ConnectionBehind(Do(s, a), rest, t, fd);
      if fd in Do(s, a).clients {
        ConnectionStep(s, a, fd);
      }
    }
  }

  /** Without another snapshot the GNSS thread goes on with the number of the last one. */
  predicate Handles(g: GnssPc, fd: int) {
    match g
    case Snapped(cfd) => cfd == fd
    case SendFailed(cfd) => cfd == fd
    case Removed(cfd) => cfd == fd
    case _ => true
  }

  lemma {:induction false} HandlesTheSnapshot(s: State, acts: seq<Action>, t: State, fd: int)
    requires Reach(s, acts, t) && Handles(s.gnss, fd) && Snapshot !in acts
    ensures Handles(t.gnss, fd)
    decreases |acts|
  {
    if acts != [] {
      var a, rest := acts[0], acts[1..];
      assert acts == [a] + rest;
      HandlesTheSnapshot(Do(s, a), rest, t, fd);
    }
  }

  lemma SnappedConnectionIff(s: State, acts: seq<Action>, t: State, fd: int)
    requires Inv(s) && fd >= 0 && s.gnss == Snapped(fd) && fd in s.clients
    requires Reach(s, acts, t) && Snapshot !in acts && t.gnss.Removed?
    ensures t.gnss.cfd == fd && fd in t.clients
    ensures t.clients[fd] == s.clients[fd] <==> AcceptClient(fd) !in acts
  {
    InvRun(s, acts, t);
    HandlesTheSnapshot(s, acts, t, fd);
    assert Owns(t, GnssThread, fd);
    ConnectionBehind(s, acts, t, fd);
  }

  lemma CloseRemovedCloses(t: State, fd: int)
    requires t.gnss == Removed(fd) && fd >= 0 && fd in t.clients
    ensures Do(t, CloseRemoved).closed == t.closed + [t.clients[fd]]
  {
  }

  lemma AfterSnapshot(s: State)
    requires Inv(s) && Enabled(s, Snapshot) && s.slot >= 0
    ensures Inv(Do(s, Snapshot)) && Do(s, Snapshot) == s.(gnss := Snapped(s.slot)) && s.slot in s.clients
  {
    assert Owns(s, Slot, s.slot);
    InvStep(s, Snapshot);
  }

  /** When the GNSS thread, having failed to send, closes the number it took out of the slot, it
      closes the connection it had found there at the snapshot exactly if the kernel has not
      handed the number out again since. Comparing numbers cannot tell the two apart. */
  lemma ClosesTheSnappedConnectionIff(s0: State, before: seq<Action>, s: State, acts: seq<Action>, t: State)
    requires Initial(s0) && Reach(s0, before, s)
    requires Enabled(s, Snapshot) && s.slot >= 0
    requires Reach(Do(s, Snapshot), acts, t) && Snapshot !in acts && t.gnss.Removed?
    ensures LastSend(acts) == Some(false)
    ensures s.slot in s.clients && s.slot in t.clients
    ensures Do(t, CloseRemoved).closed == t.closed + [t.clients[s.slot]]
    ensures t.clients[s.slot] == s.clients[s.slot] <==> AcceptClient(s.slot) !in acts
  {
    InvRun(s0, before, s);
    AfterSnapshot(s);
    SnappedConnectionIff(s.(gnss := Snapped(s.slot)), acts, t, s.slot);
    CloseRemovedCloses(t, s.slot);
    DropsAfterFailedSend(s.(gnss := Snapped(s.slot)), acts, t);
  }

  /** A new client takes the place of the one in the slot. */
  lemma ReplaceClient(s: State, fd: int) returns (acts: seq<Action>, t: State)
    requires s.accept.Waiting? && s.listening && Unused(s, fd) && (s.slot >= 0 ==> s.slot in s.clients)
    ensures Reach(s, acts, t)
    ensures
      var added := s.clients[fd := s.accepted];
      t == if s.slot < 0 then s.(slot := fd, clients := added, accepted := s.accepted + 1)
           else s.(slot := fd, clients := added - {s.slot}, accepted := s.accepted + 1,
                   closed := s.closed + [s.clients[s.slot]])
  {
    acts := [AcceptClient(fd), Swap, CloseOld];
    TwoSteps(Do(s, acts[0]), acts[1..]);
    t := Do(Do(Do(s, acts[0]), acts[1]), acts[2]);
  }

  /** The first client comes, and the send to it fails. */
  lemma FirstSendFails(s0: State, x: int) returns (acts: seq<Action>, t: State)
    requires Initial(s0) && Unused(s0, x)
    ensures Reach(s0, acts, t)
    ensures t == s0.(slot := x, clients := map[x := 0], accepted := 1, gnss := SendFailed(x))
  {
    var first, s1 := ReplaceClient(s0, x);
    var s2 := Do(s1, ReadStop);
    TwoSteps(s2, [Snapshot, Send(false)]);
    t := Do(Do(s2, Snapshot), Send(false));
    var rest := [ReadStop, Snapshot, Send(false)];
    assert rest[1..] == [Snapshot, Send(false)];
    acts := first + rest;
    ReachTrans(s0, first, s1, rest, t);
  }

  /** The other case occurs: while the send to the first client fails, two more clients replace
      one another and the last of them gets the first one's number; the GNSS thread then takes
      this live connection out of the slot and closes it. */
  lemma LiveConnectionCanBeClosed(s0: State, x: int, y: int) returns (acts: seq<Action>, t: State)
    requires Initial(s0) && Unused(s0, x) && Unused(s0, y) && x != y
    ensures Reach(s0, acts, t)
    ensures t.closed == [0, 1, 2] && t.slot == -1 && t.accepted == 3 && t.main.Running?
  {
    var first, s1 := FirstSendFails(s0, x);
    var second, s2 := ReplaceClient(s1, y);
    assert s2.clients == map[y := 1] && s2.closed == [0];
    var third, s3 := ReplaceClient(s2, x);
    assert s3.clients == map[x := 2] && s3.closed == [0, 1];
    var last := [Compare, CloseRemoved];
    TwoSteps(s3, last);
    t := Do(Do(s3, Compare), CloseRemoved);
    ReachTrans(s2, third, s3, last, t);
    ReachTrans(s1, second, s2, third + last, t);
    acts := first + (second + (third + last));
    ReachTrans(s0, first, s1, second + (third + last), t);
  }

  lemma TwoSteps(s: State, acts: seq<Action>)
    requires |acts| == 2 && Enabled(s, acts[0]) && Enabled(Do(s, acts[0]), acts[1])
    ensures Reach(s, acts, Do(Do(s, acts[0]), acts[1]))
  {
    assert acts[1..][1..] == [];
    assert Reach(Do(Do(s, acts[0]), acts[1]), [], Do(Do(s, acts[0]), acts[1]));
  }

  lemma {:induction false} ReachTrans(s: State, a: seq<Action>, t: State, b: seq<Action>, u: State)
    requires Reach(s, a, t) && Reach(t, b, u)
    ensures Reach(s, a + b, u)
    decreases |a|
  {
    if a == [] {
      assert a + b == b;
    } else {
      ReachTrans(Do(s, a[0]), a[1..], t, b, u);
      assert (a + b)[1..] == a[1..] + b;
    }
  }

  // ----------------------------------------------------- who loses a client

  /** The outcome of the last send since the last snapshot, if there was one. */
  function LastSend(acts: seq<Action>): Option<bool>
    decreases |acts|
  {
    if acts == [] then None
    else
      var a := acts[|acts| - 1];
      if a.Send? then Some(a.ok)
      else if a.Snapshot? then None
      else LastSend(acts[..|acts| - 1])
  }

  lemma {:induction false} ReachSnoc(s: State, acts: seq<Action>, t: State) returns (u: State)
    requires acts != [] && Reach(s, acts, t)
    ensures Reach(s, acts[..|acts| - 1], u) && Enabled(u, acts[|acts| - 1]) && Do(u, acts[|acts| - 1]) == t
    decreases |acts|
  {
    if |acts| == 1 {
      u := s;
      assert acts[1..] == [];
    } else {
      u := ReachSnoc(Do(s, acts[0]), acts[1..], t);
      assert acts[1..][..|acts| - 2] == acts[..|acts| - 1][1..];
    }
  }

  /** A thread that is dropping a client has just failed to send to it. */
  lemma {:induction false} DropsAfterFailedSend(s: State, acts: seq<Action>, t: State)
    requires Reach(s, acts, t) && !s.gnss.SendFailed? && !s.gnss.Removed?
    requires t.gnss.SendFailed? || t.gnss.Removed?
    ensures LastSend(acts) == Some(false)
    decreases |acts|
  {
    if acts == [] {
      assert false;
    } else {
      var u := ReachSnoc(s, acts, t);
      var a := acts[|acts| - 1];
      if !a.Send? {
        assert !a.Snapshot?;
        DropsAfterFailedSend(s, acts[..|acts| - 1], u);
      }
    }
  }

  /** What the hand-off is about. */
  predicate SameClients(s: State, t: State) {
    t.slot == s.slot && t.clients == s.clients && t.closed == s.closed
  }

  /** In every run the GNSS thread empties the slot or closes a client only if its last send
      since the last snapshot failed: a client that can be served is never dropped by it. */
  lemma OnlyFailedSendsDrop(s: State, acts: seq<Action>, t: State, a: Action)
    requires Initial(s) && Reach(s, acts, t)
    requires Enabled(t, a) && ThreadOf(a) == Gnss && !SameClients(t, Do(t, a))
    ensures LastSend(acts) == Some(false)
  {
    assert t.gnss.SendFailed? || t.gnss.Removed?;
    DropsAfterFailedSend(s, acts, t);
  }

  /** As long as only the GNSS thread moves and none of its sends fails, slot, clients and
      closed connections stay as they are. */
  lemma {:induction false} GoodSendsKeepClients(s: State, acts: seq<Action>, t: State)
    requires Reach(s, acts, t) && !s.gnss.SendFailed? && !s.gnss.Removed?
    requires forall i :: 0 <= i < |acts| ==>
      (ThreadOf(acts[i]) == Gnss || ThreadOf(acts[i]) == Elsewhere) && acts[i] != Send(false)
    ensures SameClients(s, t)
    decreases |acts|
  {
    if acts != [] {
      var rest := acts[1..];
      assert forall i :: 0 <= i < |rest| ==> rest[i] == acts[i + 1];
      GoodSendsKeepClients(Do(s, acts[0]), rest, t);
    }
  }

  /** And a failed one does drop the client, if it is still in the slot: two steps later its
      number is closed and the slot empty. */
  lemma FailedSendDrops(s: State)
    requires Inv(s) && s.gnss == Snapped(s.slot) && s.slot >= 0
    ensures s.slot in s.clients
    ensures
      var failed := Do(s, Send(false));
      && Enabled(failed, Compare) && Enabled(Do(failed, Compare), CloseRemoved)
      && var t := Do(Do(failed, Compare), CloseRemoved);
         t.slot == -1 && t.clients == s.clients - {s.slot} && t.closed == s.closed + [s.clients[s.slot]]
  {
    assert Owns(s, Slot, s.slot);
  }

  /** Nothing is sent while the slot is empty: in every run a send goes to a number that was in
      the slot at the last snapshot. */
  lemma SendsOnlyToClients(s: State, acts: seq<Action>, t: State)
    requires Initial(s) && Reach(s, acts, t)
    ensures t.gnss.Snapped? ==> t.gnss.cfd >= 0
    ensures Enabled(t, Snapshot) ==>
              Do(t, Snapshot).gnss == if t.slot == -1 then TurnEnd else Snapped(t.slot)
  {
    InvRun(s, acts, t);
  }

  /** A new client takes the slot at once, and the one before is closed. */
  lemma NewClientReplaces(s: State, fd: int)
    requires Inv(s) && Enabled(s, AcceptClient(fd))
    ensures s.slot >= 0 ==> s.slot in s.clients
    ensures
      var swapped := Do(Do(s, AcceptClient(fd)), Swap);
      && swapped.slot == fd && swapped.clients[fd] == s.accepted
      && Enabled(swapped, CloseOld)
      && Do(swapped, CloseOld).closed == s.closed + (if s.slot < 0 then [] else [s.clients[s.slot]])
  {
    if s.slot >= 0 {
      assert Owns(s, Slot, s.slot);
    }
  }

  // ------------------------------------------------------------ progress

  datatype Thread = Stopping | Accepting | Gnss | Elsewhere

  function ThreadOf(a: Action): Thread {
    match a
    case AcceptClient(_) => Accepting
    case AcceptRetry => Accepting
    case AcceptEnd => Accepting
    case Swap => Accepting
    case CloseOld => Accepting
    case Snapshot => Gnss
    case NoFrame => Gnss
    case Send(_) => Gnss
    case Compare => Gnss
    case CloseRemoved => Gnss
    case ReadStop => Gnss
    case OtherOpen(_) => Elsewhere
    case OtherClose(_) => Elsewhere
    case _ => Stopping
  }

  /** How many steps of a run are this thread's. */
  function Steps(acts: seq<Action>, who: Thread): nat {
    if acts == [] then 0 else (if ThreadOf(acts[0]) == who then 1 else 0) + Steps(acts[1..], who)
  }

  function Snapshots(acts: seq<Action>): nat {
    if acts == [] then 0 else (if acts[0] == Snapshot then 1 else 0) + Snapshots(acts[1..])
  }

  /** The steps that are left at most: of the GNSS thread once stop is set, of the accept thread
      once the listening socket is closed, of the main thread. */
  function GnssRank(g: GnssPc): nat {
    match g
    case Idle => 5
    case Snapped(_) => 4
    case SendFailed(_) => 3
    case Removed(_) => 2
    case TurnEnd => 1
    case GnssGone => 0
  }

  function AcceptRank(a: AcceptPc): nat {
    match a
    case Accepted(_) => 3
    case Swapped(_) => 2
    case Waiting => 1
    case AcceptGone => 0
  }

  function MainRank(m: MainPc): nat {
    match m
    case Running => 6
    case JoiningGnss => 5
    case Cleaning => 4
    case JoiningAccept => 3
    case Taking => 2
    case Taken(_) => 1
    case Stopped => 0
  }

  lemma {:induction false} GnssStops(s: State, acts: seq<Action>, t: State)
    requires Reach(s, acts, t) && !s.main.Running?
    ensures Steps(acts, Gnss) + GnssRank(t.gnss) <= GnssRank(s.gnss)
    ensures Snapshots(acts) <= if s.gnss.Idle? then 1 else 0
    decreases |acts|
  {
    if acts != [] {
      GnssStops(Do(s, acts[0]), acts[1..], t);
    }
  }

  lemma {:induction false} AcceptStops(s: State, acts: seq<Action>, t: State)
    requires Reach(s, acts, t) && !s.listening
    ensures Steps(acts, Accepting) + AcceptRank(t.accept) <= AcceptRank(s.accept)
    decreases |acts|
  {
    if acts != [] {
      AcceptStops(Do(s, acts[0]), acts[1..], t);
    }
  }

  lemma {:induction false} MainStops(s: State, acts: seq<Action>, t: State)
    requires Reach(s, acts, t)
    ensures Steps(acts, Stopping) + MainRank(t.main) == MainRank(s.main)
    decreases |acts|
  {
    if acts != [] {
      MainStops(Do(s, acts[0]), acts[1..], t);
    }
  }

  /** On every run, however the threads interleave: once stop is requested the GNSS thread takes
      at most five more steps and looks into the slot at most once; once the listening socket is
      closed the accept thread takes at most three; and gnss_stop itself takes six. */
  lemma ShutdownIsBounded(s: State, acts: seq<Action>, t: State)
    requires Reach(s, acts, t)
    ensures !s.main.Running? ==> Steps(acts, Gnss) <= 5 && Snapshots(acts) <= 1
    ensures !s.listening ==> Steps(acts, Accepting) <= 3
    ensures Steps(acts, Stopping) <= 6
  {
    MainStops(s, acts, t);
    if !s.main.Running? {
      GnssStops(s, acts, t);
    }
    if !s.listening {
      AcceptStops(s, acts, t);
    }
  }

  /** A step that brings the shutdown nearer. */
  function NextStep(s: State): Action {
    match s.main
    case Running => RequestStop
    case JoiningGnss =>
      (match s.gnss
       case Idle => NoFrame
       case Snapped(_) => Send(true)
       case SendFailed(_) => Compare
       case Removed(_) => CloseRemoved
       case TurnEnd => ReadStop
       case GnssGone => JoinGnss)
    case Cleaning => CloseListener
    case JoiningAccept =>
      (match s.accept
       case Waiting => AcceptEnd
       case Accepted(_) => Swap
       case Swapped(_) => CloseOld
       case AcceptGone => JoinAccept)
    case Taking => TakeSlot
    case _ => CloseTaken
  }

  /** An upper bound on the number of such steps that are left. */
  function Rank(s: State): nat {
    MainRank(s.main) + GnssRank(s.gnss) + AcceptRank(s.accept)
  }

  /** Until everything has stopped some thread of the three can always take such a step. */
  lemma NeverStuck(s: State)
    requires Inv(s) && !s.main.Stopped?
    ensures Enabled(s, NextStep(s)) && ThreadOf(NextStep(s)) != Elsewhere
    ensures Rank(Do(s, NextStep(s))) < Rank(s)
  {
  }

  /** The shutdown never deadlocks: from every reachable state some continuation completes
      it, within 14 steps of the three threads. */
  lemma {:induction false} StopCanAlwaysComplete(s: State) returns (acts: seq<Action>, t: State)
    requires Inv(s)
    ensures Reach(s, acts, t) && t.main.Stopped? && |acts| <= Rank(s) <= 14
    decreases Rank(s)
  {
    if s.main.Stopped? {
      acts, t := [], s;
    } else {
      var a := NextStep(s);
      NeverStuck(s);
      InvStep(s, a);
      var rest, u := StopCanAlwaysComplete(Do(s, a));
      acts, t := [a] + rest, u;
      assert acts[1..] == rest;
    }
  }
}
