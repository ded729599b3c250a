/**
 The main thread (server/main.c): accepting connections, starting a thread for each, and reaping.

 Client threads run whenever the main thread calls `OthersRun`: any of them may close its socket and then
 set its `finished` flag, and the signal handler may clear `running`.
 */
module Server {
  import opened Sequences
  import opened ThreadList

  // ----- Accounts: what was begun, what is under way, what is over

  /** Everything begun is either under way or over, not both, and nothing is over twice. */
  ghost predicate Balanced<T>(begun: set<T>, underWay: set<T>, over: seq<T>) {
    && underWay <= begun
    && (forall x :: x in over ==> x in begun && x !in underWay)
    && (forall x :: x in begun ==> x in underWay || x in over)
    && Distinct(over)
  }

  /** Everything begun is over, once. */
  ghost predicate ExactlyOnce<T>(begun: set<T>, over: seq<T>) {
    && (forall x :: x in over ==> x in begun)
    && (forall x :: x in begun ==> x in over)
    && Distinct(over)
  }

  lemma BalancedBegin<T>(begun: set<T>, underWay: set<T>, over: seq<T>, x: T)
    requires Balanced(begun, underWay, over) && x !in begun
    ensures Balanced(begun + {x}, underWay + {x}, over)
  {
  }

  lemma BalancedEnd<T>(begun: set<T>, underWay: set<T>, over: seq<T>, x: T)
    requires Balanced(begun, underWay, over) && x in underWay
    ensures Balanced(begun, underWay - {x}, over + [x])
  {
  }

  /** The thread that serves this client was started for its socket. */
  ghost predicate ServedBy(client: nat, owner: map<nat, ThreadArgs>, started: set<ThreadArgs>) {
    client in owner && owner[client].sockFd == client && owner[client] in started
  }

  ghost predicate AllServed(clients: set<nat>, owner: map<nat, ThreadArgs>, started: set<ThreadArgs>) {
    forall fd :: fd in clients ==> ServedBy(fd, owner, started)
  }

  /** The client the main thread holds is given to a new thread. */
  lemma OneMoreServed(accepted: set<nat>, owner: map<nat, ThreadArgs>, started: set<ThreadArgs>,
                      client: nat, t: ThreadArgs)
    requires AllServed(accepted - {client}, owner, started) && t.sockFd == client
    ensures AllServed(accepted - {}, owner[client := t], started + {t})
  {
    forall fd | fd in accepted && fd != client
      ensures ServedBy(fd, owner, started)
    {
      assert fd in accepted - {client};
    }
  }

  class World {
    var clock: nat
    var running: bool

    /** The client sockets accepted, not closed yet, and closed; those the main thread must see to; and the thread
        each of the others belongs to. */
    ghost var accepted: set<nat>
    var open: set<nat>
    ghost var closed: seq<nat>
    ghost var held: set<nat>
    ghost var owner: map<nat, ThreadArgs>
    var nextConn: nat

    /** Threads started, not joined yet, and joined. */
    ghost var started: set<ThreadArgs>
    var threads: set<ThreadArgs>
    ghost var joined: seq<ThreadArgs>

    /** Records allocated, not freed yet, and freed. */
    ghost var made: set<ThreadArgs>
    ghost var live: set<ThreadArgs>
    ghost var freed: seq<ThreadArgs>

    /** The flags the main thread has read, and what it saw. */
    ghost var readings: seq<(ThreadArgs, bool)>

    /** What accept returned each time, and how often a record or a thread could not be had. */
    ghost var attempts: seq<int>
    ghost var refusals: nat

    /** The server is told to stop by this time, and every thread started so far finishes by that time. */
    const shutdownAt: nat
    var lastDeadline: nat

    constructor (shutdownAt: nat)
      requires shutdownAt > 0
      ensures Valid() && !running && clock == 0 && this.shutdownAt == shutdownAt
      ensures accepted == open == held == {} && started == threads == {} && made == live == {}
    {
      clock, running, nextConn := 0, false, 0;
      accepted, open, closed, held, owner := {}, {}, [], {}, map[];
      started, threads, joined := {}, {}, [];
      made, live, freed, readings := {}, {}, [], [];
      attempts, refusals := [], 0;
      this.shutdownAt, lastDeadline := shutdownAt, 0;
    }

    /** A thread closes its socket before it is finished, and is finished when its time has come. */
    ghost predicate ThreadOk(t: ThreadArgs)
      reads this, t
    {
      && t in live
      && (t.finished ==> t.sockFd !in open)
      && t.sockFd !in held && t.sockFd in accepted
      && t.sockFd in owner && owner[t.sockFd] == t
      && (clock >= lastDeadline ==> t.finished)
    }

    /** Sockets, threads and records are each accounted for. */
    ghost predicate Accounted()
      reads this
    {
      && Balanced(accepted, open, closed)
      && Balanced(started, threads, joined)
      && Balanced(made, live, freed)
      && started <= made
    }

    /** Every accepted socket that the main thread does not hold went to a thread started for it. */
    ghost predicate HandedOver()
      reads this
    {
      AllServed(accepted - held, owner, started)
    }

    /** Each open socket is held by the main thread or belongs to exactly one thread that has not closed it. */
    ghost predicate Valid()
      reads this, threads
    {
      && Accounted()
      && (forall t :: t in threads ==> ThreadOk(t))
      && held <= open && (forall fd :: fd in accepted ==> fd < nextConn)
      && (forall fd :: fd in open && fd !in held ==> fd in owner && owner[fd] in threads && owner[fd].sockFd == fd)
      && (running ==> clock < shutdownAt)
    }

    /** close: only of an open socket, so none is closed twice. */
    method CloseSocket(fd: nat)
      requires fd in open && Accounted()
      modifies this`open, this`closed
      ensures open == old(open) - {fd} && closed == old(closed) + [fd] && Accounted()
    {
      BalancedEnd(accepted, open, closed, fd);
      open, closed := open - {fd}, closed + [fd];
    }

    /** One thread gets to run: it closes its socket once, then sets its flag. */
    method StepThread(t: ThreadArgs, due: bool)
      requires Valid() && t in threads
      modifies this`open, this`closed, t`finished
      ensures Valid()
      ensures old(t.finished) || due ==> t.finished
      ensures held <= open <= old(open)
    {
      var mayClose: bool :| due ==> mayClose;
      var mayFinish: bool :| due ==> mayFinish;
      if t.sockFd in open && mayClose {
        CloseSocket(t.sockFd);
      }
      if t.sockFd !in open && mayFinish {
        t.finished := true;
      }
    }

    /** Every thread gets to run. */
    method ThreadsRun(due: bool)
      requires Valid()
      modifies this`open, this`closed, threads`finished
      ensures Valid()
      ensures forall t :: t in threads && due ==> t.finished
      ensures forall t :: t in threads && old(t.finished) ==> t.finished
      ensures held <= open <= old(open)
    {
      var todo := threads;
      while todo != {}
        invariant todo <= threads && Valid()
        invariant forall t :: t in threads && t !in todo && due ==> t.finished
        invariant forall t :: t in threads && old(t.finished) ==> t.finished
        invariant held <= open <= old(open)
        decreases todo
      {
        var t :| t in todo;
        StepThread(t, due);
        todo := todo - {t};
      }
    }

    /** The client threads and the signal handler get to run. */
    method OthersRun()
      requires Valid()
      modifies this`clock, this`running, this`open, this`closed, threads`finished
      ensures Valid() && clock > old(clock)
      ensures running ==> old(running)
      ensures forall t :: t in threads && old(t.finished) ==> t.finished
      ensures held <= open <= old(open)
    {
      var signalled: bool := *;
      if signalled || clock + 1 >= shutdownAt {
        running := false;
      }
      ThreadsRun(clock + 1 >= lastDeadline);
      clock := clock + 1;
    }

    /** accept: a new connection, or failure.  Blocking, it lets the others run. */
    method Accept() returns (fd: int)
      requires Valid() && held == {}
      modifies this`clock, this`running, this`open, this`closed, this`held, this`accepted, this`nextConn
      modifies this`attempts, threads`finished
      ensures Valid() && clock > old(clock) && attempts == old(attempts) + [fd]
      ensures running ==> old(running)
      ensures forall t :: t in threads && old(t.finished) ==> t.finished
      ensures fd < 0 ==> fd == -1 && held == {} && accepted == old(accepted)
      ensures fd >= 0 ==> fd !in old(accepted) && held == {fd} && accepted == old(accepted) + {fd}
    {
      OthersRun();
      var fails: bool := *;
      fd := -1;
      if !fails {
        fd := NewConnection();
      }
      attempts := attempts + [fd];
    }

    method NewConnection() returns (fd: nat)
      requires Valid() && held == {}
      modifies this`open, this`held, this`accepted, this`nextConn
      ensures Valid()
      ensures fd !in old(accepted) && held == {fd} && accepted == old(accepted) + {fd}
    {
      fd := nextConn;
      BalancedBegin(accepted, open, closed, fd);
      open, held, accepted := open + {fd}, {fd}, accepted + {fd};
      nextConn := nextConn + 1;
    }

    /** close by the main thread, of a socket it holds. */
    method Close(fd: nat)
      requires Valid() && fd in held
      modifies this`open, this`closed, this`held
      ensures Valid()
      ensures open == old(open) - {fd} && held == old(held) - {fd}
    {
      held := held - {fd};
      CloseSocket(fd);
    }

    /** The main thread reads the flag of a record that has not been freed. */
    method ReadFinished(t: ThreadArgs) returns (finished: bool)
      requires t in live
      modifies this`readings
      ensures finished == t.finished && readings == old(readings) + [(t, t.finished)]
    {
      readings := readings + [(t, t.finished)];
      finished := t.finished;
    }

    /** malloc of a record; null when there is no memory. */
    method InitThread(sockFd: nat) returns (args: ThreadArgs?)
      requires Valid()
      modifies this`live, this`made, this`refusals
      ensures Valid()
      ensures refusals == old(refusals) + if args == null then 1 else 0
      ensures args == null ==> live == old(live) && made == old(made)
      ensures args != null ==>
        && fresh(args) && args.sockFd == sockFd && !args.finished
        && live == old(live) + {args} && made == old(made) + {args}
    {
      var fails: bool := *;
      if fails {
        refusals := refusals + 1;
        return null;
      }
      args := new ThreadArgs(sockFd);
      BalancedBegin(made, live, freed, args);
      live, made := live + {args}, made + {args};
    }

    /** free: a record that is live and that no thread may still touch. */
    method Free(t: ThreadArgs)
      requires Valid() && t in live && t !in threads
      modifies this`live, this`freed
      ensures Valid()
      ensures live == old(live) - {t} && freed == old(freed) + [t]
    {
      BalancedEnd(made, live, freed, t);
      live := live - {t};
      freed := freed + [t];
    }

    /** pthread_create: the thread takes the socket over, or is not started at all. */
    method PthreadCreate(t: ThreadArgs) returns (ok: bool)
      requires Valid() && t in live && t !in started && !t.finished && t.sockFd in held
      modifies this`threads, this`started, this`held, this`owner, this`lastDeadline, this`refusals
      ensures Valid()
      ensures refusals == old(refusals) + if ok then 0 else 1
      ensures owner == if ok then old(owner)[t.sockFd := t] else old(owner)
      ensures ok ==> threads == old(threads) + {t} && started == old(started) + {t} && held == old(held) - {t.sockFd}
      ensures !ok ==> threads == old(threads) && started == old(started) && held == old(held)
    {
      ok := *;
      if ok {
        BalancedBegin(started, threads, joined, t);
        var later: nat :| later > clock && later >= lastDeadline;
        lastDeadline := later;
        threads, started := threads + {t}, started + {t};
        held, owner := held - {t.sockFd}, owner[t.sockFd := t];
      } else {
        refusals := refusals + 1;
      }
    }

    /** pthread_join of a finished thread: each at most once. */
    method PthreadJoin(t: ThreadArgs)
      requires Valid() && t in threads && t.finished
      modifies this`threads, this`joined
      ensures Valid()
      ensures threads == old(threads) - {t} && joined == old(joined) + [t]
    {
      BalancedEnd(started, threads, joined, t);
      threads := threads - {t};
      joined := joined + [t];
    }
  }

  // ----- Reaping

  /** Those of the first `k` nodes that are not in `gone`, in order. */
  ghost function Kept(nodes: seq<ThreadArgs>, k: nat, gone: set<ThreadArgs>): seq<ThreadArgs>
    requires k <= |nodes|
  {
    if k == 0 then []
    else if nodes[k - 1] in gone then Kept(nodes, k - 1, gone)
    else Kept(nodes, k - 1, gone) + [nodes[k - 1]]
  }

  /** Those of the first `k` nodes that are in `these`, in order. */
  ghost function Taken(nodes: seq<ThreadArgs>, k: nat, these: set<ThreadArgs>): seq<ThreadArgs>
    requires k <= |nodes|
  {
    if k == 0 then []
    else if nodes[k - 1] in these then Taken(nodes, k - 1, these) + [nodes[k - 1]]
    else Taken(nodes, k - 1, these)
  }

  /** What was seen of the first `k` flags if those in `these` were up. */
  ghost function Seen(nodes: seq<ThreadArgs>, k: nat, these: set<ThreadArgs>): seq<(ThreadArgs, bool)>
    requires k <= |nodes|
  {
    if k == 0 then [] else Seen(nodes, k - 1, these) + [(nodes[k - 1], nodes[k - 1] in these)]
  }

  ghost function Without(nodes: seq<ThreadArgs>, gone: set<ThreadArgs>): seq<ThreadArgs> {
    Kept(nodes, |nodes|, gone)
  }

  ghost function Only(nodes: seq<ThreadArgs>, these: set<ThreadArgs>): seq<ThreadArgs> {
    Taken(nodes, |nodes|, these)
  }

  /** Reaping a node that is not among those kept changes nothing about the ones already looked at. */
  lemma {:induction false} OthersDoNotMatter(nodes: seq<ThreadArgs>, k: nat, s: set<ThreadArgs>, t: ThreadArgs)
    requires k <= |nodes| && t !in s && t !in Kept(nodes, k, s)
    ensures Kept(nodes, k, s + {t}) == Kept(nodes, k, s) && Taken(nodes, k, s + {t}) == Taken(nodes, k, s)
    ensures Seen(nodes, k, s + {t}) == Seen(nodes, k, s)
  {
    if k > 0 {
      if nodes[k - 1] !in s {
        assert Kept(nodes, k, s)[|Kept(nodes, k - 1, s)|] == nodes[k - 1];
      }
      assert forall u :: u in Kept(nodes, k - 1, s) ==> u in Kept(nodes, k, s);
      OthersDoNotMatter(nodes, k - 1, s, t);
    }
  }

  /** The list after the first `k` nodes have been looked at and those in `s` reaped. */
  ghost function Passed(nodes: seq<ThreadArgs>, k: nat, s: set<ThreadArgs>): seq<ThreadArgs>
    requires k <= |nodes|
  {
    Kept(nodes, k, s) + nodes[k..]
  }

  /** One more node is looked at: it stays where it is or is taken out. */
  lemma OneMoreNode(nodes: seq<ThreadArgs>, k: nat, s: set<ThreadArgs>)
    requires k < |nodes| && nodes[k] !in s && Distinct(Passed(nodes, k, s))
    ensures var i, list, node := |Kept(nodes, k, s)|, Passed(nodes, k, s), nodes[k];
      && i < |list| && list[i] == node
      && NodeAt(list, i + 1) == NodeAt(nodes, k + 1)
      && Passed(nodes, k + 1, s) == list
      && Passed(nodes, k + 1, s + {node}) == list[..i] + list[i + 1..]
      && Taken(nodes, k + 1, s) == Taken(nodes, k, s)
      && Taken(nodes, k + 1, s + {node}) == Taken(nodes, k, s) + [node]
      && Seen(nodes, k + 1, s) == Seen(nodes, k, s) + [(node, false)]
      && Seen(nodes, k + 1, s + {node}) == Seen(nodes, k, s) + [(node, true)]
  {
    assert nodes[k..] == [nodes[k]] + nodes[k + 1..];
    AroundNode(Kept(nodes, k, s), nodes[k], nodes[k + 1..]);
    OthersDoNotMatter(nodes, k, s, nodes[k]);
  }

  /** A node between the part already passed and the rest. */
  lemma AroundNode(kept: seq<ThreadArgs>, node: ThreadArgs, rest: seq<ThreadArgs>)
    ensures var i, list := |kept|, kept + ([node] + rest);
      && list[i] == node && NodeAt(list, i + 1) == NodeAt(rest, 0)
      && kept + [node] + rest == list
      && list[..i] + list[i + 1..] == kept + rest
      && (Distinct(list) ==> node !in kept)
  {
    var i, list := |kept|, kept + ([node] + rest);
    assert forall j :: 0 <= j < i ==> list[j] == kept[j];
  }

  /** The records: those listed, those live, those joined and freed so far, and the flags read. */
  datatype Records = Records(nodes: seq<ThreadArgs>, live: set<ThreadArgs>,
                             joined: seq<ThreadArgs>, freed: seq<ThreadArgs>, readings: seq<(ThreadArgs, bool)>)

  ghost function Now(list: Head, w: World): Records
    reads list, w
  {
    Records(list.nodes, w.live, w.joined, w.freed, w.readings)
  }

  /** Between two steps of the main loop the records are exactly those listed: each listed thread was started
      and not joined, each live record is listed. */
  ghost predicate Consistent(list: Head, w: World)
    reads list, list.nodes, w, w.threads
  {
    match Now(list, w)
    case Records(nodes, live, _, _, _) =>
      && list.Valid() && w.Valid()
      && (forall t :: t in nodes ==> t in w.threads && t in live)
      && (forall t :: t in w.threads ==> t in nodes)
      && (forall t :: t in live ==> t in nodes)
  }

  ghost predicate AllFinished(s: set<ThreadArgs>)
    reads s
  {
    forall t :: t in s ==> t.finished
  }

  /** The record of a joined thread is taken off the list and freed. */
  method UnlinkAndFree(list: Head, w: World, t: ThreadArgs, ghost i: nat)
    requires list.Valid() && w.Valid() && i < |list.nodes| && list.nodes[i] == t
    requires t !in w.threads && t in w.live && forall u :: u in list.nodes ==> u in w.live
    modifies list, w.live`sleNext, w`live, w`freed
    ensures list.Valid() && w.Valid()
    ensures list.nodes == old(list.nodes)[..i] + old(list.nodes)[i + 1..]
    ensures forall u :: u in list.nodes <==> u in old(list.nodes) && u != t
    ensures w.freed == old(w.freed) + [t] && w.live == old(w.live) - {t}
  {
    ghost var before := list.nodes;
    list.NoRepeats();
    list.Remove(t, i);
    w.Free(t);
    MembersAfterRemoval(before, i);
  }

  /** A finished thread is joined, taken off the list and freed. */
  method Reap(list: Head, w: World, t: ThreadArgs, ghost i: nat)
    requires Consistent(list, w) && i < |list.nodes| && list.nodes[i] == t && t.finished
    modifies list, w.live`sleNext, w`threads, w`joined, w`live, w`freed
    ensures Consistent(list, w)
    ensures list.nodes == old(list.nodes)[..i] + old(list.nodes)[i + 1..]
    ensures w.joined == old(w.joined) + [t] && w.freed == old(w.freed) + [t] && w.live == old(w.live) - {t}
  {
    w.PthreadJoin(t);
    UnlinkAndFree(list, w, t, i);
  }

  lemma MembersAfterRemoval(nodes: seq<ThreadArgs>, i: nat)
    requires Distinct(nodes) && i < |nodes|
    ensures forall t :: t in nodes[..i] + nodes[i + 1..] <==> t in nodes && t != nodes[i]
  {
    var after := nodes[..i] + nodes[i + 1..];
    forall t | t in nodes && t != nodes[i]
      ensures t in after
    {
      var j :| 0 <= j < |nodes| && nodes[j] == t;
      assert after[if j < i then j else j - 1] == t;
    }
  }

  /** The others running changes no link and no record. */
  method LetOthersRun(list: Head, w: World, ghost done: set<ThreadArgs>, ghost gone: set<ThreadArgs>)
    requires Consistent(list, w) && AllFinished(done) && AllFinished(gone)
    modifies w.live`finished, w`clock, w`running, w`open, w`closed
    ensures Consistent(list, w) && AllFinished(done) && AllFinished(gone)
    ensures w.clock > old(w.clock) && (w.running ==> old(w.running))
  {
    w.OthersRun();
  }

  /** The flag of the node at place `i` was read; if it was up the thread has been joined, and its record taken out
      and freed. */
  ghost predicate Stepped(before: Records, t: ThreadArgs, i: nat, reap: bool, after: Records) {
    match after
    case Records(nodes, live, joined, freed, readings) =>
      && i < |before.nodes|
      && nodes == (if reap then before.nodes[..i] + before.nodes[i + 1..] else before.nodes)
      && live == (if reap then before.live - {t} else before.live)
      && joined == before.joined + (if reap then [t] else [])
      && freed == before.freed + (if reap then [t] else [])
      && readings == before.readings + [(t, reap)]
  }

  /** The flag is read, and a finished thread is reaped. */
  method ReapIfFinished(list: Head, w: World, next: ThreadArgs, ghost i: nat) returns (reap: bool)
    requires Consistent(list, w) && i < |list.nodes| && list.nodes[i] == next
    modifies list, w.live`sleNext, w`threads, w`joined, w`live, w`freed, w`readings
    ensures Consistent(list, w) && reap == next.finished
    ensures Stepped(old(Now(list, w)), next, i, reap, Now(list, w))
  {
    reap := w.ReadFinished(next);
    if reap {
      Reap(list, w, next, i);
    }
  }

  /** One turn of the loop: the successor is read, then the flag, and a thread is reaped exactly if its flag was
      seen up. */
  method Visit(list: Head, w: World, next: ThreadArgs, ghost i: nat,
               ghost done: set<ThreadArgs>, ghost gone: set<ThreadArgs>)
    returns (nextTemp: ThreadArgs?, reap: bool)
    requires Consistent(list, w) && i < |list.nodes| && list.nodes[i] == next
    requires AllFinished(done) && AllFinished(gone)
    modifies list, w.live, w`clock, w`running, w`open, w`closed, w`threads, w`joined, w`live, w`freed, w`readings
    ensures Consistent(list, w) && w.held == old(w.held)
    ensures nextTemp == old(next.sleNext)
    ensures reap == next.finished
    ensures Stepped(old(Now(list, w)), next, i, reap, Now(list, w))
    ensures AllFinished(done) && AllFinished(gone)
    ensures w.clock > old(w.clock) && (w.running ==> old(w.running))
  {
    assert next in w.live;
    nextTemp := next.sleNext;
    LetOthersRun(list, w, done, gone);
    reap := ReapIfFinished(list, w, next, i);
  }

  /** A visit adds the node to those reaped or leaves it out; one that was finished before is reaped. */
  method VisitOne(list: Head, w: World, next: ThreadArgs, ghost i: nat,
                  ghost done: set<ThreadArgs>, ghost gone: set<ThreadArgs>)
    returns (nextTemp: ThreadArgs?, ghost reap: bool, ghost more: set<ThreadArgs>)
    requires Consistent(list, w) && i < |list.nodes| && list.nodes[i] == next
    requires AllFinished(done) && AllFinished(gone)
    modifies list, w.live, w`clock, w`running, w`open, w`closed, w`threads, w`joined, w`live, w`freed, w`readings
    ensures Consistent(list, w) && w.held == old(w.held)
    ensures nextTemp == old(next.sleNext)
    ensures Stepped(old(Now(list, w)), next, i, reap, Now(list, w))
    ensures more == if reap then gone + {next} else gone
    ensures AllFinished(done) && AllFinished(more) && (next in done ==> next in more)
    ensures w.clock > old(w.clock) && (w.running ==> old(w.running))
  {
    nextTemp, reap := Visit(list, w, next, i, done, gone);
    more := if reap then gone + {next} else gone;
  }

  /** The records when a pass that found `b` comes to node `k` with `reaped` taken out. */
  ghost predicate PassedTo(b: Records, k: nat, reaped: set<ThreadArgs>, now: Records) {
    match now
    case Records(nodes, live, joined, freed, readings) =>
      && k <= |b.nodes| && reaped <= b.live
      && nodes == Passed(b.nodes, k, reaped)
      && live == b.live - reaped
      && joined == b.joined + Taken(b.nodes, k, reaped)
      && freed == b.freed + Taken(b.nodes, k, reaped)
      && readings == b.readings + Seen(b.nodes, k, reaped)
  }

  /** Of the first `k` nodes all those that are in `done` were taken out. */
  ghost predicate SoundTo(nodes: seq<ThreadArgs>, done: set<ThreadArgs>, k: nat, reaped: set<ThreadArgs>)
    requires k <= |nodes|
  {
    k == 0 || (SoundTo(nodes, done, k - 1, reaped) && (nodes[k - 1] in done ==> nodes[k - 1] in reaped))
  }

  lemma {:induction false} SoundWithMore(nodes: seq<ThreadArgs>, done: set<ThreadArgs>, k: nat,
                                         reaped: set<ThreadArgs>, more: set<ThreadArgs>)
    requires k <= |nodes| && SoundTo(nodes, done, k, reaped) && reaped <= more
    ensures SoundTo(nodes, done, k, more)
  {
    if k > 0 {
      SoundWithMore(nodes, done, k - 1, reaped, more);
    }
  }

  lemma {:induction false} SoundAt(nodes: seq<ThreadArgs>, done: set<ThreadArgs>, k: nat,
                                   reaped: set<ThreadArgs>, i: nat)
    requires i < k <= |nodes| && SoundTo(nodes, done, k, reaped) && nodes[i] in done
    ensures nodes[i] in reaped
    decreases k
  {
    if i < k - 1 {
      SoundAt(nodes, done, k - 1, reaped, i);
    }
  }

  lemma PassStarts(b: Records)
    ensures PassedTo(b, 0, {}, b)
  {
    assert Passed(b.nodes, 0, {}) == b.nodes;
    assert b.live - {} == b.live;
  }

  /** Where in the list the node is that the pass comes to. */
  ghost function Place(b: Records, k: nat, reaped: set<ThreadArgs>): nat
    requires k <= |b.nodes|
  {
    |Kept(b.nodes, k, reaped)|
  }

  /** Node `k` was left alone or taken out: the pass has come to node `j`. */
  lemma PassGoesOn(b: Records, k: nat, reaped: set<ThreadArgs>, now: Records, j: nat,
                   i: nat, reap: bool, after: Records, more: set<ThreadArgs>)
    requires k < |b.nodes| && j == k + 1 && PassedTo(b, k, reaped, now) && i == Place(b, k, reaped)
    requires b.nodes[k] in now.live && Distinct(now.nodes)
    requires Stepped(now, b.nodes[k], i, reap, after)
    requires more == if reap then reaped + {b.nodes[k]} else reaped
    ensures PassedTo(b, j, more, after)
  {
    var t := b.nodes[k];
    OneMoreNode(b.nodes, k, reaped);
    Associative(b.joined, Taken(b.nodes, k, reaped), [t]);
    Associative(b.freed, Taken(b.nodes, k, reaped), [t]);
    Associative(b.readings, Seen(b.nodes, k, reaped), [(t, reap)]);
  }

  /** The node a pass comes to is where the list says, its record is live, and what follows it is the next node. */
  lemma PassComesTo(list: Head, w: World, b: Records, k: nat, reaped: set<ThreadArgs>, j: nat)
    requires Consistent(list, w) && k < |b.nodes| && j == k + 1
    requires PassedTo(b, k, reaped, Now(list, w))
    ensures var i := Place(b, k, reaped);
      && i < |list.nodes| && list.nodes[i] == b.nodes[k]
      && b.nodes[k] in w.live && Distinct(list.nodes)
      && b.nodes[k].sleNext == NodeAt(b.nodes, j)
  {
    var i := Place(b, k, reaped);
    assert list.nodes[i] == b.nodes[k];
    list.NextOf(i);
    list.NoRepeats();
  }

  /** At the end of the list the pass is complete. */
  lemma PassedAll(nodes: seq<ThreadArgs>, done: set<ThreadArgs>, reaped: set<ThreadArgs>)
    requires SoundTo(nodes, done, |nodes|, reaped)
    ensures Passed(nodes, |nodes|, reaped) == Without(nodes, reaped)
    ensures forall t :: t in nodes && t in done ==> t in reaped
  {
    forall t | t in nodes && t in done
      ensures t in reaped
    {
      var i :| 0 <= i < |nodes| && nodes[i] == t;
      SoundAt(nodes, done, |nodes|, reaped, i);
    }
  }

  /** One turn of the loop of a pass. */
  method Turn(list: Head, w: World, next: ThreadArgs, ghost b: Records, ghost done: set<ThreadArgs>,
              ghost k: nat, ghost j: nat, ghost reaped: set<ThreadArgs>)
    returns (nextTemp: ThreadArgs?, ghost more: set<ThreadArgs>)
    requires Consistent(list, w) && k < |b.nodes| && next == b.nodes[k] && j == k + 1
    requires PassedTo(b, k, reaped, Now(list, w))
    requires AllFinished(done) && AllFinished(reaped)
    modifies list, w.live, w`clock, w`running, w`open, w`closed, w`threads, w`joined, w`live, w`freed, w`readings
    ensures Consistent(list, w)
    ensures PassedTo(b, j, more, Now(list, w))
    ensures nextTemp == NodeAt(b.nodes, j)
    ensures reaped <= more && (next in done ==> next in more)
    ensures AllFinished(done) && AllFinished(more)
    ensures w.clock > old(w.clock) && (w.running ==> old(w.running)) && w.held == old(w.held)
  {
    ghost var before, i := Now(list, w), Place(b, k, reaped);
    PassComesTo(list, w, b, k, reaped, j);
    ghost var reap;
    nextTemp, reap, more := VisitOne(list, w, next, i, done, reaped);
    PassGoesOn(b, k, reaped, before, j, i, reap, Now(list, w), more);
  }

  /** A pass that found `b`, with the threads in `done` finished, has come to node `k`. */
  ghost predicate InPass(list: Head, w: World, b: Records, done: set<ThreadArgs>, k: nat, reaped: set<ThreadArgs>)
    reads list, list.nodes, w, w.threads, done, reaped
  {
    match b
    case Records(nodes, _, _, _, _) =>
      && Consistent(list, w)
      && PassedTo(b, k, reaped, Now(list, w))
      && k <= |nodes| && SoundTo(nodes, done, k, reaped)
      && AllFinished(done) && AllFinished(reaped)
  }

  /** One turn brings the pass to the next node. */
  method NextTurn(list: Head, w: World, next: ThreadArgs, ghost b: Records, ghost done: set<ThreadArgs>,
                  ghost k: nat, ghost j: nat, ghost reaped: set<ThreadArgs>)
    returns (nextTemp: ThreadArgs?, ghost more: set<ThreadArgs>)
    requires InPass(list, w, b, done, k, reaped) && k < |b.nodes| && next == b.nodes[k] && j == k + 1
    modifies list, w.live, w`clock, w`running, w`open, w`closed, w`threads, w`joined, w`live, w`freed, w`readings
    ensures InPass(list, w, b, done, j, more)
    ensures nextTemp == NodeAt(b.nodes, j) && w.live <= old(w.live)
    ensures w.clock > old(w.clock) && (w.running ==> old(w.running)) && w.held == old(w.held)
  {
    nextTemp, more := Turn(list, w, next, b, done, k, j, reaped);
    SoundWithMore(b.nodes, done, k, reaped, more);
  }

  /** One pass over the list while flags may be raised at any moment: exactly the threads seen finished are
      joined, taken off and freed, once each and in list order; the others stay in order; a thread already
      finished when the pass starts is among the reaped. */
  method RemoveJoinableThreads(list: Head, w: World) returns (ghost reaped: set<ThreadArgs>)
    requires Consistent(list, w)
    modifies list, w.live, w`clock, w`running, w`open, w`closed, w`threads, w`joined, w`live, w`freed, w`readings
    ensures Consistent(list, w) && w.held == old(w.held)
    ensures list.nodes == Without(old(list.nodes), reaped)
    ensures w.joined == old(w.joined) + Only(old(list.nodes), reaped)
    ensures w.freed == old(w.freed) + Only(old(list.nodes), reaped)
    ensures w.readings == old(w.readings) + Seen(old(list.nodes), |old(list.nodes)|, reaped)
    ensures reaped <= old(w.live) && w.live == old(w.live) - reaped
    ensures AllFinished(reaped)
    ensures forall t :: t in old(w.live) && old(t.finished) ==> t in reaped
    ensures w.clock >= old(w.clock) && (old(list.nodes) != [] ==> w.clock > old(w.clock))
    ensures w.running ==> old(w.running)
  {
    ghost var b := Now(list, w);
    ghost var done := set t | t in w.live && t.finished;
    PassStarts(b);
    reaped := Pass(list, w, b, done);
    PassedAll(b.nodes, done, reaped);
  }

  /** The loop of a pass. */
  method Pass(list: Head, w: World, ghost b: Records, ghost done: set<ThreadArgs>)
    returns (ghost reaped: set<ThreadArgs>)
    requires InPass(list, w, b, done, 0, {}) && list.slhFirst == NodeAt(b.nodes, 0)
    modifies list, w.live, w`clock, w`running, w`open, w`closed, w`threads, w`joined, w`live, w`freed, w`readings
    ensures InPass(list, w, b, done, |b.nodes|, reaped)
    ensures w.clock >= old(w.clock) && (b.nodes != [] ==> w.clock > old(w.clock))
    ensures (w.running ==> old(w.running)) && w.held == old(w.held)
  {
    ghost var k := 0;
    reaped := {};
    var next := list.slhFirst;
    while next != null
      invariant 0 <= k <= |b.nodes| && next == NodeAt(b.nodes, k)
      invariant InPass(list, w, b, done, k, reaped) && w.live <= old(w.live)
      invariant w.clock >= old(w.clock) && (k > 0 ==> w.clock > old(w.clock))
      invariant (w.running ==> old(w.running)) && w.held == old(w.held)
      decreases |b.nodes| - k
    {
      ghost var j := k + 1;
      next, reaped := NextTurn(list, w, next, b, done, k, j, reaped);
      k := j;
    }
  }

  // ----- Draining and the accept loop

  /** A pass, seen from the outside: records only go, time goes on, and once every thread must have finished all
      are gone. */
  method Sweep(list: Head, w: World, ghost done: set<ThreadArgs>)
    requires Consistent(list, w) && AllFinished(done) && done <= w.live
    modifies list, w.live, w`clock, w`running, w`open, w`closed, w`threads, w`joined, w`live, w`freed, w`readings
    ensures Consistent(list, w) && w.held == old(w.held) && w.live <= old(w.live)
    ensures w.clock >= old(w.clock) && (old(list.nodes) != [] ==> w.clock > old(w.clock))
    ensures w.running ==> old(w.running)
    ensures done !! w.live
    ensures old(w.clock) >= w.lastDeadline ==> w.live == {}
  {
    assert w.clock >= w.lastDeadline ==> forall t :: t in w.live ==> t in w.threads && t.finished;
    ghost var reaped := RemoveJoinableThreads(list, w);
    assert done <= reaped;
  }

  /** Passes until the list is empty.  It ends because every thread finishes: no record and no socket of a
      thread is left. */
  method RemoveAllRemainingThreads(list: Head, w: World)
    requires Consistent(list, w)
    modifies list, w.live, w`clock, w`running, w`open, w`closed, w`threads, w`joined, w`live, w`freed, w`readings
    ensures Consistent(list, w) && w.held == old(w.held)
    ensures list.nodes == [] && w.live == {} && w.open <= w.held
    ensures w.running ==> old(w.running)
  {
    while list.slhFirst != null
      invariant Consistent(list, w) && w.held == old(w.held) && w.live <= old(w.live)
      invariant w.running ==> old(w.running)
      decreases if w.lastDeadline > w.clock then w.lastDeadline - w.clock else 0, |w.live|
    {
      assert list.nodes[0] in w.live;
      Sweep(list, w, {});
    }
  }

  /** Everything is as before the first connection. */
  ghost predicate Idle(w: World)
    reads w, w.threads
  {
    && w.Valid() && !w.running && w.clock < w.shutdownAt
    && w.accepted == {} && w.started == {} && w.made == {}
  }

  /** A record and a thread for a new connection; on failure the main thread keeps the socket and no record. */
  method StartThread(w: World, client: nat) returns (args: ThreadArgs?)
    requires w.Valid() && w.HandedOver() && w.held == {client} && w.threads <= w.live
    modifies w`made, w`live, w`freed, w`started, w`threads, w`held, w`owner, w`lastDeadline, w`refusals
    ensures w.Valid() && w.HandedOver()
    ensures args == null ==>
      && w.held == {client} && w.live == old(w.live) && w.threads == old(w.threads)
      && w.started == old(w.started) && w.owner == old(w.owner) && w.refusals == old(w.refusals) + 1
    ensures args != null ==>
      && fresh(args) && w.held == {} && w.live == old(w.live) + {args} && w.threads == old(w.threads) + {args}
      && w.made == old(w.made) + {args} && w.started == old(w.started) + {args}
      && args.sockFd == client && w.owner == old(w.owner)[client := args] && w.refusals == old(w.refusals)
  {
    args := w.InitThread(client);
    if args == null {
      return;
    }
    var started := w.PthreadCreate(args);
    if !started {
      w.Free(args);
      args := null;
    } else {
      OneMoreServed(w.accepted, old(w.owner), old(w.started), client, args);
    }
  }

  /** A started thread goes to the front of the list; none is started only if a record or a thread was refused. */
  method AddThread(list: Head, w: World, client: nat) returns (started: bool)
    requires Consistent(list, w) && w.HandedOver() && w.made == w.started && w.held == {client}
    modifies list, w`made, w`live, w`freed, w`started, w`threads, w`held, w`owner, w`lastDeadline, w`refusals
    ensures w.HandedOver()
    ensures Consistent(list, w) && w.held == if started then {} else {client}
    ensures w.refusals == old(w.refusals) + if started then 0 else 1
    ensures started ==> ServedBy(client, w.owner, w.started) && list.nodes == [w.owner[client]] + old(list.nodes)
    ensures old(w.live) <= w.live && fresh(w.live - old(w.live))
    ensures started ==> w.made == w.started
  {
    var args := StartThread(w, client);
    started := args != null;
    if started {
      list.InsertHead(args);
    }
  }

  /** accept leaves the list alone. */
  method AcceptConnection(list: Head, w: World, ghost done: set<ThreadArgs>) returns (client: int)
    requires Consistent(list, w) && w.HandedOver() && w.held == {} && AllFinished(done) && done <= w.live
    modifies w.live`finished, w`clock, w`running, w`open, w`closed, w`held, w`accepted, w`nextConn, w`attempts
    ensures w.HandedOver()
    ensures Consistent(list, w) && w.held == (if client < 0 then {} else {client}) && client >= -1
    ensures w.attempts == old(w.attempts) + [client]
    ensures w.accepted == old(w.accepted) + w.held
    ensures AllFinished(done)
    ensures w.clock > old(w.clock) && (w.running ==> old(w.running))
  {
    client := w.Accept();
  }

  /** A connection gets its thread and the list is swept; the main thread is left with the socket only if a record
      or a thread was refused. */
  method ServeConnection(list: Head, w: World, client: nat, ghost done: set<ThreadArgs>) returns (served: bool)
    requires Consistent(list, w) && w.HandedOver() && w.made == w.started && w.held == {client}
    requires AllFinished(done) && done <= w.live
    modifies list, w.live, w`clock, w`running, w`open, w`closed, w`threads, w`joined, w`live, w`freed, w`readings
    modifies w`made, w`started, w`held, w`owner, w`lastDeadline, w`refusals
    ensures Consistent(list, w) && w.HandedOver() && w.held == if served then {} else {client}
    ensures w.refusals == old(w.refusals) + if served then 0 else 1
    ensures served ==> ServedBy(client, w.owner, w.started) && done !! w.live && w.made == w.started
    ensures w.clock >= old(w.clock) && (w.running ==> old(w.running))
    ensures fresh(w.live - old(w.live))
  {
    served := AddThread(list, w, client);
    if served {
      Sweep(list, w, done);
    }
  }

  /** One turn of the accept loop: accept is asked once; a connection is given to a thread, and the threads `done`
      that had finished are gone.  `client` is the socket the main thread is left with if a record could not be
      allocated or a thread not started. */
  method AcceptOne(list: Head, w: World, ghost done: set<ThreadArgs>) returns (client: int, ghost fd: int)
    requires Consistent(list, w) && w.HandedOver() && w.made == w.started && w.held == {}
    requires AllFinished(done) && done <= w.live
    modifies list, w.live, w`clock, w`running, w`open, w`closed, w`threads, w`joined, w`live, w`freed, w`readings
    modifies w`made, w`started, w`held, w`owner, w`lastDeadline, w`refusals, w`accepted, w`nextConn, w`attempts
    ensures Consistent(list, w) && w.HandedOver()
    ensures w.held == (if client < 0 then {} else {client}) && client >= -1
    ensures w.attempts == old(w.attempts) + [fd]
    ensures fd < 0 ==> client < 0 && w.accepted == old(w.accepted) && w.owner == old(w.owner)
    ensures fd >= 0 ==> w.accepted == old(w.accepted) + {fd}
    ensures fd >= 0 && client < 0 ==> ServedBy(fd, w.owner, w.started) && done !! w.live
    ensures client >= 0 ==> client == fd
    ensures w.refusals == old(w.refusals) + if client < 0 then 0 else 1
    ensures w.clock > old(w.clock) && (w.running ==> old(w.running))
    ensures fresh(w.live - old(w.live))
    ensures client < 0 ==> w.made == w.started
  {
    client := AcceptConnection(list, w, done);
    fd := client;
    if client >= 0 {
      var served := ServeConnection(list, w, client, done);
      if served {
        client := -1;
      }
    }
  }

  /** The accept loop: until the server is told to stop, or a connection cannot be served. */
  method AcceptLoop(list: Head, w: World) returns (client: int)
    requires Consistent(list, w) && w.held == {} && w.started == w.made && w.HandedOver()
    modifies list, w.live, w`clock, w`running, w`open, w`closed, w`threads, w`joined, w`live, w`freed, w`readings
    modifies w`made, w`started, w`held, w`owner, w`lastDeadline, w`refusals, w`accepted, w`nextConn, w`attempts
    ensures Consistent(list, w) && w.held == (if client < 0 then {} else {client}) && client >= -1
    ensures client < 0 ==> w.started == w.made && !w.running
    ensures w.refusals == old(w.refusals) + if client < 0 then 0 else 1
    ensures w.HandedOver()
    ensures fresh(w.live - old(w.live))
  {
    client := -1;
    while w.running
      invariant Consistent(list, w) && w.held == {} && client == -1
      invariant w.started == w.made && w.refusals == old(w.refusals) && w.HandedOver()
      invariant fresh(w.live - old(w.live))
      decreases w.shutdownAt - w.clock
    {
      ghost var done := set t | t in w.live && t.finished;
      ghost var fd;
      client, fd := AcceptOne(list, w, done);
      if client >= 0 {
        return;
      }
    }
  }

  lemma AllOver(w: World)
    requires w.Accounted() && w.open == {} && w.threads == {} && w.live == {}
    ensures ExactlyOnce(w.accepted, w.closed)
    ensures ExactlyOnce(w.started, w.joined)
    ensures ExactlyOnce(w.made, w.freed)
  {
  }

  /** The empty list and the flag that keeps the accept loop going. */
  method StartRunning(list: Head, w: World)
    requires Idle(w) && list.Valid() && list.nodes == []
    modifies w`running
    ensures Consistent(list, w) && w.HandedOver() && w.held == {} && w.live == {} && w.started == w.made
  {
    w.running := true;
  }

  /** The server: whatever connections come, fail or finish in whatever order, when it exits every accepted
      socket has been closed exactly once, every started thread joined exactly once and every record freed
      exactly once.  Every accepted client was given to a thread started for it, except one that is turned away if
      its record or thread is refused; the server succeeds exactly if none was. */
  method RunServer(w: World) returns (success: bool, ghost turnedAway: set<nat>)
    requires Idle(w)
    modifies w
    ensures w.Valid() && w.open == {} && w.threads == {} && w.live == {}
    ensures ExactlyOnce(w.accepted, w.closed)
    ensures ExactlyOnce(w.started, w.joined)
    ensures ExactlyOnce(w.made, w.freed)
    ensures AllServed(w.accepted - turnedAway, w.owner, w.started)
    ensures success <==> turnedAway == {}
    ensures success <==> w.refusals == old(w.refusals)
    ensures success ==> !w.running && w.started == w.made
  {
    var list := new Head();
    StartRunning(list, w);
    var client := AcceptLoop(list, w);
    success, turnedAway := client < 0, w.held;
    Shutdown(list, w, client);
  }

  /** The cleanup labels: the socket the main thread is left with, if any, is closed, and the threads are drained. */
  method Shutdown(list: Head, w: World, client: int)
    requires Consistent(list, w) && w.held == (if client < 0 then {} else {client}) && client >= -1
    modifies list, w.live, w`clock, w`running, w`open, w`closed, w`threads, w`joined, w`live, w`freed, w`readings
    modifies w`held
    ensures w.Valid() && w.open == {} && w.threads == {} && w.live == {}
    ensures ExactlyOnce(w.accepted, w.closed)
    ensures ExactlyOnce(w.started, w.joined)
    ensures ExactlyOnce(w.made, w.freed)
    ensures w.started <= w.made && (w.running ==> old(w.running))
  {
    if client != -1 {
      w.Close(client);
    }
    RemoveAllRemainingThreads(list, w);
    AllOver(w);
  }
}
