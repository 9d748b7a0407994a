/** The Pub/Sub engine used by many threads: two readers-writer locks, and operations that take them in
    steps. A publish copies the ids under the channels lock, lets it go, and delivers under the
    subscribers lock; anything may run in the gap. */
module PubSubThreads {
  import opened Basics
  import opened PubSubs

  /** Where a thread is in its operation. */
  datatype Pc =
    | Idle
    | SubscribeC(channel: string, id: string)       // waits to write channels
    | SubscribeS(channel: string, id: string)       // writes channels, waits to write subscribers
    | SubscribeList(channel: string, id: string)    // holds both, about to list the id
    | SubscribeEnsure(channel: string, id: string)  // holds both, about to make the queue
    | SubscribeEnd                                  // holds both, about to let go
    | UnsubscribeC(channel: string, id: string)     // waits to write channels
    | UnsubscribeDrop(channel: string, id: string)  // writes channels, about to drop the id
    | UnsubscribeTidy(channel: string)              // writes channels, about to remove an empty list
    | PublishC(message: Message)                    // waits to read channels
    | PublishCopy(message: Message)                 // reads channels, about to copy the ids
    | PublishS(ids: seq<string>, message: Message)  // holds nothing, waits to write subscribers
    | PublishPush(ids: seq<string>, message: Message, next: nat, pushes: nat)  // writes subscribers
    | PollS(id: string, limit: nat)                 // waits to write subscribers
    | PollTake(id: string, limit: nat)              // writes subscribers, about to take messages
    | CleanupC                                      // waits to write channels
    | CleanupS                                      // writes channels, waits to read subscribers
    | CleanupDrop                                   // holds both, about to drop idle ids
    | CleanupTidy                                   // holds both, about to remove empty lists
    | ListC                                         // waits to read channels
    | Listing                                       // reads channels
    | CountS                                        // waits to read subscribers
    | Counting                                      // reads subscribers

  datatype State = State(channels: Channels, queues: Queues, threads: seq<Pc>, history: map<string, History>)

  // ----- Locks -----

  predicate WritesChannels(pc: Pc) {
    pc.SubscribeS? || pc.SubscribeList? || pc.SubscribeEnsure? || pc.SubscribeEnd? || pc.UnsubscribeDrop? ||
    pc.UnsubscribeTidy? || pc.CleanupS? || pc.CleanupDrop? || pc.CleanupTidy?
  }

  predicate ReadsChannels(pc: Pc) { pc.PublishCopy? || pc.Listing? }

  predicate WritesSubscribers(pc: Pc) {
    pc.SubscribeList? || pc.SubscribeEnsure? || pc.SubscribeEnd? || pc.PublishPush? || pc.PollTake?
  }

  predicate ReadsSubscribers(pc: Pc) { pc.CleanupDrop? || pc.CleanupTidy? || pc.Counting? }

  predicate WaitsToWriteChannels(pc: Pc) { pc.SubscribeC? || pc.UnsubscribeC? || pc.CleanupC? }

  predicate WaitsToReadChannels(pc: Pc) { pc.PublishC? || pc.ListC? }

  predicate WaitsToWriteSubscribers(pc: Pc) { pc.SubscribeS? || pc.PublishS? || pc.PollS? }

  predicate WaitsToReadSubscribers(pc: Pc) { pc.CleanupS? || pc.CountS? }

  ghost predicate OtherHoldsChannels(s: State, t: nat) {
    exists u :: 0 <= u < |s.threads| && u != t && (WritesChannels(s.threads[u]) || ReadsChannels(s.threads[u]))
  }

  ghost predicate OtherWritesChannels(s: State, t: nat) {
    exists u :: 0 <= u < |s.threads| && u != t && WritesChannels(s.threads[u])
  }

  ghost predicate OtherHoldsSubscribers(s: State, t: nat) {
    exists u :: 0 <= u < |s.threads| && u != t && (WritesSubscribers(s.threads[u]) || ReadsSubscribers(s.threads[u]))
  }

  ghost predicate OtherWritesSubscribers(s: State, t: nat) {
    exists u :: 0 <= u < |s.threads| && u != t && WritesSubscribers(s.threads[u])
  }

  /** The lock that thread `t` waits for, if any, can be given to it. */
  ghost predicate Enabled(s: State, t: nat)
    requires t < |s.threads|
  {
    var pc := s.threads[t];
    (WaitsToWriteChannels(pc) ==> !OtherHoldsChannels(s, t)) &&
    (WaitsToReadChannels(pc) ==> !OtherWritesChannels(s, t)) &&
    (WaitsToWriteSubscribers(pc) ==> !OtherHoldsSubscribers(s, t)) &&
    (WaitsToReadSubscribers(pc) ==> !OtherWritesSubscribers(s, t))
  }

  // ----- Steps -----

  /** Where a thread is after its next step. */
  function NextPc(pc: Pc, channels: Channels, queues: Queues): Pc {
    match pc
    case Idle => Idle
    case SubscribeC(c, id) => SubscribeS(c, id)
    case SubscribeS(c, id) => SubscribeList(c, id)
    case SubscribeList(c, id) => SubscribeEnsure(c, id)
    case SubscribeEnsure(_, _) => SubscribeEnd
    case SubscribeEnd => Idle
    case UnsubscribeC(c, id) => UnsubscribeDrop(c, id)
    case UnsubscribeDrop(c, _) => UnsubscribeTidy(c)
    case UnsubscribeTidy(_) => Idle
    case PublishC(m) => PublishCopy(m)
    case PublishCopy(m) => PublishS(Subscribers(channels, m.channel), m)
    case PublishS(ids, m) => PublishPush(ids, m, 0, 0)
    case PublishPush(ids, m, next, pushes) =>
      if next >= |ids| then Idle
      else PublishPush(ids, m, next + 1, pushes + if ids[next] in queues then 1 else 0)
    case PollS(id, limit) => PollTake(id, limit)
    case PollTake(_, _) => Idle
    case CleanupC => CleanupS
    case CleanupS => CleanupDrop
    case CleanupDrop => CleanupTidy
    case CleanupTidy => Idle
    case ListC => Listing
    case Listing => Idle
    case CountS => Counting
    case Counting => Idle
  }

  /** What the next step of a thread does to the channel lists. */
  function NextChannels(pc: Pc, channels: Channels, queues: Queues): Channels {
    match pc
    case SubscribeList(c, id) => PubSubs.Listed(channels, c, id)
    case UnsubscribeDrop(c, id) => Unlisted(channels, c, id)
    case UnsubscribeTidy(c) => WithoutEmpty(channels, c)
    case CleanupDrop => AllWithPending(channels, queues)
    case CleanupTidy => NonEmptyOnly(channels)
    case _ => channels
  }

  /** What the next step of a thread does to the queues. */
  function NextQueues(pc: Pc, queues: Queues): Queues {
    match pc
    case SubscribeEnsure(_, id) => WithQueue(queues, id)
    case PublishPush(ids, m, next, _) => if next < |ids| then PushTo(queues, ids[next], m) else queues
    case PollTake(id, limit) => if id in queues then queues[id := Left(queues[id], limit)] else queues
    case _ => queues
  }

  /** What it adds to the histories of the subscribers. */
  function NextHistory(pc: Pc, queues: Queues, history: map<string, History>): map<string, History> {
    match pc
    case SubscribeEnsure(_, id) => if id in queues then history else history[id := NoHistory()]
    case PublishPush(ids, m, next, _) =>
      if next < |ids| && ids[next] in queues && ids[next] in history
      then history[ids[next] := Delivery(history[ids[next]], queues[ids[next]], m)] else history
    case PollTake(id, limit) =>
      if id in queues && id in history then history[id := Polling(history[id], queues[id], limit)] else history
    case _ => history
  }

  /** The next step of thread `t`, when it has, or is given, the locks it needs. */
  function Moved(s: State, t: nat): State
    requires t < |s.threads|
  {
    var pc := s.threads[t];
    State(NextChannels(pc, s.channels, s.queues), NextQueues(pc, s.queues),
          s.threads[t := NextPc(pc, s.channels, s.queues)], NextHistory(pc, s.queues, s.history))
  }

  /** The first point of an operation; an operation on an empty channel name returns at once. */
  predicate Begins(pc: Pc) {
    WaitsToWriteChannels(pc) || WaitsToReadChannels(pc) || pc.PollS? || pc.CountS?
  }

  datatype Event = Begin(thread: nat, pc: Pc) | Run(thread: nat)

  /** One event; an event that is not possible changes nothing. */
  ghost function Next(s: State, e: Event): State {
    if e.thread >= |s.threads| then s
    else match e
         case Begin(t, pc) => if s.threads[t] == Idle && Begins(pc) then s.(threads := s.threads[t := pc]) else s
         case Run(t) => if Enabled(s, t) then Moved(s, t) else s
  }

  ghost function RunAll(s: State, events: seq<Event>): State {
    if events == [] then s else Next(RunAll(s, events[..|events| - 1]), events[|events| - 1])
  }

  function Start(n: nat): State { State(map[], map[], seq(n, i => Idle), map[]) }

  // ----- The invariant -----

  ghost predicate Exclusive(s: State) {
    forall t, u :: 0 <= t < |s.threads| && 0 <= u < |s.threads| && t != u ==>
      (WritesChannels(s.threads[t]) ==> !WritesChannels(s.threads[u]) && !ReadsChannels(s.threads[u])) &&
      (WritesSubscribers(s.threads[t]) ==> !WritesSubscribers(s.threads[u]) && !ReadsSubscribers(s.threads[u]))
  }

  /** A thread is between listing `id` and making its queue. */
  ghost predicate BeingSubscribed(s: State, id: string) {
    exists t :: 0 <= t < |s.threads| && s.threads[t].SubscribeEnsure? && s.threads[t].id == id
  }

  ghost predicate ListedHaveQueues(s: State) {
    forall c, id :: c in s.channels && id in s.channels[c] ==> id in s.queues || BeingSubscribed(s, id)
  }

  /** A thread is between emptying a list and removing it. */
  ghost predicate BeingTidied(s: State, c: string) {
    exists t :: 0 <= t < |s.threads| &&
      (s.threads[t].CleanupTidy? || (s.threads[t].UnsubscribeTidy? && s.threads[t].channel == c))
  }

  ghost predicate ListsNotEmpty(s: State) {
    forall c :: c in s.channels && s.channels[c] == [] ==> BeingTidied(s, c)
  }

  ghost predicate CopiesHaveQueues(s: State) {
    forall t :: 0 <= t < |s.threads| ==> CopyHasQueues(s.threads[t], s.queues)
  }

  ghost predicate CopyHasQueues(pc: Pc, queues: Queues) {
    match pc
    case PublishS(ids, _) => forall id :: id in ids ==> id in queues
    case PublishPush(ids, _, next, pushes) => next <= |ids| && pushes == next && forall id :: id in ids ==> id in queues
    case _ => true
  }

  ghost predicate Accounted(s: State) {
    s.history.Keys == s.queues.Keys && forall id :: id in s.queues ==> Accounts(s.history[id], s.queues[id])
  }

  ghost predicate Inv(s: State) {
    Exclusive(s) && ListedHaveQueues(s) && ListsNotEmpty(s) && CopiesHaveQueues(s) && Accounted(s)
  }

  // ----- Each part is kept -----

  /** After a step a thread holds no lock that it did not hold or wait for before. */
  lemma LocksAreWaitedFor(pc: Pc, channels: Channels, queues: Queues)
    ensures var next := NextPc(pc, channels, queues);
            && (WritesChannels(next) ==> WritesChannels(pc) || WaitsToWriteChannels(pc))
            && (ReadsChannels(next) ==> ReadsChannels(pc) || WaitsToReadChannels(pc))
            && (WritesSubscribers(next) ==> WritesSubscribers(pc) || WaitsToWriteSubscribers(pc))
            && (ReadsSubscribers(next) ==> ReadsSubscribers(pc) || WaitsToReadSubscribers(pc))
  {
  }

  lemma StepKeepsExclusive(s: State, t: nat)
    requires Exclusive(s) && t < |s.threads| && Enabled(s, t)
    ensures Exclusive(Moved(s, t))
  {
    hide NextPc, NextChannels, NextQueues, NextHistory;
    hide WritesChannels, ReadsChannels, WritesSubscribers, ReadsSubscribers;
    LocksAreWaitedFor(s.threads[t], s.channels, s.queues);
    var next := Moved(s, t).threads[t];
    forall u | 0 <= u < |s.threads| && u != t
      ensures (WritesChannels(next) ==> !WritesChannels(s.threads[u]) && !ReadsChannels(s.threads[u]))
           && (WritesChannels(s.threads[u]) ==> !WritesChannels(next) && !ReadsChannels(next))
           && (WritesSubscribers(next) ==> !WritesSubscribers(s.threads[u]) && !ReadsSubscribers(s.threads[u]))
           && (WritesSubscribers(s.threads[u]) ==> !WritesSubscribers(next) && !ReadsSubscribers(next))
    {
    }
  }

  /** Only a thread that writes channels changes the lists. */
  lemma ChannelsChangeUnderLock(s: State, t: nat)
    requires t < |s.threads|
    ensures Moved(s, t).channels != s.channels ==> WritesChannels(s.threads[t])
    ensures s.queues.Keys <= Moved(s, t).queues.Keys
  {
  }

  lemma {:induction false} WithPendingElements(ids: seq<string>, queues: Queues)
    ensures forall id :: id in WithPending(ids, queues) ==> id in ids && id in queues
  {
    if ids != [] {
      WithPendingElements(ids[1..], queues);
      assert ids == [ids[0]] + ids[1..];
    }
  }

  /** The ids listed after a step, other than the one being listed, were listed before. */
  lemma ListedBefore(s: State, t: nat, c: string, id: string)
    requires t < |s.threads|
    requires c in Moved(s, t).channels && id in Moved(s, t).channels[c]
    ensures (c in s.channels && id in s.channels[c]) || (s.threads[t].SubscribeList? && s.threads[t].id == id)
  {
    match s.threads[t]
    case UnsubscribeDrop(channel, who) => if channel in s.channels { WithoutElements(s.channels[channel], who); }
    case CleanupDrop => WithPendingElements(s.channels[c], s.queues);
    case _ =>
  }

  lemma StillBeingSubscribed(s: State, t: nat, id: string)
    requires Exclusive(s) && t < |s.threads| && BeingSubscribed(s, id)
    ensures BeingSubscribed(Moved(s, t), id) || id in Moved(s, t).queues
  {
    var u :| 0 <= u < |s.threads| && s.threads[u].SubscribeEnsure? && s.threads[u].id == id;
    if u != t { assert Moved(s, t).threads[u] == s.threads[u]; }
  }

  lemma StepKeepsListedHaveQueues(s: State, t: nat)
    requires Exclusive(s) && ListedHaveQueues(s) && t < |s.threads|
    ensures ListedHaveQueues(Moved(s, t))
  {
    hide Exclusive;
    var r := Moved(s, t);
    forall c, id | c in r.channels && id in r.channels[c] ensures id in r.queues || BeingSubscribed(r, id) {
      ListedBefore(s, t, c, id);
      ChannelsChangeUnderLock(s, t);
      if s.threads[t].SubscribeList? && s.threads[t].id == id {
        assert r.threads[t].SubscribeEnsure? && r.threads[t].id == id;
      } else if id !in s.queues {
        StillBeingSubscribed(s, t, id);
      }
    }
  }

  /** A list that is empty after a step was empty before, or is being tidied by the thread itself. */
  lemma EmptyBefore(s: State, t: nat, c: string)
    requires t < |s.threads| && c in Moved(s, t).channels && Moved(s, t).channels[c] == []
    ensures (c in s.channels && s.channels[c] == [] && !s.threads[t].CleanupTidy? &&
             !(s.threads[t].UnsubscribeTidy? && s.threads[t].channel == c))
         || Moved(s, t).threads[t] == CleanupTidy || Moved(s, t).threads[t] == UnsubscribeTidy(c)
  {
  }

  lemma StepKeepsListsNotEmpty(s: State, t: nat)
    requires ListsNotEmpty(s) && t < |s.threads|
    ensures ListsNotEmpty(Moved(s, t))
  {
    hide NextPc, NextChannels, NextQueues, NextHistory;
    var r := Moved(s, t);
    forall c | c in r.channels && r.channels[c] == [] ensures BeingTidied(r, c) {
      EmptyBefore(s, t, c);
      if r.threads[t] != CleanupTidy && r.threads[t] != UnsubscribeTidy(c) {
        assert BeingTidied(s, c);
        var u :| 0 <= u < |s.threads| &&
          (s.threads[u].CleanupTidy? || (s.threads[u].UnsubscribeTidy? && s.threads[u].channel == c));
        assert u != t && r.threads[u] == s.threads[u];
      } else {
        assert r.threads[t].CleanupTidy? || (r.threads[t].UnsubscribeTidy? && r.threads[t].channel == c);
      }
    }
  }

  /** While a thread reads channels, every listed id has a queue. */
  lemma ReaderSeesQueues(s: State, t: nat, c: string)
    requires Exclusive(s) && ListedHaveQueues(s) && t < |s.threads| && ReadsChannels(s.threads[t])
    ensures forall id :: id in Subscribers(s.channels, c) ==> id in s.queues
  {
    forall u | 0 <= u < |s.threads| ensures !s.threads[u].SubscribeEnsure? {
      assert u != t ==> !WritesChannels(s.threads[u]);
    }
  }

  lemma StepKeepsCopies(s: State, t: nat)
    requires Exclusive(s) && ListedHaveQueues(s) && CopiesHaveQueues(s) && t < |s.threads|
    ensures CopiesHaveQueues(Moved(s, t))
  {
    var r := Moved(s, t);
    ChannelsChangeUnderLock(s, t);
    forall u | 0 <= u < |r.threads| ensures CopyHasQueues(r.threads[u], r.queues) {
      assert CopyHasQueues(s.threads[u], s.queues);
      if u == t && s.threads[t].PublishCopy? { ReaderSeesQueues(s, t, s.threads[t].message.channel); }
    }
  }

  lemma StepKeepsAccounts(s: State, t: nat)
    requires Accounted(s) && t < |s.threads|
    ensures Accounted(Moved(s, t))
  {
    hide Accounts, Delivery, Polling, Push, Left;
    match s.threads[t]
    case SubscribeEnsure(_, id) => assert Accounts(NoHistory(), []) by { EmptyAccounts(); }
    case PublishPush(ids, m, next, _) =>
      if next < |ids| && ids[next] in s.queues {
        DeliveryAccounts(s.history[ids[next]], s.queues[ids[next]], m);
      }
    case PollTake(id, limit) => if id in s.queues { PollingAccounts(s.history[id], s.queues[id], limit); }
    case _ =>
  }

  lemma EmptyAccounts()
    ensures Accounts(NoHistory(), [])
  {
  }

  lemma NextKeepsInv(s: State, e: Event)
    requires Inv(s)
    ensures Inv(Next(s, e)) && |Next(s, e).threads| == |s.threads|
  {
    if e.thread < |s.threads| {
      if e.Run? {
        hide Exclusive, ListedHaveQueues, ListsNotEmpty, CopiesHaveQueues, Accounted, Enabled;
        hide NextPc, NextChannels, NextQueues, NextHistory;
        if Enabled(s, e.thread) {
          StepKeepsExclusive(s, e.thread);
          StepKeepsListedHaveQueues(s, e.thread);
          StepKeepsListsNotEmpty(s, e.thread);
          StepKeepsCopies(s, e.thread);
          StepKeepsAccounts(s, e.thread);
        }
      } else {
        BeginKeepsInv(s, e.thread, e.pc);
      }
    }
  }

  lemma BeginKeepsInv(s: State, t: nat, pc: Pc)
    requires Inv(s) && t < |s.threads|
    ensures Inv(Next(s, Begin(t, pc))) && |Next(s, Begin(t, pc)).threads| == |s.threads|
  {
    var r := Next(s, Begin(t, pc));
    if r != s {
      assert forall u :: 0 <= u < |s.threads| && u != t ==> r.threads[u] == s.threads[u];
      forall id | BeingSubscribed(s, id) ensures BeingSubscribed(r, id) {
        var u :| 0 <= u < |s.threads| && s.threads[u].SubscribeEnsure? && s.threads[u].id == id;
        assert r.threads[u] == s.threads[u];
      }
      forall c | BeingTidied(s, c) ensures BeingTidied(r, c) {
        var u :| 0 <= u < |s.threads| &&
          (s.threads[u].CleanupTidy? || (s.threads[u].UnsubscribeTidy? && s.threads[u].channel == c));
        assert r.threads[u] == s.threads[u];
      }
    }
  }

  lemma {:induction false} RunKeepsInv(n: nat, events: seq<Event>)
    ensures Inv(RunAll(Start(n), events)) && |RunAll(Start(n), events).threads| == n
  {
    hide Inv, Next;
    if events == [] {
      StartInv(n);
    } else {
      RunKeepsInv(n, events[..|events| - 1]);
      NextKeepsInv(RunAll(Start(n), events[..|events| - 1]), events[|events| - 1]);
    }
  }

  lemma StartInv(n: nat)
    ensures Inv(Start(n))
  {
  }

  // ----- Main results -----

  /** In every reachable state: when no thread writes channels, every listed id has a queue and no
      channel list is empty. */
  lemma ListsAreSound(n: nat, events: seq<Event>)
    ensures var s := RunAll(Start(n), events);
            (forall t :: 0 <= t < |s.threads| ==> !WritesChannels(s.threads[t])) ==>
              forall c :: c in s.channels ==> s.channels[c] != [] && forall id :: id in s.channels[c] ==> id in s.queues
  {
    RunKeepsInv(n, events);
  }

  /** In every reachable state, a publish that has come to its end has made as many pushes as the number
      it returns, the length of its copy with repeated ids counted as often as they occur. */
  lemma PublishCountIsItsPushes(n: nat, events: seq<Event>, t: nat)
    requires t < |RunAll(Start(n), events).threads| && RunAll(Start(n), events).threads[t].PublishPush?
    requires RunAll(Start(n), events).threads[t].next >= |RunAll(Start(n), events).threads[t].ids|
    ensures RunAll(Start(n), events).threads[t].pushes == |RunAll(Start(n), events).threads[t].ids|
  {
    RunKeepsInv(n, events);
    assert CopyHasQueues(RunAll(Start(n), events).threads[t], RunAll(Start(n), events).queues);
  }

  /** For each subscriber over any run: its queue is the end of what was delivered to it, within the
      bound; polled, queued and dropped messages add up; and nothing is missing unless it overflowed. */
  lemma EveryQueueIsAccounted(n: nat, events: seq<Event>, id: string)
    requires id in RunAll(Start(n), events).queues
    ensures var s := RunAll(Start(n), events);
            && id in s.history && Accounts(s.history[id], s.queues[id])
            && |s.history[id].polled| + |s.queues[id]| + CountFalse(s.history[id].fates) == |s.history[id].delivered|
            && (!s.history[id].overflowed ==> s.history[id].polled + s.queues[id] == s.history[id].delivered)
  {
    RunKeepsInv(n, events);
    var s := RunAll(Start(n), events);
    NothingIsLostUnseen(s.history[id], s.queues[id]);
  }

  /** The lock that thread `t` waits for is given to it even under a policy that lets no reader pass a
      waiting writer. */
  ghost predicate Granted(s: State, t: nat)
    requires t < |s.threads|
  {
    Enabled(s, t) && s.threads[t] != Idle &&
    (WaitsToReadChannels(s.threads[t]) ==>
       forall u :: 0 <= u < |s.threads| ==> !WaitsToWriteChannels(s.threads[u])) &&
    (WaitsToReadSubscribers(s.threads[t]) ==>
       forall u :: 0 <= u < |s.threads| ==> !WaitsToWriteSubscribers(s.threads[u]))
  }

  lemma StepMoves(pc: Pc, channels: Channels, queues: Queues)
    requires pc != Idle
    ensures NextPc(pc, channels, queues) != pc
  {
  }

  /** The locks are always taken in the same order, so no state is deadlocked: while some thread is in
      an operation, some thread can go on. */
  lemma NoDeadlock(s: State, busy: nat) returns (t: nat)
    requires busy < |s.threads| && s.threads[busy] != Idle
    ensures t < |s.threads| && Granted(s, t) && Moved(s, t).threads[t] != s.threads[t]
  {
    hide NextPc, NextChannels, NextQueues, NextHistory;
    if u :| 0 <= u < |s.threads| && (WritesSubscribers(s.threads[u]) || ReadsSubscribers(s.threads[u])) {
      t := u;
    } else if u :| 0 <= u < |s.threads| && WaitsToWriteSubscribers(s.threads[u]) {
      t := u;
    } else if u :| 0 <= u < |s.threads| && WaitsToReadSubscribers(s.threads[u]) {
      t := u;
    } else if u :| 0 <= u < |s.threads| && (WritesChannels(s.threads[u]) || ReadsChannels(s.threads[u])) {
      t := u;
    } else if u :| 0 <= u < |s.threads| && WaitsToWriteChannels(s.threads[u]) {
      t := u;
    } else {
      t := busy;
    }
    StepMoves(s.threads[t], s.channels, s.queues);
  }

  // ----- What a publish delivers -----

  /** How many steps of thread `t` there are among the events. */
  function StepsOf(events: seq<Event>, t: nat): nat {
    if events == [] then 0 else StepsOf(events[..|events| - 1], t) + if events[|events| - 1] == Run(t) then 1 else 0
  }

  function Copies(m: Message, n: nat): seq<Message> { seq(n, i => m) }

  /** Only a thread that writes subscribers changes queues and histories. */
  lemma QueuesChangeUnderLock(s: State, t: nat)
    requires t < |s.threads| && !WritesSubscribers(s.threads[t])
    ensures Moved(s, t).queues == s.queues && Moved(s, t).history == s.history
  {
  }

  /** While a thread writes subscribers, the others leave queues and histories alone. */
  lemma OthersAreLockedOut(s: State, t: nat, e: Event)
    requires Exclusive(s) && t < |s.threads| && WritesSubscribers(s.threads[t]) && e != Run(t)
    ensures Next(s, e).queues == s.queues && Next(s, e).history == s.history
    ensures |Next(s, e).threads| == |s.threads| && Next(s, e).threads[t] == s.threads[t]
  {
    hide NextPc, NextChannels, NextQueues, NextHistory;
    if e.Run? && e.thread < |s.threads| { QueuesChangeUnderLock(s, e.thread); }
  }

  /** Since `s`, the first `n` pushes of a publish have been made: each subscriber has been delivered the
      message as often as its id occurs among the first `n` ids. */
  ghost predicate Pushed(s: State, r: State, ids: seq<string>, m: Message, n: nat)
    requires n <= |ids|
  {
    && r.queues == PushToAll(s.queues, ids[..n], m)
    && r.queues.Keys == s.queues.Keys && r.history.Keys == s.history.Keys && s.history.Keys == s.queues.Keys
    && forall id :: id in s.history ==>
         r.history[id].delivered == s.history[id].delivered + Copies(m, multiset(ids[..n])[id])
  }

  /** What one push does, seen from each subscriber. */
  lemma PushEffect(r: State, t: nat)
    requires t < |r.threads| && r.threads[t].PublishPush? && r.threads[t].next < |r.threads[t].ids|
    requires r.history.Keys == r.queues.Keys
    ensures var pc, q := r.threads[t], Moved(r, t); var target := pc.ids[pc.next];
            && q.queues == PushTo(r.queues, target, pc.message)
            && q.queues.Keys == r.queues.Keys && q.history.Keys == r.history.Keys
            && forall k :: k in r.history ==>
                 q.history[k].delivered == r.history[k].delivered + if k == target then [pc.message] else []
  {
    hide Push;
    var pc := r.threads[t];
    forall k | k in r.history ensures r.history[k].delivered + [] == r.history[k].delivered {}
  }

  lemma CopiesNext(ids: seq<string>, m: Message, n: nat, k: string)
    requires n < |ids|
    ensures Copies(m, multiset(ids[..n + 1])[k])
         == Copies(m, multiset(ids[..n])[k]) + if k == ids[n] then [m] else []
  {
    assert ids[..n + 1] == ids[..n] + [ids[n]];
    assert multiset(ids[..n + 1])[k] == multiset(ids[..n])[k] + if k == ids[n] then 1 else 0;
  }

  lemma PushOnce(s: State, r: State, t: nat, ids: seq<string>, m: Message, n: nat)
    requires n < |ids| && Pushed(s, r, ids, m, n) && t < |r.threads|
    requires r.threads[t].PublishPush? && r.threads[t].ids == ids && r.threads[t].message == m && r.threads[t].next == n
    ensures Pushed(s, Moved(r, t), ids, m, n + 1)
  {
    hide Moved, Copies, PushTo;
    PushEffect(r, t);
    var q := Moved(r, t);
    assert ids[..n + 1][..n] == ids[..n];
    forall k | k in s.history
      ensures q.history[k].delivered == s.history[k].delivered + Copies(m, multiset(ids[..n + 1])[k])
    {
      CopiesNext(ids, m, n, k);
      Regroup(s.history[k].delivered, Copies(m, multiset(ids[..n])[k]), if k == ids[n] then [m] else []);
    }
  }

  /** Whatever other threads do meanwhile, the pushes of a publish add up to the delivery that the
      engine's method makes in one go, and each subscriber is delivered the message as often as it is
      listed. */
  lemma {:induction false} InterleavedPushes(s: State, t: nat, events: seq<Event>)
    requires Inv(s) && t < |s.threads| && s.threads[t].PublishPush? && s.threads[t].next == 0
    requires StepsOf(events, t) <= |s.threads[t].ids|
    ensures var pc, r, n := s.threads[t], RunAll(s, events), StepsOf(events, t);
            && Inv(r) && |r.threads| == |s.threads| && r.threads[t].PublishPush?
            && r.threads[t].ids == pc.ids && r.threads[t].message == pc.message && r.threads[t].next == n
            && Pushed(s, r, pc.ids, pc.message, n)
  {
    hide Next, Moved, NextPc, NextChannels, NextQueues, NextHistory, Exclusive, ListedHaveQueues, ListsNotEmpty;
    hide CopiesHaveQueues, Pushed, WritesSubscribers;
    if events == [] {
      NothingPushed(s, s.threads[t].ids, s.threads[t].message);
    } else {
      var front, e := events[..|events| - 1], events[|events| - 1];
      InterleavedPushes(s, t, front);
      var r, n := RunAll(s, front), StepsOf(front, t);
      NextKeepsInv(r, e);
      if e == Run(t) {
        PushStep(r, t);
        PushOnce(s, r, t, s.threads[t].ids, s.threads[t].message, n);
      } else {
        PublisherWrites(r, t);
        OthersAreLockedOut(r, t, e);
        PushedIgnoresRest(s, r, Next(r, e), s.threads[t].ids, s.threads[t].message, n);
      }
    }
  }

  lemma NothingPushed(s: State, ids: seq<string>, m: Message)
    requires Accounted(s)
    ensures Pushed(s, s, ids, m, 0)
  {
    assert ids[..0] == [];
    forall id | id in s.history ensures s.history[id].delivered == s.history[id].delivered + Copies(m, 0) {
      assert Copies(m, 0) == [];
    }
  }

  lemma PushStep(r: State, t: nat)
    requires t < |r.threads| && r.threads[t].PublishPush? && r.threads[t].next < |r.threads[t].ids|
    ensures Next(r, Run(t)) == Moved(r, t) && |Moved(r, t).threads| == |r.threads|
    ensures var pc, next := r.threads[t], Moved(r, t).threads[t];
            next.PublishPush? && next.ids == pc.ids && next.message == pc.message && next.next == pc.next + 1
  {
  }

  lemma PublisherWrites(r: State, t: nat)
    requires t < |r.threads| && r.threads[t].PublishPush?
    ensures WritesSubscribers(r.threads[t])
  {
  }

  lemma PushedIgnoresRest(s: State, r: State, q: State, ids: seq<string>, m: Message, n: nat)
    requires n <= |ids| && Pushed(s, r, ids, m, n) && q.queues == r.queues && q.history == r.history
    ensures Pushed(s, q, ids, m, n)
  {
  }

  /** The subscribers that were delivered something between two states. */
  ghost function Receivers(s: State, r: State): set<string>
    requires s.history.Keys == r.history.Keys
  {
    set id | id in s.history && |s.history[id].delivered| < |r.history[id].delivered|
  }

  /** The number that publish returns is the number of subscribers that received the message exactly when
      no id was listed twice; the receivers are the listed ids in any case. */
  lemma CountIsReceiversExactlyWhen(s: State, t: nat, events: seq<Event>)
    requires Inv(s) && t < |s.threads| && s.threads[t].PublishPush? && s.threads[t].next == 0
    requires StepsOf(events, t) == |s.threads[t].ids|
    ensures var ids, r := s.threads[t].ids, RunAll(s, events);
            && s.history.Keys == r.history.Keys && Receivers(s, r) == Elements(ids)
            && (|ids| == |Receivers(s, r)| <==> NoDuplicates(ids))
  {
    hide RunAll, Inv, Copies;
    InterleavedPushes(s, t, events);
    var ids, m, r := s.threads[t].ids, s.threads[t].message, RunAll(s, events);
    assert ids[..|ids|] == ids;
    forall n: nat ensures |Copies(m, n)| == n { CopiesLength(m, n); }
    forall id | id in s.history ensures id in Receivers(s, r) <==> id in Elements(ids) {
      assert id in ids <==> multiset(ids)[id] > 0;
    }
    ListedIdsHaveHistory(s, t);
    SizeOfElements(ids);
  }

  lemma CopiesLength(m: Message, n: nat)
    ensures |Copies(m, n)| == n
  {
  }

  lemma ListedIdsHaveHistory(s: State, t: nat)
    requires Inv(s) && t < |s.threads| && s.threads[t].PublishPush?
    ensures forall id :: id in s.threads[t].ids ==> id in s.history
  {
    assert CopyHasQueues(s.threads[t], s.queues);
  }

  // ----- Who is listed, over a run -----

  /** How a step of a thread changes the number of times that `id` is listed on `channel`. */
  function ListingsAfter(pc: Pc, queues: Queues, channel: string, id: string, before: nat): nat {
    match pc
    case SubscribeList(c, who) => if c == channel && who == id then before + 1 else before
    case UnsubscribeDrop(c, who) => if c == channel && who == id then 0 else before
    case CleanupDrop => if HasPending(queues, id) then before else 0
    case _ => before
  }

  /** How often `id` has been listed on `channel` since it was last taken off it: an unsubscription takes off
      all its listings there, and so does a clean-up that finds no message waiting for it. */
  ghost function TimesSubscribed(n: nat, events: seq<Event>, channel: string, id: string): nat {
    if events == [] then 0
    else
      var front, e := events[..|events| - 1], events[|events| - 1];
      var s, before := RunAll(Start(n), front), TimesSubscribed(n, front, channel, id);
      if e.Run? && e.thread < |s.threads| && Enabled(s, e.thread)
      then ListingsAfter(s.threads[e.thread], s.queues, channel, id, before) else before
  }

  lemma DropChanges(channels: Channels, c: string, who: string, channel: string, id: string)
    ensures TimesListed(Unlisted(channels, c, who), channel, id) ==
            if c == channel && who == id then 0 else TimesListed(channels, channel, id)
  {
    if c in channels { WithoutCounts(channels[c], who, id); }
  }

  lemma IdleDropChanges(channels: Channels, queues: Queues, channel: string, id: string)
    ensures TimesListed(AllWithPending(channels, queues), channel, id) ==
            if HasPending(queues, id) then TimesListed(channels, channel, id) else 0
  {
    if channel in channels { WithPendingCounts(channels[channel], queues, id); }
  }

  lemma TidyingChangesNothing(channels: Channels, c: string, channel: string, id: string)
    ensures TimesListed(WithoutEmpty(channels, c), channel, id) == TimesListed(channels, channel, id)
    ensures TimesListed(NonEmptyOnly(channels), channel, id) == TimesListed(channels, channel, id)
  {
  }

  lemma StepChangesListings(pc: Pc, channels: Channels, queues: Queues, channel: string, id: string)
    ensures TimesListed(NextChannels(pc, channels, queues), channel, id) ==
            ListingsAfter(pc, queues, channel, id, TimesListed(channels, channel, id))
  {
    hide TimesListed, WithoutEmpty, NonEmptyOnly, AllWithPending, Unlisted, PubSubs.Listed, HasPending;
    match pc
    case SubscribeList(c, who) => ListingChanges(channels, c, who, channel, id);
    case UnsubscribeDrop(c, who) => DropChanges(channels, c, who, channel, id);
    case UnsubscribeTidy(c) => TidyingChangesNothing(channels, c, channel, id);
    case CleanupDrop => IdleDropChanges(channels, queues, channel, id);
    case CleanupTidy => TidyingChangesNothing(channels, "", channel, id);
    case _ =>
  }

  /** In every reachable state each id is listed on each channel as often as it was subscribed to it since it
      was last taken off. */
  lemma {:induction false} ListedAsSubscribed(n: nat, events: seq<Event>, channel: string, id: string)
    ensures TimesListed(RunAll(Start(n), events).channels, channel, id) == TimesSubscribed(n, events, channel, id)
  {
    hide TimesListed, Enabled, NextPc, NextChannels, NextQueues, NextHistory, ListingsAfter;
    if events == [] {
      NobodyListed(n, channel, id);
    } else {
      var front, e := events[..|events| - 1], events[|events| - 1];
      ListedAsSubscribed(n, front, channel, id);
      var s := RunAll(Start(n), front);
      if e.thread < |s.threads| {
        StepChangesListings(s.threads[e.thread], s.channels, s.queues, channel, id);
      }
    }
  }

  lemma NobodyListed(n: nat, channel: string, id: string)
    ensures TimesListed(Start(n).channels, channel, id) == 0
  {
  }

  lemma ListingChanges(channels: Channels, c: string, who: string, channel: string, id: string)
    ensures TimesListed(PubSubs.Listed(channels, c, who), channel, id) ==
            TimesListed(channels, channel, id) + if c == channel && who == id then 1 else 0
  {
    SubscriptionAdds(channels, c, who, channel);
  }

  // ----- A publish from its start to its end -----

  ghost predicate StartsNothing(events: seq<Event>, t: nat) {
    forall i :: 0 <= i < |events| ==> events[i].Begin? ==> events[i].thread != t
  }

  /** The publish of thread `t` has the subscribers lock, and has not delivered anything. */
  predicate AtFirstPush(s: State, t: nat, ids: seq<string>, m: Message) {
    t < |s.threads| && s.threads[t] == PublishPush(ids, m, 0, 0)
  }

  /** How far a publish that started in `s` has come: it reads the list, it holds a copy of it, it has
      delivered to a part since the state after `i` events, or it had delivered to all after `j`. */
  ghost predicate Publishing(s: State, t: nat, ids: seq<string>, m: Message, events: seq<Event>, i: nat, j: nat)
    requires t < |s.threads| && i <= j <= |events|
  {
    var r := RunAll(s, events);
    && Inv(r) && |r.threads| == |s.threads|
    && ((r.threads[t] == PublishCopy(m) && Subscribers(r.channels, m.channel) == ids)
        || r.threads[t] == PublishS(ids, m)
        || (&& r.threads[t].PublishPush? && r.threads[t].ids == ids && r.threads[t].message == m
            && r.threads[t].next <= |ids| && AtFirstPush(RunAll(s, events[..i]), t, ids, m)
            && Pushed(RunAll(s, events[..i]), r, ids, m, r.threads[t].next))
        || (r.threads[t] == Idle && DeliveredBetween(RunAll(s, events[..i]), RunAll(s, events[..j]), t, ids, m)))
  }

  ghost predicate DeliveredBetween(q: State, r: State, t: nat, ids: seq<string>, m: Message) {
    AtFirstPush(q, t, ids, m) && Pushed(q, r, ids, m, |ids|)
  }

  /** While a thread reads channels, the others leave the lists alone. */
  lemma ReaderLocksOut(s: State, t: nat, e: Event)
    requires Exclusive(s) && t < |s.threads| && ReadsChannels(s.threads[t]) && e.thread != t
    ensures Next(s, e).channels == s.channels
  {
    hide NextPc, NextChannels, NextQueues, NextHistory;
    if e.Run? && e.thread < |s.threads| { ChannelsChangeUnderLock(s, e.thread); }
  }

  lemma OtherThreadsStay(s: State, t: nat, e: Event)
    requires t < |s.threads| && e.thread != t
    ensures |Next(s, e).threads| == |s.threads| && Next(s, e).threads[t] == s.threads[t]
  {
  }

  /** The first steps of a publish, and its last one. */
  lemma PublisherStep(s: State, t: nat)
    requires t < |s.threads|
    ensures |Next(s, Run(t)).threads| == |s.threads|
    ensures var pc, next := s.threads[t], Next(s, Run(t)).threads[t];
            && (pc.PublishCopy? ==> next == PublishS(Subscribers(s.channels, pc.message.channel), pc.message))
            && (pc.PublishS? ==> next == pc || (next == PublishPush(pc.ids, pc.message, 0, 0)))
            && (pc.PublishPush? && pc.next >= |pc.ids| ==> next == Idle)
            && (pc == Idle ==> next == Idle)
  {
  }

  lemma {:induction false} PublishProceeds(s: State, t: nat, m: Message, events: seq<Event>) returns (i: nat, j: nat)
    requires Inv(s) && t < |s.threads| && s.threads[t] == PublishCopy(m) && StartsNothing(events, t)
    ensures i <= j <= |events| && Publishing(s, t, Subscribers(s.channels, m.channel), m, events, i, j)
  {
    hide Next, Inv, Exclusive, Pushed, Moved, NextPc, NextChannels, NextQueues, NextHistory;
    i, j := 0, 0;
    var ids := Subscribers(s.channels, m.channel);
    if events != [] {
      var n := |events| - 1;
      var front, e := events[..n], events[n];
      i, j := PublishProceeds(s, t, m, front);
      assert front[..i] == events[..i] && front[..j] == events[..j];
      assert events[..n] == front && events[..n + 1] == events;
      var r := RunAll(s, front);
      NextKeepsInv(r, e);
      if e.thread != t {
        OtherThreadsStay(r, t, e);
        InvIsExclusive(r);
        if r.threads[t].PublishCopy? { ReaderLocksOut(r, t, e); }
        if r.threads[t].PublishPush? {
          OthersAreLockedOut(r, t, e);
          PushedIgnoresRest(RunAll(s, events[..i]), r, Next(r, e), ids, m, r.threads[t].next);
        }
      } else {
        assert e == Run(t);
        PublisherStep(r, t);
        if r.threads[t].PublishS? && Next(r, e).threads[t] != r.threads[t] {
          i, j := |events|, |events|;
          InvIsAccounted(Next(r, e));
          NothingPushed(Next(r, e), ids, m);
        } else if r.threads[t].PublishPush? && r.threads[t].next < |ids| {
          PushStep(r, t);
          PushOnce(RunAll(s, events[..i]), r, t, ids, m, r.threads[t].next);
        } else if r.threads[t].PublishPush? {
          j := n;
        }
      }
    }
  }

  lemma InvIsExclusive(s: State)
    requires Inv(s)
    ensures Exclusive(s)
  {
  }

  lemma InvIsAccounted(s: State)
    requires Inv(s)
    ensures Accounted(s)
  {
  }

  lemma {:induction false} RunFromKeepsInv(s: State, events: seq<Event>)
    requires Inv(s)
    ensures Inv(RunAll(s, events)) && |RunAll(s, events).threads| == |s.threads|
  {
    hide Inv, Next;
    if events != [] {
      RunFromKeepsInv(s, events[..|events| - 1]);
      NextKeepsInv(RunAll(s, events[..|events| - 1]), events[|events| - 1]);
    }
  }

  // ----- Every operation takes effect -----

  /** The points at which an operation changes something, or reads what it answers with. */
  predicate TakesEffect(pc: Pc) {
    pc.SubscribeList? || pc.SubscribeEnsure? || pc.UnsubscribeDrop? || pc.UnsubscribeTidy? || pc.PublishCopy? ||
    pc.PollTake? || pc.CleanupDrop? || pc.CleanupTidy? || pc.Listing? || pc.Counting?
  }

  /** The points of an operation that come before, or at, one of these. */
  predicate Ahead(pc: Pc, effect: Pc) {
    match effect
    case SubscribeList(c, id) => pc == SubscribeC(c, id) || pc == SubscribeS(c, id) || pc == effect
    case SubscribeEnsure(c, id) =>
      pc == SubscribeC(c, id) || pc == SubscribeS(c, id) || pc == SubscribeList(c, id) || pc == effect
    case UnsubscribeDrop(c, id) => pc == UnsubscribeC(c, id) || pc == effect
    case UnsubscribeTidy(c) => ((pc.UnsubscribeC? || pc.UnsubscribeDrop?) && pc.channel == c) || pc == effect
    case PublishCopy(m) => pc == PublishC(m) || pc == effect
    case PollTake(id, limit) => pc == PollS(id, limit) || pc == effect
    case CleanupDrop => pc == CleanupC || pc == CleanupS || pc == effect
    case CleanupTidy => pc == CleanupC || pc == CleanupS || pc == CleanupDrop || pc == effect
    case Listing => pc == ListC || pc == effect
    case Counting => pc == CountS || pc == effect
    case _ => false
  }

  lemma StepTowards(pc: Pc, effect: Pc, channels: Channels, queues: Queues)
    requires TakesEffect(effect) && Ahead(pc, effect)
    ensures pc != effect ==> Ahead(NextPc(pc, channels, queues), effect)
    ensures pc != Idle
  {
  }

  /** An operation that is over has passed through every point ahead of it, in a step that it was given the
      locks for. */
  lemma {:induction false} PassesThrough(s: State, t: nat, effect: Pc, events: seq<Event>) returns (k: nat)
    requires t < |s.threads| && TakesEffect(effect) && Ahead(s.threads[t], effect) && StartsNothing(events, t)
    requires |RunAll(s, events).threads| > t && !Ahead(RunAll(s, events).threads[t], effect)
    ensures k < |events| && events[k] == Run(t)
    ensures var q := RunAll(s, events[..k]); t < |q.threads| && q.threads[t] == effect && Enabled(q, t)
  {
    hide Enabled, NextPc, NextChannels, NextQueues, NextHistory, Ahead, TakesEffect;
    k := 0;
    if events != [] {
      var n := |events| - 1;
      var front, e := events[..n], events[n];
      var q := RunAll(s, front);
      ThreadsStay(q, e);
      if !Ahead(q.threads[t], effect) {
        k := PassesThrough(s, t, effect, front);
        assert front[..k] == events[..k];
      } else {
        if e.thread != t { OtherThreadsStay(q, t, e); }
        StepTowards(q.threads[t], effect, q.channels, q.queues);
        k := n;
      }
    }
  }

  lemma ThreadsStay(s: State, e: Event)
    ensures |Next(s, e).threads| == |s.threads|
  {
  }

  /** In any run: a publish that copies the list in state `s` and is over after further events has, between
      two states in between, delivered its message to each subscriber as often as the id was subscribed to
      the channel, and not since taken off it, up to `s`; those so subscribed all have a queue by then. */
  lemma SubscribersAreDelivered(n: nat, before: seq<Event>, t: nat, m: Message, events: seq<Event>)
    returns (i: nat, j: nat)
    requires StartsNothing(events, t)
    requires var s := RunAll(Start(n), before);
             t < |s.threads| && s.threads[t] == PublishCopy(m) &&
             t < |RunAll(s, events).threads| && RunAll(s, events).threads[t] == Idle
    ensures i <= j <= |events|
    ensures var s := RunAll(Start(n), before); var q, r := RunAll(s, events[..i]), RunAll(s, events[..j]);
            && q.history.Keys == r.history.Keys
            && (forall id :: id in q.history ==>
                  r.history[id].delivered ==
                  q.history[id].delivered + Copies(m, TimesSubscribed(n, before, m.channel, id)))
            && (forall id :: TimesSubscribed(n, before, m.channel, id) > 0 ==> id in q.history)
  {
    hide RunAll, Inv, Copies, TimesSubscribed, StartsNothing;
    var s := RunAll(Start(n), before);
    RunKeepsInv(n, before);
    i, j := PublishProceeds(s, t, m, events);
    var ids, q := Subscribers(s.channels, m.channel), RunAll(s, events[..i]);
    RunFromKeepsInv(s, events[..i]);
    ListedIdsHaveHistory(q, t);
    assert ids[..|ids|] == ids;
    forall id
      ensures TimesSubscribed(n, before, m.channel, id) == multiset(ids)[id] && (multiset(ids)[id] > 0 ==> id in ids)
    {
      ListedAsSubscribed(n, before, m.channel, id);
    }
  }

  lemma {:induction false} RunInTwo(s: State, a: seq<Event>, b: seq<Event>)
    ensures RunAll(s, a + b) == RunAll(RunAll(s, a), b)
  {
    hide Next;
    if b == [] {
      assert a + b == a;
    } else {
      RunInTwo(s, a, b[..|b| - 1]);
      assert (a + b)[..|a + b| - 1] == a + b[..|b| - 1];
    }
  }

  /** A publish that has been called and is over has copied the list at one point of the run, and delivered
      its message after that to each subscriber as often as it was subscribed to the channel at that point. */
  lemma PublishReachesSubscribers(n: nat, before: seq<Event>, t: nat, m: Message, events: seq<Event>)
    returns (k: nat, i: nat, j: nat)
    requires StartsNothing(events, t)
    requires var s := RunAll(Start(n), before);
             t < |s.threads| && s.threads[t] == PublishC(m) &&
             t < |RunAll(s, events).threads| && RunAll(s, events).threads[t] == Idle
    ensures k <= i <= j <= |events|
    ensures var s := RunAll(Start(n), before); var q, r := RunAll(s, events[..i]), RunAll(s, events[..j]);
            && q.history.Keys == r.history.Keys
            && (forall id :: id in q.history ==>
                  r.history[id].delivered == q.history[id].delivered +
                  Copies(m, TimesSubscribed(n, before + events[..k], m.channel, id)))
            && (forall id :: TimesSubscribed(n, before + events[..k], m.channel, id) > 0 ==> id in q.history)
  {
    hide RunAll, Copies, TimesSubscribed;
    var s := RunAll(Start(n), before);
    k := PassesThrough(s, t, PublishCopy(m), events);
    var start, rest := events[..k], events[k..];
    assert events == start + rest;
    RunInTwo(Start(n), before, start);
    RunInTwo(s, start, rest);
    i, j := SubscribersAreDelivered(n, before + start, t, m, rest);
    RunInTwo(s, start, rest[..i]);
    RunInTwo(s, start, rest[..j]);
    assert events[..k + i] == start + rest[..i] && events[..k + j] == start + rest[..j];
    i, j := k + i, k + j;
  }
}
