/** The Pub/Sub engine: channels list subscriber ids, and each subscriber has a bounded queue that
    drops its oldest message when it is full. */
module PubSubs {
  import opened Basics

  const MAX_MESSAGES: nat := 1000

  datatype Message = Message(channel: string, text: string, timestamp: nat)

  type Channels = map<string, seq<string>>

  type Queues = map<string, seq<Message>>

  datatype Error = EmptyChannelName

  // ----- Effects on the two maps -----

  function Subscribers(channels: Channels, channel: string): seq<string> {
    if channel in channels then channels[channel] else []
  }

  /** A subscriber that is already listed is listed once more. */
  function Listed(channels: Channels, channel: string, id: string): Channels {
    channels[channel := Subscribers(channels, channel) + [id]]
  }

  function WithQueue(queues: Queues, id: string): Queues {
    if id in queues then queues else queues[id := []]
  }

  function Unlisted(channels: Channels, channel: string, id: string): Channels {
    if channel in channels then channels[channel := Without(channels[channel], id)] else channels
  }

  function WithoutEmpty(channels: Channels, channel: string): Channels {
    if channel in channels && channels[channel] == [] then channels - {channel} else channels
  }

  /** A full queue loses its oldest message. */
  function Push(queue: seq<Message>, m: Message): seq<Message> {
    (if |queue| >= MAX_MESSAGES then queue[1..] else queue) + [m]
  }

  function PushTo(queues: Queues, id: string, m: Message): Queues {
    if id in queues then queues[id := Push(queues[id], m)] else queues
  }

  function PushToAll(queues: Queues, ids: seq<string>, m: Message): Queues {
    if ids == [] then queues else PushTo(PushToAll(queues, ids[..|ids| - 1], m), ids[|ids| - 1], m)
  }

  function Taken(queue: seq<Message>, limit: nat): seq<Message> { queue[..Min(limit, |queue|)] }

  function Left(queue: seq<Message>, limit: nat): seq<Message> { queue[Min(limit, |queue|)..] }

  /** The ids whose queue holds a message. */
  function WithPending(ids: seq<string>, queues: Queues): seq<string> {
    if ids == [] then []
    else (if ids[0] in queues && queues[ids[0]] != [] then [ids[0]] else []) + WithPending(ids[1..], queues)
  }

  function AllWithPending(channels: Channels, queues: Queues): Channels {
    map c | c in channels :: WithPending(channels[c], queues)
  }

  function NonEmptyOnly(channels: Channels): Channels {
    map c | c in channels && channels[c] != [] :: channels[c]
  }

  // ----- The engine -----

  class PubSub {
    var channels: Channels
    var subscribers: Queues

    constructor ()
      ensures channels == map[] && subscribers == map[]
    {
      channels, subscribers := map[], map[];
    }

    method Subscribe(channel: string, id: string) returns (r: Result<string, Error>)
      modifies this
      ensures channel == "" ==> r == Err(EmptyChannelName) &&
                                channels == old(channels) && subscribers == old(subscribers)
      ensures channel != "" ==> r == Ok(id) && channels == Listed(old(channels), channel, id)
                                && subscribers == WithQueue(old(subscribers), id)
    {
      if channel == "" {
        return Err(EmptyChannelName);
      }
      if channel !in channels {
        channels := channels[channel := []];
      }
      channels := channels[channel := channels[channel] + [id]];
      if id !in subscribers {
        subscribers := subscribers[id := []];
      }
      r := Ok(id);
    }

    method Unsubscribe(channel: string, id: string)
      modifies this`channels
      ensures channels == if channel in old(channels) then WithoutEmpty(Unlisted(old(channels), channel, id), channel)
                          else old(channels)
    {
      if channel in channels {
        channels := channels[channel := Without(channels[channel], id)];
        if channels[channel] == [] {
          channels := channels - {channel};
        }
      }
    }

    /** The ids are copied under the channels lock; the deliveries follow under the subscribers lock. */
    method Publish(channel: string, text: string, now: nat) returns (r: Result<nat, Error>)
      modifies this`subscribers
      ensures channel == "" ==> r == Err(EmptyChannelName) && subscribers == old(subscribers)
      ensures channel != "" ==>
                var ids := Subscribers(channels, channel);
                r == Ok(|ids|) && subscribers == PushToAll(old(subscribers), ids, Message(channel, text, now))
    {
      if channel == "" {
        return Err(EmptyChannelName);
      }
      var m := Message(channel, text, now);
      var ids := if channel in channels then channels[channel] else [];
      for i := 0 to |ids|
        invariant subscribers == PushToAll(old(subscribers), ids[..i], m)
      {
        assert ids[..i + 1][..i] == ids[..i];
        if ids[i] in subscribers {
          var queue := subscribers[ids[i]];
          if |queue| >= MAX_MESSAGES {
            queue := queue[1..];
          }
          subscribers := subscribers[ids[i] := queue + [m]];
        }
      }
      assert ids[..|ids|] == ids;
      r := Ok(|ids|);
    }

    method PollMessages(id: string, limit: nat) returns (messages: seq<Message>)
      modifies this`subscribers
      ensures id !in old(subscribers) ==> messages == [] && subscribers == old(subscribers)
      ensures id in old(subscribers) ==>
                messages == Taken(old(subscribers)[id], limit) &&
                subscribers == old(subscribers)[id := Left(old(subscribers)[id], limit)]
    {
      messages := [];
      if id in subscribers {
        var queue := subscribers[id];
        ghost var whole := queue;
        for i := 0 to limit
          invariant i <= |whole| && messages == whole[..i] && queue == whole[i..]
        {
          if queue == [] {
            break;
          }
          messages := messages + [queue[0]];
          queue := queue[1..];
        }
        subscribers := subscribers[id := queue];
      }
    }

    /** Removes the subscribers without pending messages from every channel, then the empty channels. */
    method CleanupStaleSubscribers()
      modifies this`channels
      ensures channels == NonEmptyOnly(AllWithPending(old(channels), subscribers))
    {
      var todo := channels.Keys;
      while todo != {}
        invariant todo <= channels.Keys == old(channels).Keys
        invariant forall c :: c in channels ==>
                    channels[c] == if c in todo then old(channels)[c] else WithPending(old(channels)[c], subscribers)
      {
        var c :| c in todo;
        channels := channels[c := WithPending(channels[c], subscribers)];
        todo := todo - {c};
      }
      assert channels == AllWithPending(old(channels), subscribers);
      channels := map c | c in channels && channels[c] != [] :: channels[c];
    }
  }

  // ----- Who is listed -----

  /** How often an id is listed on a channel. */
  ghost function TimesListed(channels: Channels, channel: string, id: string): nat {
    multiset(Subscribers(channels, channel))[id]
  }

  /** A subscription lists its id once more on its channel, behind the ids that are there, and changes no
      other list. */
  lemma SubscriptionAdds(channels: Channels, channel: string, id: string, c: string)
    ensures var after := Listed(channels, channel, id);
            && multiset(Subscribers(after, c))
               == multiset(Subscribers(channels, c)) + (if c == channel then multiset{id} else multiset{})
            && Subscribers(channels, c) <= Subscribers(after, c)
            && after.Keys == channels.Keys + {channel}
  {
  }

  lemma {:induction false} WithoutCounts(ids: seq<string>, id: string, k: string)
    ensures multiset(Without(ids, id))[k] == if k == id then 0 else multiset(ids)[k]
  {
    if ids != [] {
      WithoutCounts(ids[1..], id, k);
      assert ids == [ids[0]] + ids[1..];
    }
  }

  /** Unsubscribing takes an id off its channel, however often it is listed, and nothing else; a channel goes
      exactly when its last id goes. */
  lemma UnsubscriptionRemoves(channels: Channels, channel: string, id: string, c: string, k: string)
    ensures var after := if channel in channels then WithoutEmpty(Unlisted(channels, channel, id), channel)
                         else channels;
            && TimesListed(after, c, k) == (if c == channel && k == id then 0 else TimesListed(channels, c, k))
            && (c in after <==> c in channels && (c == channel ==> exists i :: i in channels[c] && i != id))
  {
    if c == channel && channel in channels {
      WithoutCounts(channels[c], id, k);
      WithoutElements(channels[c], id);
      var left := Without(channels[c], id);
      if i :| i in channels[c] && i != id {
        assert i in left;
      } else if left != [] {
        assert left[0] in left;
      }
    }
  }

  predicate HasPending(queues: Queues, id: string) { id in queues && queues[id] != [] }

  lemma {:induction false} WithPendingCounts(ids: seq<string>, queues: Queues, k: string)
    ensures multiset(WithPending(ids, queues))[k] == if HasPending(queues, k) then multiset(ids)[k] else 0
  {
    if ids != [] {
      WithPendingCounts(ids[1..], queues, k);
      assert ids == [ids[0]] + ids[1..];
    }
  }

  /** The ids that are kept keep their order. */
  lemma {:induction false} WithPendingKeepsOrder(a: seq<string>, b: seq<string>, queues: Queues)
    ensures WithPending(a + b, queues) == WithPending(a, queues) + WithPending(b, queues)
  {
    if a == [] {
      assert a + b == b;
    } else {
      var first := if HasPending(queues, a[0]) then [a[0]] else [];
      WithPendingKeepsOrder(a[1..], b, queues);
      assert (a + b)[1..] == a[1..] + b && (a + b)[0] == a[0];
      assert WithPending(a, queues) == first + WithPending(a[1..], queues);
      assert WithPending(a + b, queues) == first + WithPending(a[1..] + b, queues);
      hide WithPending;
      Regroup(first, WithPending(a[1..], queues), WithPending(b, queues));
    }
  }

  /** A clean-up keeps exactly the listings of the ids that have a message waiting, and the channels with such
      an id. */
  lemma CleanupKeeps(channels: Channels, queues: Queues, c: string, k: string)
    ensures var after := NonEmptyOnly(AllWithPending(channels, queues));
            && TimesListed(after, c, k) == (if HasPending(queues, k) then TimesListed(channels, c, k) else 0)
            && (c in after <==> c in channels && exists i :: i in channels[c] && HasPending(queues, i))
  {
    if c in channels {
      var kept := WithPending(channels[c], queues);
      forall i ensures i in kept <==> i in channels[c] && HasPending(queues, i) {
        WithPendingCounts(channels[c], queues, i);
        assert (i in kept <==> multiset(kept)[i] > 0) && (i in channels[c] <==> multiset(channels[c])[i] > 0);
      }
      WithPendingCounts(channels[c], queues, k);
      if kept != [] { assert kept[0] in kept; }
    }
  }

  /** A poll takes as many messages as there are, up to its limit: the oldest ones, in order. */
  lemma PollTakesOldest(queue: seq<Message>, limit: nat)
    ensures Taken(queue, limit) + Left(queue, limit) == queue
    ensures |Taken(queue, limit)| == if limit <= |queue| then limit else |queue|
  {
  }

  /** Whoever subscribes, then is published to and then polls, finds the message; if it was not known before,
      just this message. */
  lemma SubscribePublishPoll(channels: Channels, queues: Queues, channel: string, id: string, m: Message, limit: nat)
    requires limit >= MAX_MESSAGES && (id in queues ==> |queues[id]| <= MAX_MESSAGES)
    ensures var ids := Subscribers(Listed(channels, channel, id), channel);
            var after := PushToAll(WithQueue(queues, id), ids, m);
            && id in after && m in Taken(after[id], limit)
            && (id !in queues && TimesListed(channels, channel, id) == 0 ==> Taken(after[id], limit) == [m])
  {
    hide Push;
    var before, ids := WithQueue(queues, id), Subscribers(channels, channel);
    var all := Subscribers(Listed(channels, channel, id), channel);
    assert all[..|all| - 1] == ids && all[|all| - 1] == id;
    PushesReachListed(before, ids, m, id);
    PushEnds(PushToAll(before, ids, m)[id], m);
  }

  lemma {:induction false} PushesReachListed(queues: Queues, ids: seq<string>, m: Message, id: string)
    requires id in queues && |queues[id]| <= MAX_MESSAGES
    ensures var after := PushToAll(queues, ids, m);
            id in after && |after[id]| <= MAX_MESSAGES && (multiset(ids)[id] == 0 ==> after[id] == queues[id])
  {
    if ids != [] {
      PushesReachListed(queues, ids[..|ids| - 1], m, id);
      assert ids == ids[..|ids| - 1] + [ids[|ids| - 1]];
    }
  }

  /** A push puts its message at the end; only a full queue loses something, its oldest message. */
  lemma PushEnds(queue: seq<Message>, m: Message)
    requires |queue| <= MAX_MESSAGES
    ensures var after := Push(queue, m);
            && after != [] && after[|after| - 1] == m && |after| <= MAX_MESSAGES
            && (|queue| < MAX_MESSAGES ==> after == queue + [m])
            && (|queue| == MAX_MESSAGES ==> [queue[0]] + after == queue + [m])
  {
  }

  // ----- What a subscriber has seen -----

  /** Everything delivered to a subscriber, everything it polled, what became of each message that has
      left its queue (polled or dropped), and whether its queue was ever full at a delivery. */
  datatype History = History(delivered: seq<Message>, polled: seq<Message>, fates: seq<bool>, overflowed: bool)

  function NoHistory(): History { History([], [], [], false) }

  /** The messages marked true. */
  function Marked(items: seq<Message>, marks: seq<bool>): seq<Message>
    requires |items| == |marks|
  {
    if items == [] then []
    else Marked(items[..|items| - 1], marks[..|marks| - 1]) + if marks[|marks| - 1] then [items[|items| - 1]] else []
  }

  function CountFalse(marks: seq<bool>): nat {
    if marks == [] then 0 else CountFalse(marks[..|marks| - 1]) + if marks[|marks| - 1] then 0 else 1
  }

  function Polls(n: nat): seq<bool> { seq(n, i => true) }

  function Delivery(h: History, queue: seq<Message>, m: Message): History {
    if |queue| >= MAX_MESSAGES then History(h.delivered + [m], h.polled, h.fates + [false], true)
    else h.(delivered := h.delivered + [m])
  }

  function Polling(h: History, queue: seq<Message>, limit: nat): History {
    h.(polled := h.polled + Taken(queue, limit), fates := h.fates + Polls(|Taken(queue, limit)|))
  }

  /** The queue is the end of what was delivered and fits the bound; what was polled is, in order, the
      part of the rest marked as polled; and without an overflow nothing is marked as dropped. */
  ghost predicate Accounts(h: History, queue: seq<Message>) {
    |queue| <= MAX_MESSAGES && |h.fates| + |queue| == |h.delivered| && queue == h.delivered[|h.fates|..] &&
    h.polled == Marked(h.delivered[..|h.fates|], h.fates) &&
    (!h.overflowed ==> forall i :: 0 <= i < |h.fates| ==> h.fates[i])
  }

  lemma DeliveryAccounts(h: History, queue: seq<Message>, m: Message)
    requires Accounts(h, queue)
    ensures Accounts(Delivery(h, queue, m), Push(queue, m))
  {
    var n, all := |h.fates|, h.delivered + [m];
    assert all[..n] == h.delivered[..n];
    if |queue| >= MAX_MESSAGES {
      assert all[..n + 1][..n] == h.delivered[..n];
      assert (h.fates + [false])[..n] == h.fates;
    }
  }

  lemma {:induction false} MarkedPolls(items: seq<Message>, marks: seq<bool>, more: seq<Message>)
    requires |items| == |marks|
    ensures Marked(items + more, marks + Polls(|more|)) == Marked(items, marks) + more
  {
    if more == [] {
      assert items + more == items && marks + Polls(0) == marks;
    } else {
      var front := more[..|more| - 1];
      MarkedPolls(items, marks, front);
      assert (items + more)[..|items + more| - 1] == items + front;
      assert (marks + Polls(|more|))[..|marks| + |more| - 1] == marks + Polls(|front|);
    }
  }

  lemma PollingAccounts(h: History, queue: seq<Message>, limit: nat)
    requires Accounts(h, queue)
    ensures Accounts(Polling(h, queue, limit), Left(queue, limit))
  {
    var n, taken := |h.fates|, Taken(queue, limit);
    MarkedPolls(h.delivered[..n], h.fates, taken);
    assert h.delivered[..n + |taken|] == h.delivered[..n] + taken;
  }

  lemma {:induction false} MarkedCounts(items: seq<Message>, marks: seq<bool>)
    requires |items| == |marks|
    ensures |Marked(items, marks)| + CountFalse(marks) == |items|
    ensures (forall i :: 0 <= i < |marks| ==> marks[i]) ==> Marked(items, marks) == items
  {
    if items != [] {
      MarkedCounts(items[..|items| - 1], marks[..|marks| - 1]);
      assert items == items[..|items| - 1] + [items[|items| - 1]];
    }
  }

  /** Polled, queued and dropped messages add up to the delivered ones, and without an overflow the
      polled ones followed by the queued ones are the delivered ones. */
  lemma NothingIsLostUnseen(h: History, queue: seq<Message>)
    requires Accounts(h, queue)
    ensures |h.polled| + |queue| + CountFalse(h.fates) == |h.delivered|
    ensures !h.overflowed ==> h.polled + queue == h.delivered
  {
    MarkedCounts(h.delivered[..|h.fates|], h.fates);
    assert h.delivered == h.delivered[..|h.fates|] + h.delivered[|h.fates|..];
  }
}
