/**
 The in-process publish and subscribe hub: two indexes that mirror each other, a stream of accepted
 messages, and a loop that hands each streamed message to the subscribers of its topic.
 */
module PubSub {
  import opened Wrappers
  import opened Ordering

  datatype Message<T> = Message(topic: string, payload: T)

  /** What a subscriber amounts to: its own topics, and everything its channel accepted so far. */
  datatype Entry<T> = Entry(topics: set<string>, channel: seq<Message<T>>)

  type Index = map<string, set<nat>>

  type Entries<T> = map<nat, Entry<T>>

  /** The hub: the index from topics to subscribers, the subscribers, the messages waiting on the stream,
      and the message the streaming loop took last and has not delivered yet. */
  datatype State<T> = State(index: Index, entries: Entries<T>, stream: seq<Message<T>>, current: Option<Message<T>>)

  /** The subscribers a topic has by the index. */
  function Listed(index: Index, topic: string): set<nat> {
    if topic in index then index[topic] else {}
  }

  /** The subscribers a topic has by a scan of all subscribers' own sets. */
  function Audience<T>(entries: Entries<T>, topic: string): set<nat> {
    set id | id in entries && topic in entries[id].topics
  }

  /** The indexes are inverses of each other, and the index has no topic without a subscriber. */
  ghost predicate Inverse<T>(index: Index, entries: Entries<T>) {
    forall topic ::
      && (topic in index <==> Audience(entries, topic) != {})
      && Listed(index, topic) == Audience(entries, topic)
  }

  // ----- what the operations amount to -----

  function Fresh<T>(entries: Entries<T>, id: nat): Entries<T> {
    if id in entries then entries else entries[id := Entry({}, [])]
  }

  /** The index and the subscribers with `id` subscribed to one more topic. */
  function Indexed(index: Index, id: nat, topic: string): Index {
    index[topic := Listed(index, topic) + {id}]
  }

  function Holding<T>(entries: Entries<T>, id: nat, topics: set<string>): Entries<T>
    requires id in entries
  {
    entries[id := entries[id].(topics := entries[id].topics + topics)]
  }

  function Joined<T>(s: State<T>, id: nat, topics: seq<string>): State<T> {
    s.(index := AllIndexed(s.index, id, topics), entries := Holding(Fresh(s.entries, id), id, Elements(topics)))
  }

  function AllIndexed(index: Index, id: nat, topics: seq<string>): Index {
    if topics == [] then index
    else Indexed(AllIndexed(index, id, topics[..|topics| - 1]), id, topics[|topics| - 1])
  }

  /** All that a call of Unsubscribe changes: a subscriber that holds no topic is forgotten. */
  function Forgotten<T>(s: State<T>, id: nat): State<T> {
    if id in s.entries && s.entries[id].topics == {} then s.(entries := s.entries - {id}) else s
  }

  /** The messages a Publish puts on the stream: without blocking those with a subscribed topic that find
      room, with blocking the first with a subscribed topic. */
  function Accepted<T>(index: Index, blocking: bool, messages: seq<Message<T>>, room: seq<bool>): seq<Message<T>>
    requires |room| == |messages|
  {
    if messages == [] then []
    else if messages[0].topic !in index then Accepted(index, blocking, messages[1..], room[1..])
    else if blocking then [messages[0]]
    else (if room[0] then [messages[0]] else []) + Accepted(index, blocking, messages[1..], room[1..])
  }

  /** The number of (message, subscriber) pairs that a scan of all subscribers finds. */
  function Pairs<T>(entries: Entries<T>, messages: seq<Message<T>>): nat {
    if messages == [] then 0 else |Audience(entries, messages[0].topic)| + Pairs(entries, messages[1..])
  }

  /** The number of messages up to and with the first that has a subscriber. */
  function UpToFirstHeard<T>(entries: Entries<T>, messages: seq<Message<T>>): (n: nat)
    ensures n <= |messages|
  {
    if messages == [] then 0
    else if Audience(entries, messages[0].topic) != {} then 1
    else 1 + UpToFirstHeard(entries, messages[1..])
  }

  /** Delivery of a message, by the index: with blocking to all, else to those whose channel has room. */
  function Delivered<T>(index: Index, entries: Entries<T>, m: Message<T>, blocking: bool, room: set<nat>): Entries<T> {
    map id | id in entries ::
      if id in Listed(index, m.topic) && (blocking || id in room)
      then entries[id].(channel := entries[id].channel + [m])
      else entries[id]
  }

  // ----- the indexes stay inverse -----

  lemma InverseFresh<T>(index: Index, entries: Entries<T>, id: nat)
    requires Inverse(index, entries)
    ensures Inverse(index, Fresh(entries, id))
  {
    forall topic
      ensures Audience(Fresh(entries, id), topic) == Audience(entries, topic)
    {
    }
  }

  lemma InverseMore<T>(index: Index, entries: Entries<T>, id: nat, topic: string)
    requires Inverse(index, entries) && id in entries
    ensures Inverse(Indexed(index, id, topic), Holding(entries, id, {topic}))
  {
    var entries' := Holding(entries, id, {topic});
    forall t
      ensures Audience(entries', t) == Audience(entries, t) + if t == topic then {id} else {}
    {
    }
  }

  lemma {:induction false} InverseJoined<T>(index: Index, entries: Entries<T>, id: nat, topics: seq<string>)
    requires Inverse(index, entries) && id in entries
    ensures Inverse(AllIndexed(index, id, topics), Holding(entries, id, Elements(topics)))
  {
    if topics == [] {
      assert entries[id].topics + Elements(topics) == entries[id].topics;
      assert Holding(entries, id, Elements(topics)) == entries;
    } else {
      hide Inverse, Indexed;
      var init, last := topics[..|topics| - 1], topics[|topics| - 1];
      InverseJoined(index, entries, id, init);
      InverseMore(AllIndexed(index, id, init), Holding(entries, id, Elements(init)), id, last);
      HoldingMore(entries, id, topics, |init|);
      assert topics[..|topics|] == topics;
    }
  }

  lemma HoldingMore<T>(entries: Entries<T>, id: nat, topics: seq<string>, n: nat)
    requires id in entries && n < |topics|
    ensures Holding(Holding(entries, id, Elements(topics[..n])), id, {topics[n]}) ==
            Holding(entries, id, Elements(topics[..n + 1]))
  {
    assert topics[..n + 1] == topics[..n] + [topics[n]];
    assert entries[id].topics + Elements(topics[..n]) + {topics[n]} == entries[id].topics + Elements(topics[..n + 1]);
  }

  lemma InverseForgotten<T>(s: State<T>, id: nat)
    requires Inverse(s.index, s.entries)
    ensures Inverse(s.index, Forgotten(s, id).entries)
  {
    forall topic
      ensures Audience(Forgotten(s, id).entries, topic) == Audience(s.entries, topic)
    {
    }
  }

  lemma InverseDelivered<T>(index: Index, entries: Entries<T>, m: Message<T>, blocking: bool, room: set<nat>)
    requires Inverse(index, entries)
    ensures Inverse(index, Delivered(index, entries, m, blocking, room))
  {
    var entries' := Delivered(index, entries, m, blocking, room);
    forall topic
      ensures Audience(entries', topic) == Audience(entries, topic)
    {
    }
  }

  // ----- runs -----

  /** The steps of the hub; taking a message off the stream and delivering it are two steps, so that
      subscribers may come and go in between.  `room` is what the bounded channels happen to allow. */
  datatype Step<T> =
    | SubscribeStep(id: nat, topics: seq<string>)
    | UnsubscribeStep(id: nat, topics: seq<string>)
    | PublishStep(blocking: bool, messages: seq<Message<T>>, room: seq<bool>)
    | TakeStep
    | DeliverStep(rooms: set<nat>)

  /** A state, with all messages the stream accepted and all that the loop delivered. */
  datatype Run<T> = Run(now: State<T>, accepted: seq<Message<T>>, done: seq<Message<T>>)

  function Next<T>(blocking: bool, r: Run<T>, step: Step<T>): Run<T> {
    var s := r.now;
    match step
    case SubscribeStep(id, topics) => r.(now := Joined(s, id, topics))
    case UnsubscribeStep(id, _) => r.(now := Forgotten(s, id))
    case PublishStep(b, messages, room) =>
      if |room| != |messages| then r
      else
        var more := Accepted(s.index, b, messages, room);
        r.(now := s.(stream := s.stream + more), accepted := r.accepted + more)
    case TakeStep =>
      if s.current.None? && s.stream != []
      then r.(now := s.(stream := s.stream[1..], current := Some(s.stream[0]))) else r
    case DeliverStep(rooms) =>
      if s.current.None? then r
      else
        r.(now := s.(entries := Delivered(s.index, s.entries, s.current.value, blocking, rooms), current := None),
           done := r.done + [s.current.value])
  }

  /** The run of some steps from the empty hub; `blocking` is the mode of delivery. */
  function After<T>(blocking: bool, steps: seq<Step<T>>): Run<T> {
    if steps == [] then Run(State(map[], map[], [], None), [], [])
    else Next(blocking, After(blocking, steps[..|steps| - 1]), steps[|steps| - 1])
  }

  lemma InverseNext<T>(blocking: bool, r: Run<T>, step: Step<T>)
    requires Inverse(r.now.index, r.now.entries)
    ensures var s := Next(blocking, r, step).now; Inverse(s.index, s.entries)
  {
    hide Inverse, Delivered, Forgotten, AllIndexed, Holding, Fresh, Accepted;
    match step
    case SubscribeStep(id, topics) =>
      InverseFresh(r.now.index, r.now.entries, id);
      FreshHas(r.now.entries, id);
      InverseJoined(r.now.index, Fresh(r.now.entries, id), id, topics);
    case UnsubscribeStep(id, _) =>
      InverseForgotten(r.now, id);
      ForgottenIndex(r.now, id);
    case PublishStep(_, _, _) =>
    case TakeStep =>
    case DeliverStep(rooms) =>
      if r.now.current.Some? {
        InverseDelivered(r.now.index, r.now.entries, r.now.current.value, blocking, rooms);
      }
  }

  lemma FreshHas<T>(entries: Entries<T>, id: nat)
    ensures id in Fresh(entries, id)
  {
  }

  lemma ForgottenIndex<T>(s: State<T>, id: nat)
    ensures Forgotten(s, id).index == s.index
  {
  }

  /** In every reachable state the two indexes are inverses and no topic set is empty. */
  lemma {:induction false} AlwaysInverse<T>(blocking: bool, steps: seq<Step<T>>)
    ensures var s := After(blocking, steps).now; Inverse(s.index, s.entries)
  {
    if steps != [] {
      hide Inverse, Next;
      AlwaysInverse(blocking, steps[..|steps| - 1]);
      InverseNext(blocking, After(blocking, steps[..|steps| - 1]), steps[|steps| - 1]);
    } else {
      var s := After(blocking, steps).now;
      assert forall topic :: Audience(s.entries, topic) == {};
    }
  }

  // ----- ordered delivery -----

  /** The first sequence is what is left of the second after leaving out some elements. */
  predicate Subsequence<T(==)>(a: seq<T>, b: seq<T>) {
    a == [] ||
    (b != [] &&
     (Subsequence(a, b[..|b| - 1]) ||
      (a[|a| - 1] == b[|b| - 1] && Subsequence(a[..|a| - 1], b[..|b| - 1]))))
  }

  lemma SubsequenceMore<T>(a: seq<T>, b: seq<T>, x: T)
    requires Subsequence(a, b)
    ensures Subsequence(a, b + [x]) && Subsequence(a + [x], b + [x])
  {
    assert (b + [x])[..|b|] == b && (a + [x])[..|a|] == a;
  }

  /** What the run has made a subscriber hear since it last came to be: at each delivery the message, if the
      subscriber exists, its own set holds the topic, and delivery blocks or its channel has room. */
  function Heard<T>(blocking: bool, steps: seq<Step<T>>, id: nat): seq<Message<T>> {
    if steps == [] then []
    else
      var init, last := steps[..|steps| - 1], steps[|steps| - 1];
      var s := After(blocking, init).now;
      if id !in After(blocking, steps).now.entries then []
      else if last.DeliverStep? && s.current.Some? && id in s.entries && s.current.value.topic in s.entries[id].topics
              && (blocking || id in last.rooms) then Heard(blocking, init, id) + [s.current.value]
      else Heard(blocking, init, id)
  }

  /** A subscriber's channel after one step. */
  lemma ChannelNext<T>(blocking: bool, r: Run<T>, step: Step<T>, id: nat)
    requires Inverse(r.now.index, r.now.entries)
    requires id in Next(blocking, r, step).now.entries
    ensures
      var s, s' := r.now, Next(blocking, r, step).now;
      s'.entries[id].channel ==
      if id !in s.entries then []
      else if step.DeliverStep? && s.current.Some? && s.current.value.topic in s.entries[id].topics
              && (blocking || id in step.rooms) then s.entries[id].channel + [s.current.value]
      else s.entries[id].channel
  {
    if step.DeliverStep? && r.now.current.Some? {
      var topic := r.now.current.value.topic;
      assert Listed(r.now.index, topic) == Audience(r.now.entries, topic);
    }
  }

  lemma {:induction false} NotThere<T>(blocking: bool, steps: seq<Step<T>>, id: nat)
    requires id !in After(blocking, steps).now.entries
    ensures Heard(blocking, steps, id) == []
  {
  }

  /** Delivery by the index is delivery by each subscriber's own set, over every interleaving. */
  lemma {:induction false} ChannelIsHeard<T>(blocking: bool, steps: seq<Step<T>>, id: nat)
    requires id in After(blocking, steps).now.entries
    ensures After(blocking, steps).now.entries[id].channel == Heard(blocking, steps, id)
  {
    if steps != [] {
      hide Next, Inverse;
      var init := steps[..|steps| - 1];
      AlwaysInverse(blocking, init);
      ChannelNext(blocking, After(blocking, init), steps[|steps| - 1], id);
      if id in After(blocking, init).now.entries {
        ChannelIsHeard(blocking, init, id);
      } else {
        NotThere(blocking, init, id);
      }
    }
  }

  /** What was accepted is what was delivered, then the message in hand, then what waits. */
  ghost predicate InOrder<T>(r: Run<T>) {
    r.accepted == r.done + (if r.now.current.Some? then [r.now.current.value] else []) + r.now.stream
  }

  lemma StreamNext<T>(blocking: bool, r: Run<T>, step: Step<T>)
    requires InOrder(r)
    ensures InOrder(Next(blocking, r, step))
    ensures r.done <= Next(blocking, r, step).done
  {
    hide Delivered, Accepted, Forgotten, Joined;
    match step
    case SubscribeStep(_, _) => JoinedStream(r.now, step.id, step.topics);
    case UnsubscribeStep(_, _) => ForgottenStream(r.now, step.id);
    case PublishStep(_, _, _) =>
    case TakeStep =>
    case DeliverStep(_) =>
  }

  lemma JoinedStream<T>(s: State<T>, id: nat, topics: seq<string>)
    ensures Joined(s, id, topics).stream == s.stream && Joined(s, id, topics).current == s.current
  {
  }

  lemma ForgottenStream<T>(s: State<T>, id: nat)
    ensures Forgotten(s, id).stream == s.stream && Forgotten(s, id).current == s.current
  {
  }

  /** The stream keeps the order in which it accepted messages. */
  lemma {:induction false} StreamInOrder<T>(blocking: bool, steps: seq<Step<T>>)
    ensures InOrder(After(blocking, steps))
  {
    if steps != [] {
      hide Next, InOrder;
      StreamInOrder(blocking, steps[..|steps| - 1]);
      StreamNext(blocking, After(blocking, steps[..|steps| - 1]), steps[|steps| - 1]);
    }
  }

  /** What a subscriber has heard, after one more step: nothing, what it had heard, or the message delivered on
      top. */
  lemma HeardNext<T>(blocking: bool, steps: seq<Step<T>>, id: nat)
    requires steps != []
    ensures
      var init, last := steps[..|steps| - 1], steps[|steps| - 1];
      var s, before, now := After(blocking, init).now, Heard(blocking, init, id), Heard(blocking, steps, id);
      || now == [] || now == before
      || (last.DeliverStep? && s.current.Some? && now == before + [s.current.value])
  {
    hide After, Next;
  }

  /** What a subscriber hears is a subsequence of what was delivered. */
  lemma {:induction false} HeardInOrder<T>(blocking: bool, steps: seq<Step<T>>, id: nat)
    ensures Subsequence(Heard(blocking, steps, id), After(blocking, steps).done)
  {
    if steps != [] {
      var init, last := steps[..|steps| - 1], steps[|steps| - 1];
      var r := After(blocking, init);
      assert After(blocking, steps) == Next(blocking, r, last);
      hide Subsequence, Heard, After, Next;
      HeardInOrder(blocking, init, id);
      HeardNext(blocking, steps, id);
      NothingHeard(After(blocking, steps).done);
      DoneNext(blocking, r, last);
      if last.DeliverStep? && r.now.current.Some? {
        SubsequenceMore(Heard(blocking, init, id), r.done, r.now.current.value);
      }
    } else {
      assert Heard(blocking, steps, id) == [];
    }
  }

  lemma NothingHeard<T>(b: seq<T>)
    ensures Subsequence([], b)
  {
  }

  lemma DoneNext<T>(blocking: bool, r: Run<T>, step: Step<T>)
    ensures Next(blocking, r, step).done ==
            r.done + if step.DeliverStep? && r.now.current.Some? then [r.now.current.value] else []
  {
  }

  /** Ordered delivery, over every interleaving: a subscriber's channel holds what its own topics let it hear,
      which is a subsequence of the delivered messages, themselves the first of the accepted ones. */
  lemma OrderedDelivery<T>(blocking: bool, steps: seq<Step<T>>, id: nat)
    requires id in After(blocking, steps).now.entries
    ensures
      var r := After(blocking, steps);
      && r.now.entries[id].channel == Heard(blocking, steps, id)
      && Subsequence(r.now.entries[id].channel, r.done)
      && r.done <= r.accepted
  {
    ChannelIsHeard(blocking, steps, id);
    HeardInOrder(blocking, steps, id);
    StreamInOrder(blocking, steps);
  }

  // ----- blocking delivery misses nothing -----

  function OnTopic<T>(messages: seq<Message<T>>, topic: string): seq<Message<T>> {
    if messages == [] then []
    else
      var last := messages[|messages| - 1];
      OnTopic(messages[..|messages| - 1], topic) + if last.topic == topic then [last] else []
  }

  lemma OnTopicMore<T>(messages: seq<Message<T>>, m: Message<T>, topic: string)
    ensures OnTopic(messages + [m], topic) == OnTopic(messages, topic) + if m.topic == topic then [m] else []
  {
    assert (messages + [m])[..|messages|] == messages;
  }

  ghost predicate Holds<T>(s: State<T>, id: nat, topic: string) {
    id in s.entries && topic in s.entries[id].topics
  }

  /** No step takes a topic from a subscriber that holds it. */
  lemma HoldsNext<T>(blocking: bool, r: Run<T>, step: Step<T>, id: nat, topic: string)
    requires Holds(r.now, id, topic)
    ensures Holds(Next(blocking, r, step).now, id, topic)
  {
  }

  /** From the `n`-th delivered message on, the subscriber heard all messages on the topic, behind `base`. */
  ghost predicate HeardAllSince<T>(r: Run<T>, id: nat, topic: string, base: seq<Message<T>>, n: nat) {
    && Holds(r.now, id, topic) && n <= |r.done|
    && OnTopic(r.now.entries[id].channel, topic) == base + OnTopic(r.done[n..], topic)
  }

  lemma HeardAllNext<T>(r: Run<T>, step: Step<T>, id: nat, topic: string, base: seq<Message<T>>, n: nat)
    requires Inverse(r.now.index, r.now.entries) && HeardAllSince(r, id, topic, base, n)
    ensures HeardAllSince(Next(true, r, step), id, topic, base, n)
  {
    hide Next, Inverse, OnTopic;
    HoldsNext(true, r, step, id, topic);
    DoneNext(true, r, step);
    ChannelNext(true, r, step, id);
    var r' := Next(true, r, step);
    if step.DeliverStep? && r.now.current.Some? {
      var m, channel := r.now.current.value, r.now.entries[id].channel;
      assert r'.done[n..] == r.done[n..] + [m];
      OnTopicMore(r.done[n..], m, topic);
      OnTopicMore(channel, m, topic);
      assert OnTopic(r'.now.entries[id].channel, topic) ==
             OnTopic(channel, topic) + if m.topic == topic then [m] else [];
    } else {
      assert r'.done == r.done;
    }
  }

  /** With blocking delivery a subscriber hears on a topic it holds, from whenever it holds it, every message
      that is delivered, each exactly once and in order. */
  lemma {:induction false} BlockingMissesNothing<T>(steps: seq<Step<T>>, k: nat, id: nat, topic: string)
    requires k <= |steps| && Holds(After(true, steps[..k]).now, id, topic)
    ensures
      var before := After(true, steps[..k]);
      HeardAllSince(After(true, steps), id, topic, OnTopic(before.now.entries[id].channel, topic), |before.done|)
  {
    if k == |steps| {
      assert steps[..k] == steps;
    } else {
      var init, before := steps[..|steps| - 1], After(true, steps[..k]);
      assert init[..k] == steps[..k];
      BlockingMissesNothing(init, k, id, topic);
      AlwaysInverse(true, init);
      HeardAllNext(After(true, init), steps[|steps| - 1], id, topic, OnTopic(before.now.entries[id].channel, topic),
          |before.done|);
    }
  }

  // ----- what each operation changes, told from its arguments -----

  function TopicsOf<T>(s: State<T>, id: nat): set<string> {
    if id in s.entries then s.entries[id].topics else {}
  }

  function ChannelOf<T>(s: State<T>, id: nat): seq<Message<T>> {
    if id in s.entries then s.entries[id].channel else []
  }

  /** All but one subscriber, and the stream with its message in hand, are what they were. */
  ghost predicate OthersKept<T>(s: State<T>, s': State<T>, id: nat) {
    && (forall other :: other != id ==> Get(s'.entries, other) == Get(s.entries, other))
    && s'.stream == s.stream && s'.current == s.current
  }

  lemma AfterMore<T>(blocking: bool, steps: seq<Step<T>>, step: Step<T>)
    ensures After(blocking, steps + [step]) == Next(blocking, After(blocking, steps), step)
  {
    assert (steps + [step])[..|steps|] == steps;
  }

  /** After every run, a subscribe step leaves its subscriber there, with the topics it held and those given, and with
      what its channel had, if it had one; and it changes no other subscriber and nothing of the stream. */
  lemma SubscribeExact<T>(blocking: bool, steps: seq<Step<T>>, id: nat, topics: seq<string>)
    ensures
      var r, r' := After(blocking, steps), After(blocking, steps + [SubscribeStep(id, topics)]);
      && id in r'.now.entries
      && (forall topic :: topic in r'.now.entries[id].topics <==> topic in TopicsOf(r.now, id) || topic in topics)
      && r'.now.entries[id].channel == ChannelOf(r.now, id)
      && OthersKept(r.now, r'.now, id) && r'.accepted == r.accepted && r'.done == r.done
  {
    AfterMore(blocking, steps, SubscribeStep(id, topics));
    hide After;
  }

  /** From a subscribe step on, blocking delivery brings the subscriber every message delivered on each of the topics,
      exactly once and in order, behind what it had heard. */
  lemma SubscribersHearAll<T>(steps: seq<Step<T>>, id: nat, topics: seq<string>, topic: string, more: seq<Step<T>>)
    requires topic in topics
    ensures
      var before := After(true, steps);
      HeardAllSince(After(true, steps + [SubscribeStep(id, topics)] + more), id, topic,
                    OnTopic(ChannelOf(before.now, id), topic), |before.done|)
  {
    var joined := steps + [SubscribeStep(id, topics)];
    SubscribeExact(true, steps, id, topics);
    assert (joined + more)[..|joined|] == joined;
    BlockingMissesNothing(joined + more, |joined|, id, topic);
  }

  /** After every run, an unsubscribe step, whatever topics it names, forgets its subscriber if it holds no topic, and
      else changes nothing. */
  lemma UnsubscribeExact<T>(blocking: bool, steps: seq<Step<T>>, id: nat, topics: seq<string>)
    ensures
      var r, r' := After(blocking, steps), After(blocking, steps + [UnsubscribeStep(id, topics)]);
      && Get(r'.now.entries, id) == (if TopicsOf(r.now, id) == {} then None else Get(r.now.entries, id))
      && OthersKept(r.now, r'.now, id) && r'.accepted == r.accepted && r'.done == r.done
  {
    AfterMore(blocking, steps, UnsubscribeStep(id, topics));
    hide After;
  }

  /** After every run, a delivery appends the message in hand to the channels of those whose own set holds its topic,
      all of them or those with room; it changes no set of topics, and no one comes or goes. */
  lemma DeliverExact<T>(blocking: bool, steps: seq<Step<T>>, rooms: set<nat>, m: Message<T>)
    requires After(blocking, steps).now.current == Some(m)
    ensures
      var r, r' := After(blocking, steps), After(blocking, steps + [DeliverStep(rooms)]);
      && r'.now.entries.Keys == r.now.entries.Keys
      && (forall id :: id in r.now.entries ==>
            && r'.now.entries[id].topics == r.now.entries[id].topics
            && r'.now.entries[id].channel ==
               r.now.entries[id].channel
               + if m.topic in r.now.entries[id].topics && (blocking || id in rooms) then [m] else [])
      && r'.now.stream == r.now.stream && r'.now.current == None
      && r'.accepted == r.accepted && r'.done == r.done + [m]
  {
    AfterMore(blocking, steps, DeliverStep(rooms));
    AlwaysInverse(blocking, steps);
    var s := After(blocking, steps).now;
    hide After;
    assert Listed(s.index, m.topic) == Audience(s.entries, m.topic);
    DeliveredAt(s.index, s.entries, m, blocking, rooms);
    hide Inverse, Delivered;
  }

  // ----- unsubscribing -----

  /** A subscriber holds none of the given topics, or, when none is given, none at all. */
  ghost predicate HoldsNone<T>(s: State<T>, id: nat, topics: seq<string>) {
    id in s.entries ==> s.entries[id].topics * (if topics == [] then s.entries[id].topics else Elements(topics)) == {}
  }

  /** Contrary to its comment, Unsubscribe ends no subscription: afterwards the subscriber holds none of the
      topics exactly when it held none of them before. */
  lemma UnsubscribeKeepsTopics<T>(blocking: bool, r: Run<T>, id: nat, topics: seq<string>)
    ensures
      var after := Next(blocking, r, UnsubscribeStep(id, topics));
      && (HoldsNone(after.now, id, topics) <==> HoldsNone(r.now, id, topics))
      && (forall other, topic :: Holds(after.now, other, topic) <==> Holds(r.now, other, topic))
      && after.now.index == r.now.index
  {
    if id in r.now.entries && r.now.entries[id].topics == {} {
      assert HoldsNone(r.now, id, topics);
    }
  }

  /** A subscriber that subscribed to a topic and unsubscribed from it still gets its messages. */
  lemma StillServed<T>(m: Message<T>)
    ensures
      var steps := [SubscribeStep(1, [m.topic]), UnsubscribeStep(1, [m.topic]), PublishStep(true, [m], [true]),
          TakeStep, DeliverStep({})];
      var s := After(true, steps).now;
      1 in s.entries && s.entries[1].channel == [m]
  {
    var t0: seq<Step<T>> := [];
    var t1 := t0 + [SubscribeStep(1, [m.topic])];
    var t2 := t1 + [UnsubscribeStep(1, [m.topic])];
    var t3 := t2 + [PublishStep(true, [m], [true])];
    var t4 := t3 + [TakeStep];
    AfterMore(true, t0, SubscribeStep(1, [m.topic]));
    OneTopic(m.topic);
    var served := After(true, t1).now;
    assert {} + {m.topic} == {m.topic};
    assert Holding(Fresh<T>(map[], 1), 1, {m.topic}) == map[1 := Entry({m.topic}, [])];
    assert served == State(map[m.topic := {1}], map[1 := Entry({m.topic}, [])], [], None);
    AfterMore(true, t1, UnsubscribeStep(1, [m.topic]));
    AfterMore(true, t2, PublishStep(true, [m], [true]));
    assert After(true, t3).now == served.(stream := [m]);
    AfterMore(true, t3, TakeStep);
    assert After(true, t4).now == served.(current := Some(m));
    AfterMore(true, t4, DeliverStep({}));
    assert t4 + [DeliverStep({})] == [SubscribeStep(1, [m.topic]), UnsubscribeStep(1, [m.topic]),
        PublishStep(true, [m], [true]), TakeStep, DeliverStep({})];
  }

  lemma OneTopic(topic: string)
    ensures AllIndexed(map[], 1, [topic]) == map[topic := {1}] && Elements([topic]) == {topic}
  {
    var topics := [topic];
    assert topics[..0] == [];
    assert Listed(map[], topic) + {1} == {1};
    assert topics[0] in Elements(topics);
  }

  // ----- the hub -----

  class Subscriber<T> {
    const id: nat
    var topics: set<string>
    /** All messages the channel accepted; those already read are its first ones. */
    var channel: seq<Message<T>>

    constructor (id: nat)
      ensures this.id == id && topics == {} && channel == []
    {
      this.id := id;
      topics, channel := {}, [];
    }

    ghost function View(): Entry<T>
      reads this
    {
      Entry(topics, channel)
    }

    /** Waits for the channel when `blocking`, else leaves the message out when there is no room. */
    method Put(message: Message<T>, blocking: bool, room: bool)
      modifies this`channel
      ensures channel == old(channel) + if blocking || room then [message] else []
    {
      if blocking || room {
        channel := channel + [message];
      }
    }

    method Subscribe(topic: string)
      modifies this`topics
      ensures topics == old(topics) + {topic}
    {
      topics := topics + {topic};
    }

    method Unsubscribe(topic: string)
      modifies this`topics
      ensures topics == old(topics) - {topic}
    {
      topics := topics - {topic};
    }

    /** The topics, in whatever order the set yields them. */
    method Subscriptions() returns (listed: seq<string>)
      ensures Elements(listed) == topics
    {
      listed := [];
      var todo := topics;
      while todo != {}
        invariant todo <= topics && Elements(listed) == topics - todo
        decreases todo
      {
        var topic :| topic in todo;
        todo := todo - {topic};
        assert Elements(listed + [topic]) == Elements(listed) + {topic};
        listed := listed + [topic];
      }
    }
  }

  class Hub<T> {
    var subscriptions: Index
    var subscribers: map<nat, Subscriber<T>>
    var stream: seq<Message<T>>
    var current: Option<Message<T>>

    ghost function Entries(): Entries<T>
      reads this, subscribers.Values
    {
      map id | id in subscribers :: subscribers[id].View()
    }

    ghost function View(): State<T>
      reads this, subscribers.Values
    {
      State(subscriptions, Entries(), stream, current)
    }

    ghost predicate Valid()
      reads this, subscribers.Values
    {
      && (forall id :: id in subscribers ==> subscribers[id].id == id)
      && Inverse(subscriptions, Entries())
    }

    constructor ()
      ensures Valid() && View() == State(map[], map[], [], None)
    {
      subscriptions, subscribers, stream, current := map[], map[], [], None;
      new;
      assert forall topic :: Audience(Entries(), topic) == {};
    }

    /** The subscriber with this id, created when there is none. */
    method Find(id: nat) returns (r: Subscriber<T>)
      requires Valid()
      modifies this`subscribers
      ensures Valid() && id in subscribers && r == subscribers[id]
      ensures fresh(subscribers.Values - old(subscribers.Values))
      ensures Entries() == Fresh(old(Entries()), id)
    {
      InverseFresh(subscriptions, Entries(), id);
      if id in subscribers {
        r := subscribers[id];
      } else {
        r := new Subscriber(id);
        subscribers := subscribers[id := r];
      }
      hide Inverse;
      assert Entries() == Fresh(old(Entries()), id);
    }

    /** Enters one topic in both indexes. */
    method Enter(r: Subscriber<T>, topic: string)
      requires r.id in subscribers && subscribers[r.id] == r
      requires forall id :: id in subscribers ==> subscribers[id].id == id
      modifies this`subscriptions, r`topics
      ensures subscriptions == Indexed(old(subscriptions), r.id, topic)
      ensures Entries() == Holding(old(Entries()), r.id, {topic})
    {
      if topic !in subscriptions {
        subscriptions := subscriptions[topic := {}];
      }
      subscriptions := subscriptions[topic := subscriptions[topic] + {r.id}];
      r.Subscribe(topic);
    }

    method Subscribe(id: nat, topics: seq<string>) returns (r: Subscriber<T>)
      requires Valid()
      modifies this, subscribers.Values
      ensures Valid() && View() == Joined(old(View()), id, topics)
      ensures id in subscribers && r == subscribers[id]
    {
      hide Inverse, Holding, Indexed;
      ghost var index, before := subscriptions, Fresh(Entries(), id);
      r := Find(id);
      HoldingNone(before, id, topics);
      var i := 0;
      label L:
      while i < |topics|
        invariant 0 <= i <= |topics| && subscribers == old@L(subscribers)
        invariant stream == old(stream) && current == old(current)
        invariant subscriptions == AllIndexed(index, id, topics[..i])
        invariant Entries() == Holding(before, id, Elements(topics[..i]))
      {
        hide AllIndexed, Fresh;
        IndexedMore(index, id, topics, i);
        HoldingMore(before, id, topics, i);
        Enter(r, topics[i]);
        i := i + 1;
      }
      assert topics[..i] == topics;
      InverseJoined(index, before, id, topics);
    }
  
    /** One turn of the loop over the topics: the guard skips a topic that is subscribed, and for one that is
        not there is nothing to remove. */
    method Leave(r: Subscriber<T>, topic: string)
      requires Valid() && r.id in subscribers && subscribers[r.id] == r
      modifies this`subscriptions, r`topics
      ensures Valid() && View() == old(View())
    {
      hide Inverse;
      if topic !in r.topics {
        NothingToRemove(subscriptions, Entries(), r.id, topic);
        r.Unsubscribe(topic);
        if topic in subscriptions {
          subscriptions := subscriptions[topic := subscriptions[topic] - {r.id}];
        }
        if |Listed(subscriptions, topic)| == 0 {
          subscriptions := subscriptions - {topic};
        }
      }
      assert r.topics == old(r.topics) && subscriptions == old(subscriptions);
      assert Entries() == old(Entries());
    }

    method Unsubscribe(id: nat, topics: seq<string>)
      requires Valid()
      modifies this, subscribers.Values
      ensures Valid() && View() == Forgotten(old(View()), id)
    {
      hide Inverse;
      if id !in subscribers {
        return;
      }
      var r := subscribers[id];
      var listed := topics;
      if topics == [] {
        listed := r.Subscriptions();
      }
      var i := 0;
      while i < |listed|
        invariant Valid() && View() == old(View()) && subscribers == old(subscribers)
      {
        Leave(r, listed[i]);
        i := i + 1;
      }
      InverseForgotten(View(), id);
      if |r.topics| == 0 {
        subscribers := subscribers - {id};
      }
      assert Entries() == Forgotten(old(View()), id).entries;
    }

    /** Counts the subscribers reached, and puts on the stream what it takes; `room` tells for each message
        whether the stream has room. */
    method Publish(blocking: bool, messages: seq<Message<T>>, room: seq<bool>) returns (count: nat)
      requires Valid() && |room| == |messages|
      modifies this`stream
      ensures stream == old(stream) + Accepted(subscriptions, blocking, messages, room)
      ensures count == Reach(Entries(), blocking, messages)
    {
      hide Inverse, Accepted, Reach;
      ghost var entries := Entries();
      count := 0;
      var i := 0;
      assert messages[0..] == messages && room[0..] == room;
      NothingPublished(subscriptions, entries, blocking);
      while i < |messages|
        invariant 0 <= i <= |messages|
        invariant stream + Accepted(subscriptions, blocking, messages[i..], room[i..])
               == old(stream) + Accepted(subscriptions, blocking, messages, room)
        invariant count + Reach(entries, blocking, messages[i..]) == Reach(entries, blocking, messages)
      {
        hide Audience, Listed;
        var message := messages[i];
        PublishOne(subscriptions, entries, blocking, messages[i..], room[i..]);
        assert messages[i..][1..] == messages[i + 1..] && room[i..][1..] == room[i + 1..];
        if message.topic in subscriptions {
          count := count + |subscriptions[message.topic]|;
          if blocking {
            stream := stream + [message];
            break;
          }
          if room[i] {
            stream := stream + [message];
          }
        }
        i := i + 1;
      }
      assert Entries() == entries;
    }

    /** The streaming loop receives the next message. */
    method Take()
      requires Valid() && current.None? && stream != []
      modifies this`stream, this`current
      ensures Valid()
      ensures View() == old(View()).(stream := old(stream)[1..], current := Some(old(stream)[0]))
    {
      current, stream := Some(stream[0]), stream[1..];
    }

    /** The streaming loop hands its message to the listed subscribers, in whatever order the set yields them. */
    method Deliver(blocking: bool, room: set<nat>)
      requires Valid() && current.Some?
      modifies this`current, subscribers.Values
      ensures Valid()
      ensures
        var after := Delivered(subscriptions, old(Entries()), old(current).value, blocking, room);
        View() == old(View()).(entries := after, current := None)
    {
      hide Inverse;
      var message := current.value;
      ghost var before := Entries();
      InverseDelivered(subscriptions, before, message, blocking, room);
      current := None;
      assert Entries() == before;
      HandOver(message, blocking, room);
    }

    /** The loop over the listed subscribers. */
    method HandOver(message: Message<T>, blocking: bool, room: set<nat>)
      requires forall id :: id in subscribers ==> subscribers[id].id == id
      modifies subscribers.Values
      ensures Entries() == Delivered(subscriptions, old(Entries()), message, blocking, room)
    {
      ghost var before := Entries();
      ghost var after := Delivered(subscriptions, before, message, blocking, room);
      DeliveredAt(subscriptions, before, message, blocking, room);
      ghost var listed := Listed(subscriptions, message.topic);
      hide Delivered;
      if message.topic in subscriptions {
        var todo := subscriptions[message.topic];
        assert todo == listed;
        hide Listed;
        while todo != {}
          invariant todo <= listed
          invariant forall id :: id in subscribers ==>
                    subscribers[id].View() == if id in todo then before[id] else after[id]
          decreases todo
        {
          var id :| id in todo;
          todo := todo - {id};
          if id in subscribers {
            subscribers[id].Put(message, blocking, id in room);
          }
        }
      }
      assert Entries() == after;
    }
  }

  /** Delivery, subscriber by subscriber. */
  lemma DeliveredAt<T>(index: Index, entries: Entries<T>, m: Message<T>, blocking: bool, room: set<nat>)
    ensures
      var after := Delivered(index, entries, m, blocking, room);
      && after.Keys == entries.Keys
      && forall id :: id in entries ==>
           && (id !in Listed(index, m.topic) ==> after[id] == entries[id])
           && (id in Listed(index, m.topic) ==>
                 after[id] == entries[id].(channel := entries[id].channel + if blocking || id in room then [m] else []))
  {
  }

  /** The number of (message, subscriber) pairs of a Publish: of all messages, or with blocking of those up to
      the first that has a subscriber. */
  ghost function Reach<T>(entries: Entries<T>, blocking: bool, messages: seq<Message<T>>): nat {
    Pairs(entries, if blocking then messages[..UpToFirstHeard(entries, messages)] else messages)
  }

  lemma NothingToRemove<T>(index: Index, entries: Entries<T>, id: nat, topic: string)
    requires Inverse(index, entries) && id in entries && topic !in entries[id].topics
    ensures topic in index ==> id !in index[topic] && index[topic] != {}
    ensures topic in index ==> index[topic := index[topic] - {id}] == index
    ensures topic !in index ==> index - {topic} == index
  {
    assert Listed(index, topic) == Audience(entries, topic);
    if topic in index {
      assert index[topic] - {id} == index[topic];
    }
  }

  lemma NothingPublished<T>(index: Index, entries: Entries<T>, blocking: bool)
    ensures Accepted<T>(index, blocking, [], []) == [] && Reach(entries, blocking, []) == 0
  {
  }

  lemma {:induction false} AcceptedBlocking<T>(index: Index, entries: Entries<T>, messages: seq<Message<T>>,
      room: seq<bool>)
    requires Inverse(index, entries) && |room| == |messages|
    ensures
      var n := UpToFirstHeard(entries, messages);
      Accepted(index, true, messages, room) ==
      if n > 0 && Audience(entries, messages[n - 1].topic) != {} then [messages[n - 1]] else []
  {
    if messages != [] {
      PublishOne(index, entries, true, messages, room);
      assert messages[0].topic in index <==> Audience(entries, messages[0].topic) != {};
      hide Inverse, Audience, Accepted, Reach;
      AcceptedBlocking(index, entries, messages[1..], room[1..]);
    }
  }

  /** The message has a subscriber and finds room. */
  predicate HeardWithRoom<T>(entries: Entries<T>, messages: seq<Message<T>>, room: seq<bool>, i: nat) {
    i < |messages| && i < |room| && room[i] && Audience(entries, messages[i].topic) != {}
  }

  /** `taken` are the messages at the positions `picks`, which climb and are just those with a subscriber and room. */
  ghost predicate PicksOut<T>(entries: Entries<T>, messages: seq<Message<T>>, room: seq<bool>, taken: seq<Message<T>>,
                              picks: seq<nat>)
  {
    && |taken| == |picks|
    && (forall j :: 0 <= j < |picks| ==> picks[j] < |messages| && taken[j] == messages[picks[j]])
    && (forall j, l :: 0 <= j < l < |picks| ==> picks[j] < picks[l])
    && (forall i :: HeardWithRoom(entries, messages, room, i) <==> i in picks)
  }

  function Shifted(picks: seq<nat>): (r: seq<nat>)
    ensures |r| == |picks| && forall j :: 0 <= j < |r| ==> r[j] == picks[j] + 1
  {
    seq(|picks|, j requires 0 <= j < |picks| => picks[j] + 1)
  }

  lemma InShifted(picks: seq<nat>, i: nat)
    ensures i in Shifted(picks) <==> i > 0 && i - 1 in picks
  {
    if i > 0 && i - 1 in picks {
      var j :| 0 <= j < |picks| && picks[j] == i - 1;
      assert Shifted(picks)[j] == i;
    }
  }

  lemma PicksMore<T>(entries: Entries<T>, messages: seq<Message<T>>, room: seq<bool>, rest: seq<Message<T>>,
      picks: seq<nat>)
    requires messages != [] && |room| == |messages| && PicksOut(entries, messages[1..], room[1..], rest, picks)
    ensures
      if HeardWithRoom(entries, messages, room, 0)
      then PicksOut(entries, messages, room, [messages[0]] + rest, [0] + Shifted(picks))
      else PicksOut(entries, messages, room, rest, Shifted(picks))
  {
    var shifted := Shifted(picks);
    forall i: nat
      ensures i in shifted <==> i > 0 && HeardWithRoom(entries, messages, room, i)
    {
      InShifted(picks, i);
      assert i > 0 ==> (HeardWithRoom(entries, messages[1..], room[1..], i - 1) <==>
          HeardWithRoom(entries, messages, room, i));
    }
    hide HeardWithRoom, Shifted;
    assert forall i: nat :: i in [0] + shifted <==> i == 0 || i in shifted;
  }

  /** Without blocking, just the messages that have a subscriber and find room are taken, each once, in order. */
  lemma {:induction false} AcceptedRoom<T>(index: Index, entries: Entries<T>, messages: seq<Message<T>>,
      room: seq<bool>)
    returns (picks: seq<nat>)
    requires Inverse(index, entries) && |room| == |messages|
    ensures PicksOut(entries, messages, room, Accepted(index, false, messages, room), picks)
  {
    if messages == [] {
      picks := [];
    } else {
      var m0 := messages[0];
      PublishOne(index, entries, false, messages, room);
      assert m0.topic in index <==> Audience(entries, m0.topic) != {};
      var before := AcceptedRoom(index, entries, messages[1..], room[1..]);
      var rest := Accepted(index, false, messages[1..], room[1..]);
      assert HeardWithRoom(entries, messages, room, 0) <==> m0.topic in index && room[0];
      hide Inverse, Accepted, Reach, Audience, PicksOut, HeardWithRoom;
      PicksMore(entries, messages, room, rest, before);
      picks := if m0.topic in index && room[0] then [0] + Shifted(before) else Shifted(before);
      assert [] + rest == rest;
    }
  }

  /** What a Publish puts on the stream: with blocking just the first message that has a subscriber, and without
      blocking just those messages that have one and find room, each once, in order. */
  lemma AcceptedExact<T>(index: Index, entries: Entries<T>, blocking: bool, messages: seq<Message<T>>, room: seq<bool>)
    requires Inverse(index, entries) && |room| == |messages|
    ensures
      var n := UpToFirstHeard(entries, messages);
      blocking ==>
        && (forall i :: 0 <= i < n - 1 ==> Audience(entries, messages[i].topic) == {})
        && Accepted(index, blocking, messages, room) ==
           if n > 0 && Audience(entries, messages[n - 1].topic) != {} then [messages[n - 1]] else []
    ensures !blocking ==>
      exists picks :: PicksOut(entries, messages, room, Accepted(index, blocking, messages, room), picks)
  {
    if blocking {
      AcceptedBlocking(index, entries, messages, room);
      NoneBefore(entries, messages);
    } else {
      var picks := AcceptedRoom(index, entries, messages, room);
    }
  }

  /** No message before the first that is heard has a subscriber, and if none is heard, none has. */
  lemma {:induction false} NoneBefore<T>(entries: Entries<T>, messages: seq<Message<T>>)
    ensures
      var n := UpToFirstHeard(entries, messages);
      && (forall i :: 0 <= i < n - 1 ==> Audience(entries, messages[i].topic) == {})
      && (n > 0 && Audience(entries, messages[n - 1].topic) == {} ==> n == |messages|)
      && (n == 0 ==> messages == [])
  {
    if messages != [] && Audience(entries, messages[0].topic) == {} {
      var rest, n := messages[1..], UpToFirstHeard(entries, messages[1..]);
      NoneBefore(entries, rest);
      assert forall i :: 0 < i < |messages| ==> messages[i] == rest[i - 1];
    }
  }

  /** After every run, a publish step with room told for each message puts on the stream what is accepted, behind what
      waits, and changes nothing else. */
  lemma PublishExact<T>(blocking: bool, steps: seq<Step<T>>, b: bool, messages: seq<Message<T>>, room: seq<bool>)
    requires |room| == |messages|
    ensures
      var r, r' := After(blocking, steps), After(blocking, steps + [PublishStep(b, messages, room)]);
      && r.now.stream <= r'.now.stream && r.accepted <= r'.accepted
      && r'.now == r.now.(stream := r'.now.stream) && r'.done == r.done
      && var taken := r'.now.stream[|r.now.stream|..];
      && r'.accepted == r.accepted + taken
      && (b ==> if taken == [] then NoneHeard(r.now.entries, messages, |messages|)
                else exists i: nat :: FirstHeard(r.now.entries, messages, i) && taken == [messages[i]])
      && (!b ==> exists picks :: PicksOut(r.now.entries, messages, room, taken, picks))
  {
    AfterMore(blocking, steps, PublishStep(b, messages, room));
    AlwaysInverse(blocking, steps);
    var r := After(blocking, steps);
    hide After;
    var taken := Accepted(r.now.index, b, messages, room);
    assert (r.now.stream + taken)[|r.now.stream|..] == taken;
    AcceptedExact(r.now.index, r.now.entries, b, messages, room);
    NoneBefore(r.now.entries, messages);
    var n := UpToFirstHeard(r.now.entries, messages);
    if n > 0 && Audience(r.now.entries, messages[n - 1].topic) != {} {
      assert FirstHeard(r.now.entries, messages, n - 1);
    } else {
      assert NoneHeard(r.now.entries, messages, |messages|);
    }
    hide Inverse, PicksOut, Accepted, Audience;
  }

  /** None of the first `n` messages has a subscriber. */
  ghost predicate NoneHeard<T>(entries: Entries<T>, messages: seq<Message<T>>, n: nat) {
    n <= |messages| && forall i :: 0 <= i < n ==> Audience(entries, messages[i].topic) == {}
  }

  ghost predicate FirstHeard<T>(entries: Entries<T>, messages: seq<Message<T>>, i: nat) {
    i < |messages| && Audience(entries, messages[i].topic) != {} && NoneHeard(entries, messages, i)
  }

  /** The count of a blocking Publish: nothing if no message has a subscriber, else the subscribers of the first that
      has any. */
  lemma {:induction false} ReachOfFirst<T>(entries: Entries<T>, messages: seq<Message<T>>, i: nat)
    ensures NoneHeard(entries, messages, |messages|) ==> Reach(entries, true, messages) == 0
    ensures FirstHeard(entries, messages, i) ==>
            Reach(entries, true, messages) == |Audience(entries, messages[i].topic)|
  {
    if messages != [] {
      var rest, n := messages[1..], UpToFirstHeard(entries, messages);
      assert forall j :: 0 < j < |messages| ==> messages[j] == rest[j - 1];
      if Audience(entries, messages[0].topic) == {} {
        ReachOfFirst(entries, rest, if i > 0 then i - 1 else 0);
        assert messages[..n][1..] == rest[..n - 1];
        assert i > 0 && FirstHeard(entries, messages, i) ==> FirstHeard(entries, rest, i - 1);
      } else {
        assert messages[..1][1..] == [];
        assert FirstHeard(entries, messages, i) ==> i == 0;
        assert Pairs(entries, messages[..1]) ==
            |Audience(entries, messages[0].topic)| + Pairs(entries, messages[..1][1..]);
      }
    }
  }

  lemma PublishOne<T>(index: Index, entries: Entries<T>, blocking: bool, messages: seq<Message<T>>, room: seq<bool>)
    requires Inverse(index, entries) && messages != [] && |room| == |messages|
    ensures
      var topic := messages[0].topic;
      && (topic in index ==> index[topic] == Audience(entries, topic))
      && Accepted(index, blocking, messages, room)
         == (if topic in index && (blocking || room[0]) then [messages[0]] else [])
            + (if topic in index && blocking then [] else Accepted(index, blocking, messages[1..], room[1..]))
      && Reach(entries, blocking, messages)
         == (if topic in index then |index[topic]| else 0)
            + (if topic in index && blocking then 0 else Reach(entries, blocking, messages[1..]))
  {
    var topic := messages[0].topic;
    assert Listed(index, topic) == Audience(entries, topic);
    if blocking {
      var n := UpToFirstHeard(entries, messages);
      if topic in index {
        assert n == 1 && messages[..1][1..] == [];
        assert Pairs(entries, messages[..1]) == |Audience(entries, topic)| + Pairs(entries, messages[..1][1..]);
      } else {
        assert messages[..n][1..] == messages[1..][..n - 1];
      }
    }
  }

  lemma HoldingNone<T>(entries: Entries<T>, id: nat, topics: seq<string>)
    requires id in entries
    ensures Holding(entries, id, Elements(topics[..0])) == entries
  {
    assert entries[id].topics + Elements(topics[..0]) == entries[id].topics;
  }

  lemma IndexedMore(index: Index, id: nat, topics: seq<string>, n: nat)
    requires n < |topics|
    ensures AllIndexed(index, id, topics[..n + 1]) == Indexed(AllIndexed(index, id, topics[..n]), id, topics[n])
  {
    assert topics[..n + 1][..n] == topics[..n];
  }
}
