/** The broker as a state machine over values: the registered topics, the
    registered subscriptions and the pending messages of each subscription,
    with one step per request and the properties the dispatcher keeps. */
module BrokerSpec {
  import opened Wrappers
  import opened Subscriptions
  import opened Messages
  import opened LinkedLists
  import opened SubscriptionManagers
  import opened Protocol

  const AlreadySubscribed := "OK|Ya estaba suscrito a este tema"
  const SubscribeDone := "OK|Suscripción realizada con éxito"
  const NotSubscribed := "ERROR|No está suscrito a este tema"
  const UnsubscribeDone := "OK|Desuscripción realizada con éxito"
  const NoSuchTopic := "ERROR|El tema no existe"
  const NoSubscribers := "OK|No hay suscriptores para este tema"
  const PublishDone := "OK|Mensaje publicado con éxito"
  const NoMessages := "ERROR|No hay mensajes disponibles"

  /** The three registries: topics in creation order, subscriptions in
      registration order, and each queue's messages, oldest first. */
  datatype State = State(
    topics: seq<string>,
    subscriptions: seq<Subscription>,
    queues: map<Subscription, seq<Message>>)

  /** A step's new state and the answer sent back to the client. */
  datatype Outcome = Outcome(state: State, response: string)

  /** The state of a freshly started broker. */
  function Initial(): State
  {
    State([], [], map[])
  }

  /** What every reachable state satisfies: no topic or subscription twice, a
      subscription is registered exactly when its queue exists, and every
      subscription's topic exists. */
  ghost predicate Inv(st: State)
  {
    && NoDup(st.topics)
    && NoDup(st.subscriptions)
    && (forall s :: s in st.subscriptions <==> s in st.queues)
    && (forall s :: s in st.subscriptions ==> s.topicName in st.topics)
  }

  /** The answer to a successful RECEIVE of `m`: its content and its
      sender, printed with `show`. */
  function Delivered(m: Message, show: Guid -> string): string
  {
    "OK|" + m.content + "|" + show(m.sender)
  }

  /** SUBSCRIBE: a new pair creates its topic when missing, is registered and
      gets an empty queue; a registered pair changes nothing. */
  function SubscribeStep(st: State, appId: Guid, topicName: string): Outcome
  {
    var s := Subscription(appId, topicName);
    if s in st.subscriptions then Outcome(st, AlreadySubscribed)
    else
      Outcome(State(
        if topicName in st.topics then st.topics else st.topics + [topicName],
        st.subscriptions + [s],
        if s in st.queues then st.queues else st.queues[s := []]),
        SubscribeDone)
  }

  /** UNSUBSCRIBE: a registered pair loses its registration and its queue;
      the topic stays. */
  function UnsubscribeStep(st: State, appId: Guid, topicName: string): Outcome
  {
    var s := Subscription(appId, topicName);
    if s !in st.subscriptions then Outcome(st, NotSubscribed)
    else Outcome(State(st.topics, RemoveFirst(st.subscriptions, s), st.queues - {s}), UnsubscribeDone)
  }

  /** `m` appended to the queue of each of `targets` that has one, in the
      order of `targets`. */
  function Deliver(q: map<Subscription, seq<Message>>, targets: seq<Subscription>, m: Message): map<Subscription, seq<Message>>
  {
    if targets == [] then q
    else
      var before := Deliver(q, targets[..|targets| - 1], m);
      var s := targets[|targets| - 1];
      if s in before then before[s := before[s] + [m]] else before
  }

  /** PUBLISH: an unknown topic is an error; with no subscriber nothing is
      queued; otherwise each subscriber of the topic receives the message. */
  function PublishStep(st: State, topicName: string, content: string, sender: Guid): Outcome
  {
    if topicName !in st.topics then Outcome(st, NoSuchTopic)
    else
      var targets := Select(st.subscriptions, ByTopic(topicName));
      if targets == [] then Outcome(st, NoSubscribers)
      else Outcome(st.(queues := Deliver(st.queues, targets, Message(content, sender))), PublishDone)
  }

  /** RECEIVE: an unregistered pair is an error, so is an empty or missing
      queue; otherwise the oldest message is taken off and answered. */
  function ReceiveStep(st: State, appId: Guid, topicName: string, show: Guid -> string): Outcome
  {
    var s := Subscription(appId, topicName);
    if s !in st.subscriptions then Outcome(st, NotSubscribed)
    else if s !in st.queues || st.queues[s] == [] then Outcome(st, NoMessages)
    else Outcome(st.(queues := st.queues[s := st.queues[s][1..]]), Delivered(st.queues[s][0], show))
  }

  /** One request: decoding errors are answered without any change, decoded
      requests go to their step. */
  function ProcessStep(st: State, message: string, parse: string -> Option<Guid>, show: Guid -> string): Outcome
  {
    match Decode(message, parse)
    case Error(e) => Outcome(st, e)
    case Ok(Request(command, appId, topicName)) =>
      match command
      case Subscribe => SubscribeStep(st, appId, topicName)
      case Unsubscribe => UnsubscribeStep(st, appId, topicName)
      case Publish(content, sender) => PublishStep(st, topicName, content, sender)
      case Receive => ReceiveStep(st, appId, topicName, show)
  }

  /** The initial state satisfies the invariant. */
  lemma InitialInv()
    ensures Inv(Initial())
  {
  }

  /** Delivering to duplicate-free targets keeps the set of queues and
      appends `m` exactly once to each target's queue, leaving every other
      queue as it was. */
  lemma {:induction false} DeliverEffect(q: map<Subscription, seq<Message>>, targets: seq<Subscription>, m: Message)
    requires NoDup(targets)
    ensures Deliver(q, targets, m).Keys == q.Keys
    ensures forall s :: s in q ==> Deliver(q, targets, m)[s] == if s in targets then q[s] + [m] else q[s]
  {
    if targets != [] {
      var front := targets[..|targets| - 1];
      var last := targets[|targets| - 1];
      assert NoDup(front) by {
        forall i, j | 0 <= i < j < |front| ensures front[i] != front[j] {
          assert front[i] == targets[i] && front[j] == targets[j];
        }
      }
      assert last !in front by {
        forall i | 0 <= i < |front| ensures front[i] != last {
          assert front[i] == targets[i];
        }
      }
      DeliverEffect(q, front, m);
      assert targets == front + [last];
    }
  }

  /** Subscribing keeps the invariant. */
  lemma SubscribePreservesInv(st: State, appId: Guid, topicName: string)
    requires Inv(st)
    ensures Inv(SubscribeStep(st, appId, topicName).state)
  {
    var s := Subscription(appId, topicName);
    if s !in st.subscriptions {
      NoDupAppend(st.subscriptions, [s]);
      if topicName !in st.topics {
        NoDupAppend(st.topics, [topicName]);
      }
    }
  }

  /** Unsubscribing keeps the invariant. */
  lemma UnsubscribePreservesInv(st: State, appId: Guid, topicName: string)
    requires Inv(st)
    ensures Inv(UnsubscribeStep(st, appId, topicName).state)
  {
    RemoveFirstNoDup(st.subscriptions, Subscription(appId, topicName));
  }

  /** Publishing keeps the invariant. */
  lemma PublishPreservesInv(st: State, topicName: string, content: string, sender: Guid)
    requires Inv(st)
    ensures Inv(PublishStep(st, topicName, content, sender).state)
  {
    SelectNoDup(st.subscriptions, ByTopic(topicName));
    DeliverEffect(st.queues, Select(st.subscriptions, ByTopic(topicName)), Message(content, sender));
  }

  /** Receiving keeps the invariant. */
  lemma ReceivePreservesInv(st: State, appId: Guid, topicName: string, show: Guid -> string)
    requires Inv(st)
    ensures Inv(ReceiveStep(st, appId, topicName, show).state)
  {
  }

  /** Every request keeps the invariant, so it holds in every state the
      broker reaches from Initial. */
  lemma ProcessPreservesInv(st: State, message: string, parse: string -> Option<Guid>, show: Guid -> string)
    requires Inv(st)
    ensures Inv(ProcessStep(st, message, parse, show).state)
  {
    match Decode(message, parse)
    case Error(_) =>
    case Ok(Request(command, appId, topicName)) =>
      match command
      case Subscribe => SubscribePreservesInv(st, appId, topicName);
      case Unsubscribe => UnsubscribePreservesInv(st, appId, topicName);
      case Publish(content, sender) => PublishPreservesInv(st, topicName, content, sender);
      case Receive => ReceivePreservesInv(st, appId, topicName, show);
  }

  /** A request that does not decode is answered with its error and changes
      nothing: too few fields, a bad application id, a PUBLISH without
      content, an unknown command. */
  lemma MalformedChangesNothing(st: State, message: string, parse: string -> Option<Guid>, show: Guid -> string)
    requires Decode(message, parse).Error?
    ensures ProcessStep(st, message, parse, show) == Outcome(st, Decode(message, parse).message)
    ensures Decode(message, parse).message in {InvalidFormat, InvalidAppId, InvalidPublish, UnknownCommand}
  {
  }

  /** Subscribing twice is subscribing once: the second request answers that
      the pair was already subscribed and changes nothing. */
  lemma SubscribeIdempotent(st: State, appId: Guid, topicName: string)
    ensures var once := SubscribeStep(st, appId, topicName).state;
      SubscribeStep(once, appId, topicName) == Outcome(once, AlreadySubscribed)
  {
  }

  /** Subscribing a new pair under the invariant registers it, gives it an
      empty queue and makes its topic exist, and touches nothing else. */
  lemma SubscribeNew(st: State, appId: Guid, topicName: string)
    requires Inv(st) && Subscription(appId, topicName) !in st.subscriptions
    ensures var after := SubscribeStep(st, appId, topicName).state;
      var s := Subscription(appId, topicName);
      && after.subscriptions == st.subscriptions + [s]
      && after.queues == st.queues[s := []]
      && topicName in after.topics
      && (forall t :: t in after.topics <==> t in st.topics || t == topicName)
  {
  }

  /** Unsubscribing a registered pair removes its registration and its queue
      with all pending messages; the topic and every other subscription and
      queue stay. */
  lemma UnsubscribeRemoves(st: State, appId: Guid, topicName: string)
    requires Inv(st) && Subscription(appId, topicName) in st.subscriptions
    ensures var after := UnsubscribeStep(st, appId, topicName).state;
      var s := Subscription(appId, topicName);
      && s !in after.subscriptions && s !in after.queues
      && after.topics == st.topics
      && (forall x :: x != s ==> (x in after.subscriptions <==> x in st.subscriptions))
      && (forall x :: x != s && x in st.queues ==> x in after.queues && after.queues[x] == st.queues[x])
  {
    RemoveFirstNoDup(st.subscriptions, Subscription(appId, topicName));
  }

  /** Publishing to an existing topic with subscribers, under the
      invariant, appends the message once to the queue of each subscriber
      of that topic and leaves every other queue as it was; a missing topic
      or no subscriber changes nothing. */
  lemma PublishFansOut(st: State, topicName: string, content: string, sender: Guid)
    requires Inv(st)
    ensures var o := PublishStep(st, topicName, content, sender);
      && o.state.topics == st.topics && o.state.subscriptions == st.subscriptions
      && o.state.queues.Keys == st.queues.Keys
      && (topicName !in st.topics ==> o == Outcome(st, NoSuchTopic))
      && (topicName in st.topics && (forall s :: s in st.subscriptions ==> s.topicName != topicName) ==>
            o == Outcome(st, NoSubscribers))
      && (forall s :: s in st.queues ==>
            o.state.queues[s] ==
              if o.response == PublishDone && s.topicName == topicName then st.queues[s] + [Message(content, sender)]
              else st.queues[s])
  {
    var targets := Select(st.subscriptions, ByTopic(topicName));
    SelectMembers(st.subscriptions, ByTopic(topicName));
    SelectNoDup(st.subscriptions, ByTopic(topicName));
    DeliverEffect(st.queues, targets, Message(content, sender));
    if topicName in st.topics && targets != [] {
      assert targets[0] in targets;
    }
  }

  /** Receiving answers the oldest pending message and removes exactly it;
      nothing else changes. */
  lemma ReceiveOldest(st: State, appId: Guid, topicName: string, show: Guid -> string)
    requires Inv(st)
    ensures var s := Subscription(appId, topicName);
      var o := ReceiveStep(st, appId, topicName, show);
      && (s !in st.subscriptions ==> o == Outcome(st, NotSubscribed))
      && (s in st.subscriptions && st.queues[s] == [] ==> o == Outcome(st, NoMessages))
      && (s in st.subscriptions && st.queues[s] != [] ==>
            && o.response == Delivered(st.queues[s][0], show)
            && [st.queues[s][0]] + o.state.queues[s] == st.queues[s]
            && o.state.queues == st.queues[s := o.state.queues[s]]
            && o.state.topics == st.topics && o.state.subscriptions == st.subscriptions)
  {
  }

  /** Publishing on the topic of a registered subscription succeeds and
      appends the message to that subscription's queue, keeping the
      invariant and the registration. */
  lemma PublishReaches(st: State, s: Subscription, m: Message)
    requires Inv(st) && s in st.subscriptions
    ensures var p := PublishStep(st, s.topicName, m.content, m.sender);
      && p.response == PublishDone
      && Inv(p.state) && s in p.state.subscriptions
      && p.state.queues[s] == st.queues[s] + [m]
  {
    PublishFansOut(st, s.topicName, m.content, m.sender);
    SelectMembers(st.subscriptions, ByTopic(s.topicName));
    assert s in Select(st.subscriptions, ByTopic(s.topicName));
    PublishPreservesInv(st, s.topicName, m.content, m.sender);
  }

  /** Two receives on a queue holding exactly m1 and m2 answer m1, then m2,
      and empty the queue. */
  lemma ReceiveTwice(st: State, s: Subscription, m1: Message, m2: Message, show: Guid -> string)
    requires Inv(st) && s in st.subscriptions && st.queues[s] == [m1, m2]
    ensures var r1 := ReceiveStep(st, s.appId, s.topicName, show);
      var r2 := ReceiveStep(r1.state, s.appId, s.topicName, show);
      && r1.response == Delivered(m1, show)
      && r2.response == Delivered(m2, show)
      && s in r2.state.queues && r2.state.queues[s] == []
  {
    var r1 := ReceiveStep(st, s.appId, s.topicName, show);
    assert r1.state.queues[s] == [m2] && s in r1.state.subscriptions;
  }

  /** Messages come out in the order they were published: with a subscriber
      whose queue is empty, publishing m1 then m2 on its topic and receiving
      twice answers m1 and then m2, and leaves the queue empty again. */
  lemma ReceiveInPublishOrder(st: State, appId: Guid, topicName: string, m1: Message, m2: Message, show: Guid -> string)
    requires Inv(st)
    requires Subscription(appId, topicName) in st.subscriptions
    requires st.queues[Subscription(appId, topicName)] == []
    ensures var p1 := PublishStep(st, topicName, m1.content, m1.sender);
      var p2 := PublishStep(p1.state, topicName, m2.content, m2.sender);
      var r1 := ReceiveStep(p2.state, appId, topicName, show);
      var r2 := ReceiveStep(r1.state, appId, topicName, show);
      && r1.response == Delivered(m1, show)
      && r2.response == Delivered(m2, show)
      && Subscription(appId, topicName) in r2.state.queues
      && r2.state.queues[Subscription(appId, topicName)] == []
  {
    var s := Subscription(appId, topicName);
    PublishReaches(st, s, m1);
    var p1 := PublishStep(st, topicName, m1.content, m1.sender);
    PublishReaches(p1.state, s, m2);
    var p2 := PublishStep(p1.state, topicName, m2.content, m2.sender);
    assert p2.state.queues[s] == [m1, m2];
    ReceiveTwice(p2.state, s, m1, m2, show);
  }

  /** First in, first out for any queue: when a subscription's queue already
      holds messages, a PUBLISH on its topic followed by a RECEIVE delivers
      the oldest waiting message and leaves the rest followed by the new
      one. */
  lemma PublishThenReceiveOldest(st: State, s: Subscription, m: Message, show: Guid -> string)
    requires Inv(st) && s in st.subscriptions && st.queues[s] != []
    ensures var p := PublishStep(st, s.topicName, m.content, m.sender);
      var r := ReceiveStep(p.state, s.appId, s.topicName, show);
      && r.response == Delivered(st.queues[s][0], show)
      && s in r.state.queues
      && r.state.queues[s] == st.queues[s][1..] + [m]
  {
    PublishReaches(st, s, m);
    var p := PublishStep(st, s.topicName, m.content, m.sender);
    ReceiveOldest(p.state, s.appId, s.topicName, show);
    assert p.state.queues[s][0] == st.queues[s][0];
    var r := ReceiveStep(p.state, s.appId, s.topicName, show);
    assert r.state.queues[s] == p.state.queues[s][1..];
    assert p.state.queues[s][1..] == st.queues[s][1..] + [m];
  }

  /** From a fresh broker, the client requests to subscribe, publish and
      receive on one topic answer as expected and deliver the published
      content attributed to the publisher. */
  lemma SubscribePublishReceive(a: Guid, b: Guid, topicName: string, content: string,
                                parse: string -> Option<Guid>, show: Guid -> string)
    requires forall g :: Separator !in show(g) && parse(show(g)) == Some(g)
    requires Separator !in topicName && Separator !in content
    ensures var o1 := ProcessStep(Initial(), Encode(Request(Subscribe, a, topicName), show), parse, show);
      var o2 := ProcessStep(o1.state, Encode(Request(Publish(content, b), b, topicName), show), parse, show);
      var o3 := ProcessStep(o2.state, Encode(Request(Receive, a, topicName), show), parse, show);
      && o1.response == SubscribeDone
      && o2.response == PublishDone
      && o3.response == Delivered(Message(content, b), show)
      && o3.state == State([topicName], [Subscription(a, topicName)], map[Subscription(a, topicName) := []])
  {
    var s := Subscription(a, topicName);
    var m := Message(content, b);
    DecodeEncode(Request(Subscribe, a, topicName), parse, show);
    var o1 := SubscribeStep(Initial(), a, topicName);
    assert o1.state == State([topicName], [s], map[s := []]);
    DecodeEncode(Request(Publish(content, b), b, topicName), parse, show);
    var o2 := PublishStep(o1.state, topicName, content, b);
    assert Select([s], ByTopic(topicName)) == [s] by {
      assert [s][..0] == [];
    }
    assert Deliver(map[s := []], [s], m) == map[s := [m]] by {
      var q: map<Subscription, seq<Message>> := map[s := []];
      assert [s][..0] == [] && Deliver(q, [], m) == q;
      assert [] + [m] == [m];
    }
    assert o2 == Outcome(State([topicName], [s], map[s := [m]]), PublishDone);
    DecodeEncode(Request(Receive, a, topicName), parse, show);
    var o3 := ReceiveStep(o2.state, a, topicName, show);
    assert o3 == Outcome(State([topicName], [s], map[s := []]), Delivered(m, show));
  }

  /** The scenario's end, from the state SubscribePublishReceive leaves: a
      second RECEIVE finds no message, UNSUBSCRIBE succeeds, and a RECEIVE
      after it is refused as not subscribed; the topic stays. */
  lemma ReceiveUnsubscribeReceive(a: Guid, topicName: string,
                                  parse: string -> Option<Guid>, show: Guid -> string)
    requires forall g :: Separator !in show(g) && parse(show(g)) == Some(g)
    requires Separator !in topicName
    ensures var st := State([topicName], [Subscription(a, topicName)], map[Subscription(a, topicName) := []]);
      var o4 := ProcessStep(st, Encode(Request(Receive, a, topicName), show), parse, show);
      var o5 := ProcessStep(o4.state, Encode(Request(Unsubscribe, a, topicName), show), parse, show);
      var o6 := ProcessStep(o5.state, Encode(Request(Receive, a, topicName), show), parse, show);
      && o4 == Outcome(st, NoMessages)
      && o5.response == UnsubscribeDone
      && o6.response == NotSubscribed
      && o6.state == State([topicName], [], map[])
  {
    var s := Subscription(a, topicName);
    var st := State([topicName], [s], map[s := []]);
    DecodeEncode(Request(Receive, a, topicName), parse, show);
    assert ReceiveStep(st, a, topicName, show) == Outcome(st, NoMessages);
    DecodeEncode(Request(Unsubscribe, a, topicName), parse, show);
    assert RemoveFirst([s], s) == [];
    var empty: map<Subscription, seq<Message>> := map[];
    assert st.queues - {s} == empty;
    var o5 := UnsubscribeStep(st, a, topicName);
    assert o5 == Outcome(State([topicName], [], map[]), UnsubscribeDone);
    assert ReceiveStep(o5.state, a, topicName, show) == Outcome(o5.state, NotSubscribed);
  }
}
