/** The request dispatcher: one broker object owning the three managers,
    whose handlers update them as the steps of BrokerSpec prescribe. */
module Brokers {
  import opened Wrappers
  import opened Subscriptions
  import opened Messages
  import opened LinkedLists
  import opened TopicManagers
  import opened SubscriptionManagers
  import opened QueueManagers
  import opened Protocol
  import opened BrokerSpec

  class Broker {
    const topicManager: TopicManager
    const subscriptionManager: SubscriptionManager
    const queueManager: QueueManager
    /** The runtime's Guid parser, None where it throws. */
    const parse: string -> Option<Guid>
    /** The runtime's Guid printer. */
    const show: Guid -> string
    ghost var Repr: set<object>

    /** The managers are sound, owned by the broker and apart from each
        other. */
    ghost predicate Valid()
      reads this, Repr
    {
      && this in Repr
      && topicManager in Repr && topicManager.Repr <= Repr && this !in topicManager.Repr
      && subscriptionManager in Repr && subscriptionManager.Repr <= Repr && this !in subscriptionManager.Repr
      && queueManager in Repr && queueManager.Repr <= Repr && this !in queueManager.Repr
      && topicManager.Repr !! subscriptionManager.Repr
      && topicManager.Repr !! queueManager.Repr
      && subscriptionManager.Repr !! queueManager.Repr
      && topicManager.Valid() && subscriptionManager.Valid() && queueManager.Valid()
    }

    /** The managers' contents as a BrokerSpec state. */
    ghost function Model(): State
      reads this, topicManager, topicManager.topics, subscriptionManager,
            subscriptionManager.subscriptions, queueManager, queueManager.table
    {
      State(topicManager.Topics(), subscriptionManager.Subscriptions(), queueManager.Queues())
    }

    /** A broker with no topic, subscription or queue. */
    constructor (parse: string -> Option<Guid>, show: Guid -> string,
                 guidHash: Guid -> bv32, stringHash: string -> bv32)
      ensures Valid() && fresh(Repr) && Model() == Initial()
      ensures this.parse == parse && this.show == show
    {
      this.parse := parse;
      this.show := show;
      topicManager := new TopicManager();
      subscriptionManager := new SubscriptionManager();
      queueManager := new QueueManager(guidHash, stringHash);
      new;
      Repr := {this} + topicManager.Repr + subscriptionManager.Repr + queueManager.Repr;
    }

    /** Answers one request text, dispatching on its command as
        BrokerSpec.ProcessStep prescribes; a state meeting BrokerSpec.Inv
        still meets it afterwards. */
    method ProcessMessage(message: string) returns (response: string)
      requires Valid()
      modifies Repr
      ensures Valid() && fresh(Repr - old(Repr))
      ensures Model() == ProcessStep(old(Model()), message, parse, show).state
      ensures response == ProcessStep(old(Model()), message, parse, show).response
      ensures Inv(old(Model())) ==> Inv(Model())
    {
      response := Dispatch(message);
      if Inv(old(Model())) {
        ProcessPreservesInv(old(Model()), message, parse, show);
      }
    }

    /** The dispatch itself: splits the text, checks the field count and
        the application id, and hands the fields to the command's handler. */
    method Dispatch(message: string) returns (response: string)
      requires Valid()
      modifies Repr
      ensures Valid() && fresh(Repr - old(Repr))
      ensures Model() == ProcessStep(old(Model()), message, parse, show).state
      ensures response == ProcessStep(old(Model()), message, parse, show).response
    {
      var parts := Split(message);
      if |parts| < 3 {
        return InvalidFormat;
      }
      var command := parts[0];
      var appId := parse(parts[1]);
      if appId.None? {
        return InvalidAppId;
      }
      var topicName := parts[2];
      if command == "SUBSCRIBE" {
        response := HandleSubscribe(appId.value, topicName);
      } else if command == "UNSUBSCRIBE" {
        response := HandleUnsubscribe(appId.value, topicName);
      } else if command == "PUBLISH" {
        if |parts| < 4 {
          return InvalidPublish;
        }
        var content := parts[3];
        response := HandlePublish(topicName, content, SenderOf(parts, appId.value, parse));
      } else if command == "RECEIVE" {
        response := HandleReceive(appId.value, topicName);
      } else {
        response := UnknownCommand;
      }
    }

    /** SUBSCRIBE: registers the pair, creating its topic when missing and
        its queue, unless it is registered already. */
    method HandleSubscribe(appId: Guid, topicName: string) returns (response: string)
      requires Valid()
      modifies Repr
      ensures Valid() && fresh(Repr - old(Repr))
      ensures Model() == SubscribeStep(old(Model()), appId, topicName).state
      ensures response == SubscribeStep(old(Model()), appId, topicName).response
    {
      var subscription := Subscription(appId, topicName);
      var subscribed := subscriptionManager.IsSubscribed(subscription);
      if subscribed {
        return AlreadySubscribed;
      }
      EnsureTopic(topicName);
      Register(subscription);
      OpenQueue(subscription);
      response := SubscribeDone;
    }

    /** Creates `topicName` unless it exists. */
    method EnsureTopic(topicName: string)
      requires Valid()
      modifies Repr
      ensures Valid() && fresh(Repr - old(Repr))
      ensures Model() == old(Model()).(topics := if topicName in old(Model()).topics then old(Model()).topics
                                                 else old(Model()).topics + [topicName])
    {
      var present := topicManager.TopicExists(topicName);
      if !present {
        var _ := topicManager.CreateTopic(topicName);
        Repr := Repr + topicManager.Repr;
      }
    }

    /** Registers `subscription` unless it is registered. */
    method Register(subscription: Subscription)
      requires Valid()
      modifies Repr
      ensures Valid() && fresh(Repr - old(Repr))
      ensures Model() == old(Model()).(subscriptions :=
        if subscription in old(Model()).subscriptions then old(Model()).subscriptions
        else old(Model()).subscriptions + [subscription])
    {
      subscriptionManager.AddSubscription(subscription);
      Repr := Repr + subscriptionManager.Repr;
    }

    /** Gives `subscription` an empty queue unless it has one. */
    method OpenQueue(subscription: Subscription)
      requires Valid()
      modifies Repr
      ensures Valid() && Repr == old(Repr)
      ensures Model() == old(Model()).(queues :=
        if subscription in old(Model()).queues then old(Model()).queues
        else old(Model()).queues[subscription := []])
    {
      queueManager.CreateQueue(subscription);
    }

    /** UNSUBSCRIBE: drops the pair's registration and its queue. */
    method HandleUnsubscribe(appId: Guid, topicName: string) returns (response: string)
      requires Valid()
      modifies Repr
      ensures Valid() && fresh(Repr - old(Repr))
      ensures Model() == UnsubscribeStep(old(Model()), appId, topicName).state
      ensures response == UnsubscribeStep(old(Model()), appId, topicName).response
    {
      var subscription := Subscription(appId, topicName);
      var subscribed := subscriptionManager.IsSubscribed(subscription);
      if !subscribed {
        return NotSubscribed;
      }
      Unregister(subscription);
      CloseQueue(subscription);
      response := UnsubscribeDone;
    }

    /** Unregisters `subscription`. */
    method Unregister(subscription: Subscription)
      requires Valid()
      modifies Repr
      ensures Valid() && Repr == old(Repr)
      ensures Model() == old(Model()).(subscriptions := RemoveFirst(old(Model()).subscriptions, subscription))
    {
      var _ := subscriptionManager.RemoveSubscription(subscription);
    }

    /** Drops the queue of `subscription`. */
    method CloseQueue(subscription: Subscription)
      requires Valid()
      modifies Repr
      ensures Valid() && Repr == old(Repr)
      ensures Model() == old(Model()).(queues := old(Model()).queues - {subscription})
    {
      var _ := queueManager.RemoveQueue(subscription);
    }

    /** PUBLISH: puts one message from `sender` in the queue of every
        subscriber of `topicName`, walking a snapshot of the subscribers. */
    method HandlePublish(topicName: string, content: string, sender: Guid) returns (response: string)
      requires Valid()
      modifies Repr
      ensures Valid() && fresh(Repr - old(Repr))
      ensures Model() == PublishStep(old(Model()), topicName, content, sender).state
      ensures response == PublishStep(old(Model()), topicName, content, sender).response
    {
      var present := topicManager.TopicExists(topicName);
      if !present {
        return NoSuchTopic;
      }
      var subscriptions := subscriptionManager.GetSubscriptionsByTopic(topicName);
      if subscriptions.Count() == 0 {
        return NoSubscribers;
      }
      var messageContent := Message(content, sender);
      var snapshot := subscriptions.ToArray();
      EnqueueAll(queueManager, snapshot, messageContent);
      response := PublishDone;
    }

    /** Enqueues `message` for each subscription of `snapshot` in turn. */
    static method EnqueueAll(queueManager: QueueManager, snapshot: array<Subscription>, message: Message)
      requires queueManager.Valid() && snapshot !in queueManager.Repr
      modifies queueManager.Repr
      ensures queueManager.Valid() && queueManager.Repr == old(queueManager.Repr)
      ensures queueManager.Queues() == Deliver(old(queueManager.Queues()), snapshot[..], message)
    {
      var i := 0;
      while i < snapshot.Length
        invariant 0 <= i <= snapshot.Length
        invariant queueManager.Valid() && queueManager.Repr == old(queueManager.Repr)
        invariant queueManager.Queues() == Deliver(old(queueManager.Queues()), snapshot[..i], message)
      {
        assert snapshot[..i + 1][..i] == snapshot[..i];
        var _ := queueManager.EnqueueMessage(snapshot[i], message);
        i := i + 1;
      }
      assert snapshot[..snapshot.Length] == snapshot[..];
    }

    /** RECEIVE: answers and removes the oldest message queued for the
        pair. */
    method HandleReceive(appId: Guid, topicName: string) returns (response: string)
      requires Valid()
      modifies Repr
      ensures Valid() && fresh(Repr - old(Repr))
      ensures Model() == ReceiveStep(old(Model()), appId, topicName, show).state
      ensures response == ReceiveStep(old(Model()), appId, topicName, show).response
    {
      var subscription := Subscription(appId, topicName);
      var subscribed := subscriptionManager.IsSubscribed(subscription);
      if !subscribed {
        return NotSubscribed;
      }
      var pending := queueManager.HasMessages(subscription);
      if !pending {
        return NoMessages;
      }
      var message := queueManager.DequeueMessage(subscription);
      response := Delivered(message.value, show);
    }
  }
}
