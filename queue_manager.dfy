/** The per-subscription message queues, kept in a hash table keyed by
    subscription. */
module QueueManagers {
  import opened Wrappers
  import opened Subscriptions
  import opened Messages
  import opened Queues
  import opened HashTables

  /** Message of the exception DequeueMessage throws for an unknown
      subscription. */
  const MissingQueue := "La cola no existe"

  /** The table from each subscription to the messages waiting for it,
      oldest first. */
  class QueueManager {
    const table: HashTable<Subscription, seq<Message>>
    ghost var Repr: set<object>

    /** The table is sound and owned by this manager. */
    ghost predicate Valid()
      reads this, Repr
    {
      && Repr == {this, table, table.buckets}
      && table.Valid()
    }

    /** The pending messages of each subscription that has a queue. */
    ghost function Queues(): map<Subscription, seq<Message>>
      reads this, table
    {
      table.Map
    }

    /** An empty manager whose table hashes a subscription with
        Subscriptions.HashCode over the given component hashes. */
    constructor (guidHash: Guid -> bv32, stringHash: string -> bv32)
      ensures Valid() && fresh(Repr) && Queues() == map[]
      ensures forall s :: table.hash(s) == HashCode(s, guidHash, stringHash)
    {
      table := new HashTable(s => HashCode(s, guidHash, stringHash));
      new;
      Repr := {this, table, table.buckets};
    }

    /** Gives `subscription` an empty queue unless it has one already. */
    method CreateQueue(subscription: Subscription)
      requires Valid()
      modifies Repr
      ensures Valid() && Repr == old(Repr)
      ensures Queues() == if subscription in old(Queues()) then old(Queues())
                          else old(Queues())[subscription := []]
    {
      var present := table.ContainsKey(subscription);
      if !present {
        table.Add(subscription, []);
      }
    }

    /** Drops the queue of `subscription`; answers whether there was one. */
    method RemoveQueue(subscription: Subscription) returns (removed: bool)
      requires Valid()
      modifies Repr
      ensures Valid() && Repr == old(Repr)
      ensures removed <==> subscription in old(Queues())
      ensures Queues() == old(Queues()) - {subscription}
    {
      removed := table.Remove(subscription);
    }

    /** Appends `message` to the queue of `subscription`; answers whether
        there was a queue. No other queue changes. */
    method EnqueueMessage(subscription: Subscription, message: Message) returns (enqueued: bool)
      requires Valid()
      modifies Repr
      ensures Valid() && Repr == old(Repr)
      ensures enqueued <==> subscription in old(Queues())
      ensures Queues() == if enqueued then old(Queues())[subscription := old(Queues())[subscription] + [message]]
                          else old(Queues())
    {
      var found := table.TryGetValue(subscription);
      if found.Some? {
        table.Add(subscription, found.value + [message]);
        return true;
      }
      return false;
    }

    /** Removes and returns the oldest message of `subscription`'s queue;
        fails, changing nothing, when there is no queue or it is empty. */
    method DequeueMessage(subscription: Subscription) returns (r: Result<Message>)
      requires Valid()
      modifies Repr
      ensures Valid() && Repr == old(Repr)
      ensures subscription !in old(Queues()) ==> r == Error(MissingQueue) && Queues() == old(Queues())
      ensures subscription in old(Queues()) && old(Queues())[subscription] == [] ==>
                r == Error(EmptyQueue) && Queues() == old(Queues())
      ensures subscription in old(Queues()) && old(Queues())[subscription] != [] ==>
                && r == Ok(old(Queues())[subscription][0])
                && Queues() == old(Queues())[subscription := old(Queues())[subscription][1..]]
    {
      var found := table.TryGetValue(subscription);
      if found.None? {
        return Error(MissingQueue);
      }
      var queue := found.value;
      if queue == [] {
        return Error(EmptyQueue);
      }
      table.Add(subscription, queue[1..]);
      r := Ok(queue[0]);
    }

    /** Whether `subscription` has a queue holding at least one message. */
    method HasMessages(subscription: Subscription) returns (b: bool)
      requires Valid()
      ensures b <==> subscription in Queues() && Queues()[subscription] != []
    {
      var found := table.TryGetValue(subscription);
      if found.Some? {
        return found.value != [];
      }
      return false;
    }

    /** The length of `subscription`'s queue, 0 when it has none. */
    method GetMessageCount(subscription: Subscription) returns (n: int)
      requires Valid()
      ensures n == if subscription in Queues() then |Queues()[subscription]| else 0
    {
      var found := table.TryGetValue(subscription);
      if found.Some? {
        return |found.value|;
      }
      return 0;
    }
  }
}
