# MQ broker — a verified model

This project models the in-memory core of a small publish/subscribe message
broker written in C#. Clients send one-line requests of `|`-separated fields
(`SUBSCRIBE|<appId>|<topic>`, `UNSUBSCRIBE|…`, `PUBLISH|<appId>|<topic>|<content>`,
`RECEIVE|<appId>|<topic>`). The broker keeps three registries and answers each
request with an `OK|…` or `ERROR|…` line. The registries are:

- a **topic manager**: the topic names, each once;
- a **subscription manager**: the `(appId, topicName)` pairs, each once, with
  queries by topic and by application;
- a **queue manager**: a hash table from each subscription to a FIFO queue of
  pending messages.

The registries sit on three hand-written containers: a singly linked FIFO
`Queue`, a singly linked `LinkedList` and a separately chained `HashTable`.

Layout, one module per file:

| file | module | what it holds |
|---|---|---|
| `wrappers.dfy` | `Wrappers` | `Option` and `Result` (an exception becomes `Error(message)`) |
| `node.dfy` | `Nodes` | the linked cell `Node` |
| `queue.dfy` | `Queues` | `Queue`: head/tail/count over cells, ghost `Contents` |
| `linked_list.dfy` | `LinkedLists` | `RemoveFirst`, `NoDup` and their lemmas; `LinkedList` over cells |
| `hash_table.dfy` | `HashTables` | `HashTable`: an array of buckets, `count`, ghost `Map`; the table invariant and its lemmas |
| `subscription.dfy` | `Subscriptions` | `Guid`, `Subscription`, `Equals`, `HashCode` |
| `message.dfy` | `Messages` | `Message(content, sender)` |
| `topic_manager.dfy` | `TopicManagers` | `TopicManager` over a `LinkedList<string>` |
| `subscription_manager.dfy` | `SubscriptionManagers` | `Select` and `SubscriptionManager` over a `LinkedList<Subscription>` |
| `queue_manager.dfy` | `QueueManagers` | `QueueManager` over a `HashTable<Subscription, seq<Message>>` |
| `protocol.dfy` | `Protocol` | `Split`/`Join`, request decoding and encoding, the round trip |
| `broker_spec.dfy` | `BrokerSpec` | the broker as a state machine over values: one step per request, the invariant, the properties |
| `broker.dfy` | `Brokers` | `Broker`: the dispatcher over the three manager objects, proved to follow `BrokerSpec` |

Every container and manager is a class. Its fields are updated in place. It has
a ghost abstraction (`Contents`, `Map`, `Topics()`, `Subscriptions()` or
`Queues()`) and a `Valid()` representation invariant. Each method's `ensures`
gives the new abstraction in terms of the old one.

The dispatcher is `Broker.ProcessMessage`. Its contract says its new state and
answer are exactly `BrokerSpec.ProcessStep` applied to the old state. The
properties the broker promises are proved as lemmas about `ProcessStep` and
its per-command steps:

- a subscription is registered exactly when its queue exists;
- a publication reaches every subscriber of its topic once;
- messages come out in publication order;
- malformed requests change nothing.

`ProcessMessage` also carries the invariant from the old state to the new one.
The constructor's state is `BrokerSpec.Initial()`, which satisfies the
invariant by `BrokerSpec.InitialInv`.

The source itself does not compile in two places, and the model resolves
both as follows:

- `HandlePublish` (`Program.cs:207-242`) reads `parts`, which is a local of
  `ProcessMessage`. The model reads the optional fifth field in the
  dispatcher (`Protocol.SenderOf`). When that field is absent or does not
  parse, the sender falls back to the requesting application.
- The message is built as `new MessageContent(content, senderAppId)` and read
  back through `SenderAppId`. `MessageContent.cs` has neither a two-argument
  constructor nor a sender property. The model's message is the datatype
  `Message(content, sender)`.

## Model

| member | source | states |
|---|---|---|
| Nodes.Node.constructor | MQBroker/DataStructures/Node.cs:25-29 | a new cell holds the value and points nowhere |
| Queues.Queue.constructor | MQBroker/DataStructures/Queue.cs:26-31 | a new queue is valid and empty |
| Queues.Queue.EndsAgree | MQBroker/DataStructures/Queue.cs:41-52 | under the representation invariant, head is null iff tail is null iff count is 0 |
| Queues.Queue.Count | MQBroker/DataStructures/Queue.cs:18-21 | count is the number of queued elements |
| Queues.Queue.Enqueue | MQBroker/DataStructures/Queue.cs:37-53 | the value is appended at the tail (so Count grows by exactly one) and the chain stays valid |
| Queues.Queue.Dequeue | MQBroker/DataStructures/Queue.cs:60-73 | an empty queue fails with "La cola está vacía" and is unchanged; otherwise the oldest element is returned and only it is removed |
| Queues.Queue.Peek | MQBroker/DataStructures/Queue.cs:80-86 | fails with the same error exactly when the queue is empty; otherwise returns the element Dequeue would return; reads only |
| Queues.Queue.IsEmpty | MQBroker/DataStructures/Queue.cs:92-95 | true iff no element is queued |
| Queues.Queue.Clear | MQBroker/DataStructures/Queue.cs:100-105 | the queue is valid and empty |
| LinkedLists.RemoveFirstAt | MQBroker/DataStructures/LinkedList.cs:87-99 | when `i` is the first position holding `x`, removing the first `x` cuts out exactly position `i` and keeps the order of the rest |
| LinkedLists.RemoveFirstCounts | MQBroker/DataStructures/LinkedList.cs:71-103 | removing an absent value changes nothing; removing a present one shortens the sequence by exactly one |
| LinkedLists.RemoveFirstMultiset | MQBroker/DataStructures/LinkedList.cs:71-103 | removal takes out one occurrence of the value and keeps every other element's multiplicity |
| LinkedLists.RemoveFirstNoDup | MQBroker/MQBrokerNamespace/SubscriptionManager.cs:64-70 | on a duplicate-free sequence, removal leaves no occurrence of the value, keeps every other element and keeps the sequence duplicate-free |
| LinkedLists.NoDupCons | MQBroker/MQBrokerNamespace/SubscriptionManager.cs:64-70 | a sequence with a first element is duplicate-free iff its tail is and does not hold that element, the step by which RemoveFirstNoDup shows that removing a subscription keeps the registry duplicate-free |
| LinkedLists.NoDupAppend | MQBroker/MQBrokerNamespace/TopicManager.cs:53-57 | appending an absent element (or any disjoint duplicate-free sequence) keeps a sequence duplicate-free |
| LinkedLists.LinkedList.constructor | MQBroker/DataStructures/LinkedList.cs:37-42 | a new list is valid and empty |
| LinkedLists.LinkedList.Count | MQBroker/DataStructures/LinkedList.cs:29-32 | count is the number of elements |
| LinkedLists.LinkedList.Add | MQBroker/DataStructures/LinkedList.cs:48-64 | the value is appended at the end (Count grows by one) and the chain stays valid |
| LinkedLists.LinkedList.Remove | MQBroker/DataStructures/LinkedList.cs:71-103 | returns true iff the value was present; the new contents are the old with the first equal element taken out, so an absent value changes nothing; tail stays the last cell |
| LinkedLists.LinkedList.UnlinkHead | MQBroker/DataStructures/LinkedList.cs:76-85 | unlinking the first cell drops the first element and clears tail when the list empties |
| LinkedLists.LinkedList.UnlinkAfter | MQBroker/DataStructures/LinkedList.cs:90-97 | unlinking the cell after position `k` drops exactly element `k + 1` and moves tail back when that cell was the last |
| LinkedLists.LinkedList.Contains | MQBroker/DataStructures/LinkedList.cs:110-121 | true iff some element equals the value; the list is not modified |
| LinkedLists.LinkedList.ToArray | MQBroker/DataStructures/LinkedList.cs:127-140 | a new array holding exactly the elements in insertion order |
| LinkedLists.LinkedList.Clear | MQBroker/DataStructures/LinkedList.cs:145-150 | the list is valid and empty |
| HashTables.BucketOf | MQBroker/DataStructures/HashTable.cs:199-202 | the absolute value of the signed hash code modulo the bucket count is a valid bucket index |
| HashTables.BucketDelete | MQBroker/DataStructures/HashTable.cs:70-74 | removing a stored pair from a bucket keeps keys unique, shortens the bucket by one and keeps exactly the pairs of other keys |
| HashTables.TableInsert | MQBroker/DataStructures/HashTable.cs:80-81 | appending the pair of a new key to its bucket keeps the table invariant for the extended map |
| HashTables.TableDelete | MQBroker/DataStructures/HashTable.cs:97-104 | removing a stored pair keeps the table invariant for the map without its key, with one pair fewer |
| HashTables.TableAdd | MQBroker/DataStructures/HashTable.cs:62-82 | insert-or-replace keeps the table invariant for `m[key := v]`; the pair count grows by one exactly when the key is new |
| HashTables.TableRemove | MQBroker/DataStructures/HashTable.cs:89-109 | removing a present key keeps the invariant for `m - {key}` with one pair fewer; an absent key changes nothing |
| HashTables.TotalSizeUpdate | MQBroker/DataStructures/HashTable.cs:80-81 | replacing one bucket changes the total pair count by that bucket's change |
| HashTables.BucketKeys | MQBroker/DataStructures/HashTable.cs:178-192 | a bucket lists each key once, and each listed key is stored and hashes to that bucket |
| HashTables.AllKeysPrefix | MQBroker/DataStructures/HashTable.cs:178-192 | the keys of the first `i` buckets, bucket after bucket, are duplicate-free, as many as their pairs, and all stored |
| HashTables.Coverage | MQBroker/DataStructures/HashTable.cs:62-82 | with as many pairs as keys, the listed keys are exactly the stored keys and each key's pair sits in the bucket its hash selects |
| HashTables.HashTable.constructor | MQBroker/DataStructures/HashTable.cs:39-41 | a new table has 16 empty buckets and stores nothing |
| HashTables.HashTable.WithCapacity | MQBroker/DataStructures/HashTable.cs:47-55 | a new table with `capacity` empty buckets stores nothing |
| HashTables.HashTable.Count | MQBroker/DataStructures/HashTable.cs:31-34 | count is the number of stored keys |
| HashTables.HashTable.GetBucketIndex | MQBroker/DataStructures/HashTable.cs:199-202 | a key's bucket is a valid index, computed from its hash code |
| HashTables.HashTable.Scan | MQBroker/DataStructures/HashTable.cs:69-78 | the bucket loop finds a pair with the key iff one is in the bucket |
| HashTables.HashTable.FindPair | MQBroker/DataStructures/HashTable.cs:117-136 | finds the stored pair of the key, in the key's bucket, iff the key is stored |
| HashTables.HashTable.Add | MQBroker/DataStructures/HashTable.cs:62-82 | the table maps the key to the new value and every other key as before; count grows by one iff the key was new; one pair per key stays the rule |
| HashTables.HashTable.Remove | MQBroker/DataStructures/HashTable.cs:89-109 | returns true iff the key was stored; the key is gone, no other key changes, and count drops by one iff it was present |
| HashTables.HashTable.TryGetValue | MQBroker/DataStructures/HashTable.cs:117-136 | the key's latest value when stored, none otherwise; reads only |
| HashTables.HashTable.ContainsKey | MQBroker/DataStructures/HashTable.cs:143-160 | true iff the key is stored, agreeing with TryGetValue; reads only |
| HashTables.HashTable.Clear | MQBroker/DataStructures/HashTable.cs:165-172 | the table stores nothing and count is 0 |
| HashTables.HashTable.GetKeys | MQBroker/DataStructures/HashTable.cs:178-192 | a new array of exactly Count keys holding each stored key once |
| HashTables.HashTable.CopyKeys | MQBroker/DataStructures/HashTable.cs:180-189 | the nested loops write the keys of every bucket, bucket after bucket, filling the array exactly |
| Subscriptions.Equals | MQBroker/MQBrokerNamespace/Subscription.cs:36-43 | two subscriptions are equal iff both their application and their topic are |
| Subscriptions.EqualsIsEquivalence | MQBroker/MQBrokerNamespace/Subscription.cs:40 | subscription equality is reflexive, symmetric and transitive |
| Subscriptions.EqualsAgreesWithHashCode | MQBroker/MQBrokerNamespace/Subscription.cs:36-52 | equal subscriptions have equal hash codes (HashCode is the XOR of Subscription.cs:52), so a subscription rebuilt from a request finds the bucket of the one stored |
| TopicManagers.TopicManager.constructor | MQBroker/MQBrokerNamespace/TopicManager.cs:20-23 | a new manager holds no topic |
| TopicManagers.TopicManager.CreateTopic | MQBroker/MQBrokerNamespace/TopicManager.cs:49-60 | returns true and appends the topic iff it was absent, else changes nothing; the topic exists afterwards; no topic is ever listed twice |
| TopicManagers.TopicManager.RemoveTopic | MQBroker/MQBrokerNamespace/TopicManager.cs:67-73 | returns true iff the topic was present; afterwards it does not exist and the others keep their order |
| TopicManagers.TopicManager.TopicExists | MQBroker/MQBrokerNamespace/TopicManager.cs:80-86 | true iff the topic is registered; reads only |
| TopicManagers.TopicManager.GetAllTopics | MQBroker/MQBrokerNamespace/TopicManager.cs:92-98 | a new array of every topic, each once, in creation order; reads only |
| SubscriptionManagers.SelectMembers | MQBroker/MQBrokerNamespace/SubscriptionManager.cs:90-129 | a subscription is selected iff it is registered and matches the topic or application asked for |
| SubscriptionManagers.SelectNoDup | MQBroker/MQBrokerNamespace/SubscriptionManager.cs:90-129 | selecting from the duplicate-free registry lists each subscription once |
| SubscriptionManagers.SubscriptionManager.constructor | MQBroker/MQBrokerNamespace/SubscriptionManager.cs:20-23 | a new manager holds no subscription |
| SubscriptionManagers.SubscriptionManager.AddSubscription | MQBroker/MQBrokerNamespace/SubscriptionManager.cs:48-57 | appends the subscription iff it is not registered (so adding twice leaves one entry); it is registered afterwards |
| SubscriptionManagers.SubscriptionManager.RemoveSubscription | MQBroker/MQBrokerNamespace/SubscriptionManager.cs:64-70 | returns true iff the subscription was registered; afterwards it is not, and the others keep their order |
| SubscriptionManagers.SubscriptionManager.IsSubscribed | MQBroker/MQBrokerNamespace/SubscriptionManager.cs:77-83 | true iff an equal pair is registered; reads only |
| SubscriptionManagers.SubscriptionManager.GetSubscriptionsByTopic | MQBroker/MQBrokerNamespace/SubscriptionManager.cs:90-106 | a fresh list of exactly the registered subscriptions to the topic, in registration order; the registry is unchanged |
| SubscriptionManagers.SubscriptionManager.GetSubscriptionsByAppId | MQBroker/MQBrokerNamespace/SubscriptionManager.cs:113-129 | a fresh list of exactly the registered subscriptions of the application, in registration order; the registry is unchanged |
| SubscriptionManagers.SubscriptionManager.Collect | MQBroker/MQBrokerNamespace/SubscriptionManager.cs:92-103 | the loop over the snapshot adds exactly the matching subscriptions, in order, to a fresh list |
| QueueManagers.QueueManager.constructor | MQBroker/MQBrokerNamespace/QueueManager.cs:20-23 | a new manager has no queue; its table hashes with the subscription hash code |
| QueueManagers.QueueManager.CreateQueue | MQBroker/MQBrokerNamespace/QueueManager.cs:48-57 | a missing queue is created empty; an existing queue and its messages are left untouched |
| QueueManagers.QueueManager.RemoveQueue | MQBroker/MQBrokerNamespace/QueueManager.cs:64-70 | returns true iff a queue existed; it is discarded with its messages and no other queue changes |
| QueueManagers.QueueManager.EnqueueMessage | MQBroker/MQBrokerNamespace/QueueManager.cs:78-89 | with a queue, appends the message to it alone and returns true; without one, returns false and changes nothing |
| QueueManagers.QueueManager.DequeueMessage | MQBroker/MQBrokerNamespace/QueueManager.cs:97-111 | a missing queue fails with "La cola no existe", an empty one with "La cola está vacía", both without change; otherwise the oldest message is returned and removed, and no other queue changes |
| QueueManagers.QueueManager.HasMessages | MQBroker/MQBrokerNamespace/QueueManager.cs:118-128 | true iff the queue exists and is non-empty; reads only |
| QueueManagers.QueueManager.GetMessageCount | MQBroker/MQBrokerNamespace/QueueManager.cs:135-145 | the queue's exact length, 0 when there is no queue; reads only |
| Protocol.Split | MQBroker/MQBrokerNamespace/Program.cs:110 | splitting on `\|` yields at least one piece |
| Protocol.SplitPieces | MQBroker/MQBrokerNamespace/Program.cs:110 | no piece holds a separator |
| Protocol.JoinSplit | MQBroker/MQBrokerNamespace/Program.cs:110 | joining the pieces with `\|` gives back the request text |
| Protocol.SplitPrefix | MQBroker/MQBrokerNamespace/Program.cs:110 | a separator-free prefix extends the first piece only |
| Protocol.SplitJoin | MQBroker/MQBrokerNamespace/Program.cs:110 | splitting separator-free fields joined with `\|` gives back the fields |
| Protocol.DecodeEncode | MQBroker/MQBrokerNamespace/Program.cs:108-150 | a request encoded as a client sends it decodes to itself, sender included, when ids print without `\|` and parse back |
| Protocol.ShortRequestRejected | MQBroker/MQBrokerNamespace/Program.cs:112-113 | a text with fewer than three fields (in particular one without `\|`) is rejected as malformed |
| BrokerSpec.InitialInv | MQBroker/MQBrokerNamespace/Program.cs:170-173 | the empty start state satisfies the invariant |
| BrokerSpec.DeliverEffect | MQBroker/MQBrokerNamespace/Program.cs:236-239 | enqueueing to a duplicate-free list of targets keeps the set of queues, appends the message once to each target's queue and leaves the others |
| BrokerSpec.SubscribePreservesInv | MQBroker/MQBrokerNamespace/Program.cs:158-176 | SUBSCRIBE keeps: no duplicate topic or subscription, registered iff queued, every subscription's topic exists |
| BrokerSpec.UnsubscribePreservesInv | MQBroker/MQBrokerNamespace/Program.cs:184-198 | UNSUBSCRIBE keeps the invariant (it removes the registration and the queue together) |
| BrokerSpec.PublishPreservesInv | MQBroker/MQBrokerNamespace/Program.cs:207-242 | PUBLISH keeps the invariant |
| BrokerSpec.ReceivePreservesInv | MQBroker/MQBrokerNamespace/Program.cs:250-266 | RECEIVE keeps the invariant |
| BrokerSpec.ProcessPreservesInv | MQBroker/MQBrokerNamespace/Program.cs:108-150 | every request, well formed or not, keeps the invariant |
| BrokerSpec.MalformedChangesNothing | MQBroker/MQBrokerNamespace/Program.cs:110-148 | a request that does not decode is answered with one of the four format errors and changes nothing |
| BrokerSpec.SubscribeIdempotent | MQBroker/MQBrokerNamespace/Program.cs:162-163 | subscribing twice answers "already subscribed" and changes nothing the second time |
| BrokerSpec.SubscribeNew | MQBroker/MQBrokerNamespace/Program.cs:166-175 | a new pair is registered, gets an empty queue, and its topic exists afterwards; nothing else is added |
| BrokerSpec.UnsubscribeRemoves | MQBroker/MQBrokerNamespace/Program.cs:188-197 | a registered pair loses its registration and queue; topics and all other subscriptions and queues stay |
| BrokerSpec.PublishFansOut | MQBroker/MQBrokerNamespace/Program.cs:210-241 | a missing topic is an error and zero subscribers answer OK, both without change; otherwise each subscriber's queue gets the message once and no other queue changes |
| BrokerSpec.ReceiveOldest | MQBroker/MQBrokerNamespace/Program.cs:255-265 | not subscribed and no messages are distinct errors without change; otherwise the answer is `OK\|content\|sender` of the oldest message, which alone is removed |
| BrokerSpec.PublishReaches | MQBroker/MQBrokerNamespace/Program.cs:233-241 | publishing on a subscriber's topic succeeds and appends the message to its queue |
| BrokerSpec.ReceiveTwice | MQBroker/MQBrokerNamespace/Program.cs:262-265 | two receives on a queue of two messages answer them in order and empty it |
| BrokerSpec.ReceiveInPublishOrder | MQBroker/MQBrokerNamespace/Program.cs:207-266 | two messages published to a subscriber with an empty queue are received in publication order |
| BrokerSpec.PublishThenReceiveOldest | MQBroker/MQBrokerNamespace/Program.cs:207-266 | for any non-empty queue of a subscriber, a PUBLISH on its topic then a RECEIVE delivers the oldest waiting message and leaves the others followed by the new one |
| BrokerSpec.SubscribePublishReceive | MQBroker/MQBrokerNamespace/Program.cs:108-266 | from a fresh broker, the encoded SUBSCRIBE, PUBLISH and RECEIVE requests answer as expected, deliver the content with its publisher and leave the topic, the subscription and its empty queue |
| BrokerSpec.ReceiveUnsubscribeReceive | MQBroker/MQBrokerNamespace/Program.cs:108-266 | from that state a second RECEIVE finds no message and changes nothing, UNSUBSCRIBE succeeds, and a RECEIVE after it is refused as not subscribed, leaving only the topic |
| Brokers.Broker.constructor | MQBroker/MQBrokerNamespace/Program.cs:30-32 | a new broker owns three fresh managers in the start state |
| Brokers.Broker.ProcessMessage | MQBroker/MQBrokerNamespace/Program.cs:108-150 | the new state and answer are exactly ProcessStep of the old state; the invariant carries over |
| Brokers.Broker.Dispatch | MQBroker/MQBrokerNamespace/Program.cs:108-150 | the split, the field-count and id checks and the command switch follow ProcessStep |
| Brokers.Broker.HandleSubscribe | MQBroker/MQBrokerNamespace/Program.cs:158-176 | the managers change and answer as SubscribeStep prescribes |
| Brokers.Broker.EnsureTopic | MQBroker/MQBrokerNamespace/Program.cs:166-167 | the topic is created iff it was missing; the other registries are untouched |
| Brokers.Broker.Register | MQBroker/MQBrokerNamespace/Program.cs:170 | the subscription is registered unless it was; the other registries are untouched |
| Brokers.Broker.OpenQueue | MQBroker/MQBrokerNamespace/Program.cs:173 | the subscription gets an empty queue unless it had one; the other registries are untouched |
| Brokers.Broker.HandleUnsubscribe | MQBroker/MQBrokerNamespace/Program.cs:184-198 | the managers change and answer as UnsubscribeStep prescribes |
| Brokers.Broker.Unregister | MQBroker/MQBrokerNamespace/Program.cs:192 | the first equal registration is removed; the other registries are untouched |
| Brokers.Broker.CloseQueue | MQBroker/MQBrokerNamespace/Program.cs:195 | the subscription's queue is dropped; the other registries are untouched |
| Brokers.Broker.HandlePublish | MQBroker/MQBrokerNamespace/Program.cs:207-242 | the managers change and answer as PublishStep prescribes |
| Brokers.Broker.EnqueueAll | MQBroker/MQBrokerNamespace/Program.cs:236-239 | the loop over the snapshot enqueues the message for each listed subscription in turn |
| Brokers.Broker.HandleReceive | MQBroker/MQBrokerNamespace/Program.cs:250-266 | the managers change and answer as ReceiveStep prescribes |

## Left out

- `Main` and `HandleClient`: the TCP listener, one thread per connection, byte buffers and console logging are I/O and concurrency. The model starts from the request text.
- The `lock` blocks and the `GetInstance` singletons exist only for concurrency. Each manager is one object, built by the broker's constructor.
- `Guid.Parse`, `Guid.ToString`, `Guid.GetHashCode` and `string.GetHashCode` are runtime functions. They are parameters: `parse` (None where `Guid.Parse` throws), `show`, `guidHash` and `stringHash`.
- `MessageContent.Timestamp` reads the wall clock and is not modelled.
- QueueManagers.QueueManager: the table stores each queue's contents as a sequence value, written back after each change, instead of a `Queue` object updated in place through an alias. The effect on the queues is the same. Aliasing and the in-place update of a stored `Queue` are not modelled. `Queue` itself is modelled and proved on its own.
- HashTables.HashTable: a bucket is the sequence of its pairs, not a `LinkedList` object. The table changes a bucket only by appending a pair, removing the first equal pair or emptying it, which are what `LinkedList.Add`, `LinkedList.Remove` and `LinkedList.Clear` promise. The bucket's cells and their links are not modelled.
- HashTables.HashTable.Add: removing the old pair of a present key matches it by key and value rather than by object identity. Keys are unique in a bucket, so this is the same pair.
- HashTables.HashTable.WithCapacity requires at least one bucket. A capacity of 0 makes every later `%` in the source throw, and the model does not give it a meaning. A negative capacity throws at the array creation (MQBroker/DataStructures/HashTable.cs:49); the parameter's type `nat` excludes it.
- HashTables.BucketOf: `Math.Abs(int.MinValue)` overflows and throws in the source. The model takes the mathematical absolute value. In the source, a subscription whose hash code is `int.MinValue` makes `CreateQueue` throw after `AddSubscription` has registered it (MQBroker/MQBrokerNamespace/Program.cs:170-173), which leaves a subscription without a queue; a later PUBLISH to its topic then stops partway through the loop over the subscribers (MQBroker/MQBrokerNamespace/Program.cs:236-239). The model has neither failure.
- Null keys (`ArgumentNullException`) and `Equals` against an object that is not a `Subscription` cannot be written in the model's types.
- 32-bit overflow of `count` fields is not modelled; counts are unbounded integers.
- HashTables.HashTable.TryGetValue returns an `Option` in place of the (found, out value) pair. The default value on a miss is not modelled.
- Broker invariant: `BrokerSpec.Inv` is not part of `Broker.Valid()`. `ProcessMessage` carries it from the old state to the new state, and the constructor starts in `Initial()`, which satisfies it. A handler called directly does not promise it.
- `RemoveTopic`, `GetAllTopics`, `GetSubscriptionsByAppId`, `GetMessageCount` and `EnqueueMessage`'s result are modelled and proved, but no request of the dispatcher uses them.
- The client, the GUI and the demo programs are not part of this model.
