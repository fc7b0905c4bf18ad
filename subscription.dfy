/** A subscription of one application to one topic, with the equality and
    hash code the broker's containers use to find it. */
module Subscriptions {
  /** A 128-bit application identifier. */
  datatype Guid = Guid(bits: bv128)

  /** Application `appId` subscribed to topic `topicName`. */
  datatype Subscription = Subscription(appId: Guid, topicName: string)

  /** Two subscriptions are equal when both their application and their topic
      are; this is the equality the lists and the table use to find them. */
  function Equals(a: Subscription, b: Subscription): (r: bool)
    ensures r <==> a == b
  {
    a.appId == b.appId && a.topicName == b.topicName
  }

  /** The hash code: the identifier's hash XOR the topic name's hash. Both
      component hashes belong to the runtime and are parameters here. */
  function HashCode(s: Subscription, guidHash: Guid -> bv32, stringHash: string -> bv32): bv32
  {
    guidHash(s.appId) ^ stringHash(s.topicName)
  }

  /** Equals is an equivalence relation. */
  lemma EqualsIsEquivalence(a: Subscription, b: Subscription, c: Subscription)
    ensures Equals(a, a)
    ensures Equals(a, b) ==> Equals(b, a)
    ensures Equals(a, b) && Equals(b, c) ==> Equals(a, c)
  {
  }

  /** Equal subscriptions have equal hash codes, so a subscription built anew
      from the same application and topic lands in the same bucket. */
  lemma EqualsAgreesWithHashCode(a: Subscription, b: Subscription, guidHash: Guid -> bv32, stringHash: string -> bv32)
    requires Equals(a, b)
    ensures HashCode(a, guidHash, stringHash) == HashCode(b, guidHash, stringHash)
  {
  }
}
