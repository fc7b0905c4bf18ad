/** The registry of subscriptions, and its queries by topic and by
    application. */
module SubscriptionManagers {
  import opened Subscriptions
  import opened LinkedLists

  /** What a query selects subscriptions by. */
  datatype Selector = ByTopic(topicName: string) | ByApp(appId: Guid)

  /** Whether `s` is selected by `k`. */
  predicate Matches(s: Subscription, k: Selector)
  {
    match k
    case ByTopic(t) => s.topicName == t
    case ByApp(a) => s.appId == a
  }

  /** The subscriptions of `s` that `k` selects, in their order in `s`. */
  function Select(s: seq<Subscription>, k: Selector): seq<Subscription>
  {
    if s == [] then []
    else Select(s[..|s| - 1], k) + (if Matches(s[|s| - 1], k) then [s[|s| - 1]] else [])
  }

  /** A subscription is selected exactly when it is registered and matches. */
  lemma {:induction false} SelectMembers(s: seq<Subscription>, k: Selector)
    ensures forall x :: x in Select(s, k) <==> x in s && Matches(x, k)
  {
    if s != [] {
      SelectMembers(s[..|s| - 1], k);
      assert s == s[..|s| - 1] + [s[|s| - 1]];
    }
  }

  /** Selecting from a duplicate-free registry lists each subscription once. */
  lemma {:induction false} SelectNoDup(s: seq<Subscription>, k: Selector)
    requires NoDup(s)
    ensures NoDup(Select(s, k))
  {
    if s != [] {
      var front := s[..|s| - 1];
      assert NoDup(front) by {
        forall i, j | 0 <= i < j < |front| ensures front[i] != front[j] {
          assert front[i] == s[i] && front[j] == s[j];
        }
      }
      assert s[|s| - 1] !in front by {
        forall i | 0 <= i < |front| ensures front[i] != s[|s| - 1] {
          assert front[i] == s[i];
        }
      }
      SelectNoDup(front, k);
      SelectMembers(front, k);
      NoDupAppend(Select(front, k), if Matches(s[|s| - 1], k) then [s[|s| - 1]] else []);
    }
  }

  /** The subscriptions, kept in a linked list in registration order, each
      once. */
  class SubscriptionManager {
    const subscriptions: LinkedList<Subscription>
    ghost var Repr: set<object>

    /** The list is sound, owned by this manager, and holds no subscription
        twice. */
    ghost predicate Valid()
      reads this, Repr
    {
      && this in Repr
      && subscriptions in Repr && subscriptions.Repr <= Repr && this !in subscriptions.Repr
      && subscriptions.Valid()
      && NoDup(subscriptions.Contents)
    }

    /** The subscriptions, in registration order. */
    ghost function Subscriptions(): seq<Subscription>
      reads this, subscriptions
    {
      subscriptions.Contents
    }

    constructor ()
      ensures Valid() && fresh(Repr) && Subscriptions() == []
    {
      subscriptions := new LinkedList();
      new;
      Repr := {this} + subscriptions.Repr;
    }

    /** Registers `subscription` unless it is registered already. */
    method AddSubscription(subscription: Subscription)
      requires Valid()
      modifies Repr
      ensures Valid() && fresh(Repr - old(Repr))
      ensures Subscriptions() == if subscription in old(Subscriptions()) then old(Subscriptions())
                                 else old(Subscriptions()) + [subscription]
      ensures subscription in Subscriptions()
    {
      var present := IsSubscribed(subscription);
      if !present {
        NoDupAppend(subscriptions.Contents, [subscription]);
        subscriptions.Add(subscription);
        Repr := Repr + subscriptions.Repr;
      }
    }

    /** Unregisters `subscription`; answers whether it was registered.
        Afterwards it is not, and the others keep their order. */
    method RemoveSubscription(subscription: Subscription) returns (removed: bool)
      requires Valid()
      modifies Repr
      ensures Valid() && Repr == old(Repr)
      ensures removed <==> subscription in old(Subscriptions())
      ensures Subscriptions() == RemoveFirst(old(Subscriptions()), subscription)
      ensures subscription !in Subscriptions()
    {
      RemoveFirstNoDup(subscriptions.Contents, subscription);
      removed := subscriptions.Remove(subscription);
    }

    /** Whether `subscription` is registered. */
    method IsSubscribed(subscription: Subscription) returns (b: bool)
      requires Valid()
      ensures b <==> subscription in Subscriptions()
    {
      b := subscriptions.Contains(subscription);
    }

    /** A new list of the subscriptions to `topicName`, in registration
        order. */
    method GetSubscriptionsByTopic(topicName: string) returns (result: LinkedList<Subscription>)
      requires Valid()
      ensures fresh(result.Repr) && result.Valid()
      ensures result.Contents == Select(Subscriptions(), ByTopic(topicName))
    {
      var snapshot := subscriptions.ToArray();
      result := Collect(snapshot, ByTopic(topicName));
    }

    /** A new list of the subscriptions of application `appId`, in
        registration order. */
    method GetSubscriptionsByAppId(appId: Guid) returns (result: LinkedList<Subscription>)
      requires Valid()
      ensures fresh(result.Repr) && result.Valid()
      ensures result.Contents == Select(Subscriptions(), ByApp(appId))
    {
      var snapshot := subscriptions.ToArray();
      result := Collect(snapshot, ByApp(appId));
    }

    /** Walks a snapshot of the registry, adding each subscription `k`
        selects to a new list. */
    static method Collect(snapshot: array<Subscription>, k: Selector) returns (result: LinkedList<Subscription>)
      ensures fresh(result.Repr) && result.Valid()
      ensures result.Contents == Select(snapshot[..], k)
    {
      result := new LinkedList();
      var i := 0;
      while i < snapshot.Length
        invariant 0 <= i <= snapshot.Length
        invariant fresh(result.Repr) && result.Valid()
        invariant result.Contents == Select(snapshot[..i], k)
      {
        assert snapshot[..i + 1][..i] == snapshot[..i];
        var subscription := snapshot[i];
        if Matches(subscription, k) {
          result.Add(subscription);
        }
        i := i + 1;
      }
      assert snapshot[..snapshot.Length] == snapshot[..];
    }
  }
}
