/** The registry of topic names. */
module TopicManagers {
  import opened LinkedLists

  /** The topics, kept in a linked list in creation order, each name once. */
  class TopicManager {
    const topics: LinkedList<string>
    ghost var Repr: set<object>

    /** The list is sound, owned by this manager, and holds no name twice. */
    ghost predicate Valid()
      reads this, Repr
    {
      && this in Repr
      && topics in Repr && topics.Repr <= Repr && this !in topics.Repr
      && topics.Valid()
      && NoDup(topics.Contents)
    }

    /** The topic names, in creation order. */
    ghost function Topics(): seq<string>
      reads this, topics
    {
      topics.Contents
    }

    constructor ()
      ensures Valid() && fresh(Repr) && Topics() == []
    {
      topics := new LinkedList();
      new;
      Repr := {this} + topics.Repr;
    }

    /** Adds `topicName` unless it is already registered; answers whether it
        was added. */
    method CreateTopic(topicName: string) returns (created: bool)
      requires Valid()
      modifies Repr
      ensures Valid() && fresh(Repr - old(Repr))
      ensures created <==> topicName !in old(Topics())
      ensures Topics() == if created then old(Topics()) + [topicName] else old(Topics())
      ensures topicName in Topics()
    {
      var present := TopicExists(topicName);
      if !present {
        NoDupAppend(topics.Contents, [topicName]);
        topics.Add(topicName);
        Repr := Repr + topics.Repr;
        return true;
      }
      return false;
    }

    /** Removes `topicName`; answers whether it was registered. Afterwards it
        is not, and every other topic keeps its place. */
    method RemoveTopic(topicName: string) returns (removed: bool)
      requires Valid()
      modifies Repr
      ensures Valid() && Repr == old(Repr)
      ensures removed <==> topicName in old(Topics())
      ensures Topics() == RemoveFirst(old(Topics()), topicName)
      ensures topicName !in Topics()
    {
      RemoveFirstNoDup(topics.Contents, topicName);
      removed := topics.Remove(topicName);
    }

    /** Whether `topicName` is registered. */
    method TopicExists(topicName: string) returns (b: bool)
      requires Valid()
      ensures b <==> topicName in Topics()
    {
      b := topics.Contains(topicName);
    }

    /** A new array of every topic, each once, in creation order. */
    method GetAllTopics() returns (a: array<string>)
      requires Valid()
      ensures fresh(a) && a[..] == Topics()
      ensures NoDup(a[..])
    {
      a := topics.ToArray();
    }
  }
}
