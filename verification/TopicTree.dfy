/**
 Publish and subscribe: every topic knows its subscribers and every subscriber its topics, and both
 sides are changed in place. The relation they stand for is `Rel()`.
 */
module TopicTrees {

  class Subscriber {
    var topics: set<Topic>

    constructor ()
      ensures topics == {}
    {
      topics := {};
    }
  }

  class Topic {
    const name: string
    var subscribers: set<Subscriber>

    constructor (name: string)
      ensures this.name == name && subscribers == {}
    {
      this.name := name;
      subscribers := {};
    }
  }

  class TopicTree {
    var topics: map<string, Topic>
    ghost var live: set<Subscriber>  // created and not freed

    /** Both indexes hold the same pairs, under the right names. */
    ghost predicate Indexed()
      reads this, live, topics.Values
    {
      && (forall n | n in topics :: topics[n].name == n && topics[n].subscribers <= live)
      && (forall s | s in live :: s.topics <= topics.Values)
      && (forall s, n | s in live && n in topics :: s in topics[n].subscribers <==> topics[n] in s.topics)
    }

    ghost predicate Valid()
      reads this, live, topics.Values
    {
      Indexed() && forall n | n in topics :: topics[n].subscribers != {}
    }

    /** Who is subscribed to what. */
    ghost function Rel(): set<(Subscriber, string)>
      reads this, topics.Values
    {
      set n, s | n in topics && s in topics[n].subscribers :: (s, n)
    }

    constructor ()
      ensures Valid() && Rel() == {} && live == {}
    {
      topics := map[];
      live := {};
    }

    method CreateSubscriber() returns (s: Subscriber)
      requires Valid()
      modifies this`live
      ensures Valid() && fresh(s) && live == old(live) + {s} && Rel() == old(Rel())
    {
      s := new Subscriber();
      live := live + {s};
    }

    /** Looks the topic up, or adds it without subscribers. */
    method TopicFor(topic: string) returns (t: Topic)
      requires Valid()
      modifies this`topics
      ensures Indexed() && Rel() == old(Rel())
      ensures topic in topics && topics[topic] == t && topics == old(topics)[topic := t]
      ensures topic in old(topics) || (fresh(t) && t.subscribers == {})
    {
      if topic in topics {
        t := topics[topic];
        assert topics == topics[topic := t];
      } else {
        t := new Topic(topic);
        topics := topics[topic := t];
        assert forall x | x in old(topics.Values) :: x in topics.Values by {
          forall x | x in old(topics.Values)
            ensures x in topics.Values
          {
            var n :| n in old(topics) && old(topics)[n] == x;
            assert topics[n] == x;
          }
        }
        assert forall s | s in live :: t !in s.topics;
      }
    }

    /** Enters a pair in both indexes. */
    method Link(s: Subscriber, t: Topic)
      requires Indexed() && s in live && t.name in topics && topics[t.name] == t
      modifies s, t
      ensures Indexed() && Rel() == old(Rel()) + {(s, t.name)}
      ensures t.subscribers == old(t.subscribers) + {s} && s.topics == old(s.topics) + {t}
    {
      s.topics := s.topics + {t};
      t.subscribers := t.subscribers + {s};
      assert forall n | n in topics && topics[n] == t :: n == t.name;
    }

    /** Takes a pair out of both indexes. */
    method Unlink(s: Subscriber, t: Topic)
      requires Indexed() && s in live && t.name in topics && topics[t.name] == t
      modifies s, t
      ensures Indexed() && Rel() == old(Rel()) - {(s, t.name)}
      ensures t.subscribers == old(t.subscribers) - {s} && s.topics == old(s.topics) - {t}
    {
      s.topics := s.topics - {t};
      t.subscribers := t.subscribers - {s};
      assert forall n | n in topics && topics[n] == t :: n == t.name;
    }

    /** Forgets a topic without subscribers. */
    method Forget(topic: string)
      requires Indexed() && topic in topics && topics[topic].subscribers == {}
      modifies this`topics
      ensures Indexed() && Rel() == old(Rel())
      ensures topics == old(topics) - {topic}
    {
      ghost var t := topics[topic];
      topics := topics - {topic};
      forall s | s in live
        ensures s.topics <= topics.Values
      {
        forall x | x in s.topics
          ensures x in topics.Values
        {
          var n :| n in old(topics) && old(topics)[n] == x;
          assert n != topic;
          assert topics[n] == x;
        }
      }
    }

    /** The topic, or nothing if `s` was subscribed already. */
    method Subscribe(s: Subscriber, topic: string) returns (r: Topic?)
      requires Valid() && s in live
      modifies this`topics, s, topics.Values
      ensures Valid() && live == old(live)
      ensures Rel() == old(Rel()) + {(s, topic)}
      ensures r == null <==> (s, topic) in old(Rel())
      ensures r != null ==> topic in topics && r == topics[topic]
    {
      var t := TopicFor(topic);
      if t in s.topics {
        return null;
      }
      Link(s, t);
      return t;
    }

    /** Whether there was a subscription, whether `s` has none left, and how many the topic has left. */
    method Unsubscribe(s: Subscriber, topic: string) returns (done: bool, last: bool, newCount: int)
      requires Valid() && s in live
      modifies this`topics, s, topics.Values
      ensures Valid() && live == old(live)
      ensures Rel() == old(Rel()) - {(s, topic)}
      ensures done <==> (s, topic) in old(Rel())
      ensures !done ==> !last && newCount == -1
      ensures done ==> last == (s.topics == {})
      ensures done ==> newCount == |old(topics[topic].subscribers)| - 1
    {
      InRel(s, topic);
      hide Rel;
      if topic !in topics {
        return false, false, -1;
      }
      var t := topics[topic];
      if t !in s.topics {
        return false, false, -1;
      }
      Unlink(s, t);
      newCount := |t.subscribers|;
      if t.subscribers == {} {
        Forget(topic);
      }
      return true, s.topics == {}, newCount;
    }

    lemma InRel(s: Subscriber, topic: string)
      ensures (s, topic) in Rel() <==> topic in topics && s in topics[topic].subscribers
    {
    }

    /** All but `s` is indexed; of the topics `s` is still in, those in `todo` are left. */
    ghost predicate IndexedBut(s: Subscriber, todo: set<Topic>)
      reads this, live, topics.Values
    {
      && (forall n | n in topics :: topics[n].name == n && topics[n].subscribers <= live && topics[n].subscribers != {})
      && (forall x | x in live && x != s :: x.topics <= topics.Values)
      && (forall x, n | x in live && x != s && n in topics :: x in topics[n].subscribers <==> topics[n] in x.topics)
      && todo <= topics.Values
      && (forall n | n in topics :: s in topics[n].subscribers <==> topics[n] in todo)
    }

    /** Takes `s` out of one topic, and the topic out of the tree if `s` was its last subscriber. */
    method Leave(s: Subscriber, t: Topic, ghost todo: set<Topic>)
      requires s in live && t in todo && IndexedBut(s, todo)
      modifies this`topics, t
      ensures IndexedBut(s, todo - {t})
      ensures Rel() == old(Rel()) - {(s, t.name)}
      ensures topics.Values <= old(topics.Values)
    {
      assert t.name in topics && topics[t.name] == t by {
        var n :| n in topics && topics[n] == t;
      }
      if |t.subscribers| == 1 {
        OnlyOne(t.subscribers, s);
        ForgetLast(s, t, todo);
      } else {
        if t.subscribers == {s} {
          assert false;
        }
        t.subscribers := t.subscribers - {s};
        assert forall n | n in topics && topics[n] == t :: n == t.name;
      }
    }

    /** The topic goes with its last subscriber. */
    method ForgetLast(s: Subscriber, t: Topic, ghost todo: set<Topic>)
      requires s in live && t in todo && IndexedBut(s, todo)
      requires t.name in topics && topics[t.name] == t && t.subscribers == {s}
      modifies this`topics
      ensures IndexedBut(s, todo - {t})
      ensures Rel() == old(Rel()) - {(s, t.name)}
      ensures topics.Values <= old(topics.Values)
    {
      topics := topics - {t.name};
      forall u | u in old(topics.Values) && u != t
        ensures u in topics.Values
      {
        var n :| n in old(topics) && old(topics)[n] == u;
        assert topics[n] == u;
      }
    }

    /** The subscriber leaves all its topics and is gone. */
    method FreeSubscriber(s: Subscriber)
      requires Valid() && s in live
      modifies this`topics, this`live, s.topics
      ensures Valid() && live == old(live) - {s}
      ensures Rel() == set p | p in old(Rel()) && p.0 != s
    {
      assert IndexedBut(s, s.topics);
      LeaveAll(s);
      NoneOf(s);
      hide Rel;
      assert Rel() == set p | p in old(Rel()) && p.0 != s;
      DropIndexed(s);
    }

    /** Takes `s` out of all its topics. */
    method LeaveAll(s: Subscriber)
      requires s in live && s.topics <= topics.Values && IndexedBut(s, s.topics)
      modifies this`topics, s.topics
      ensures IndexedBut(s, {}) && live == old(live)
      ensures Rel() <= old(Rel())
      ensures forall p | p in old(Rel()) && p.0 != s :: p in Rel()
    {
      hide IndexedBut, Rel;
      var todo := s.topics;
      while todo != {}
        invariant IndexedBut(s, todo) && todo <= s.topics && s.topics == old(s.topics) && live == old(live)
        invariant Rel() <= old(Rel())
        invariant forall p | p in old(Rel()) && p.0 != s :: p in Rel()
        decreases todo
      {
        var t :| t in todo;
        Leave(s, t, todo);
        todo := todo - {t};
      }
    }

    lemma NoneOf(s: Subscriber)
      requires IndexedBut(s, {})
      ensures forall p | p in Rel() :: p.0 != s
    {
    }

    /** `s`, in no topic any more, is no longer one of the subscribers. */
    ghost method DropIndexed(s: Subscriber)
      requires s in live && IndexedBut(s, {})
      modifies this`live
      ensures live == old(live) - {s} && Valid() && Rel() == old(Rel())
    {
      live := live - {s};
    }

    /** `called` are the subscribers called back, in order. */
    method Publish(sender: Subscriber?, topic: string) returns (called: seq<Subscriber>, referenced: bool)
      requires Valid()
      ensures forall s :: s in called <==> (s, topic) in Rel() && s != sender
      ensures forall i, j | 0 <= i < j < |called| :: called[i] != called[j]
      ensures referenced <==> exists p :: p in Rel() && p.1 == topic && p.0 != sender
    {
      called := [];
      referenced := false;
      if topic !in topics {
        return;
      }
      var todo := topics[topic].subscribers;
      while todo != {}
        invariant todo <= topics[topic].subscribers
        invariant forall s :: s in called <==> s in topics[topic].subscribers && s !in todo && s != sender
        invariant forall i, j | 0 <= i < j < |called| :: called[i] != called[j]
        invariant referenced <==> called != []
        decreases todo
      {
        var s :| s in todo;
        if sender != s {
          referenced := true;
          called := called + [s];
        }
        todo := todo - {s};
      }
      if called != [] {
        assert called[0] in called;
        assert (called[0], topic) in Rel();
      }
      forall p | p in Rel() && p.1 == topic && p.0 != sender
        ensures called != []
      {
        assert p.0 in called;
      }
    }
  }

  lemma OnlyOne<T>(xs: set<T>, x: T)
    requires x in xs && |xs| == 1
    ensures xs == {x}
  {
    assert |xs - {x}| == 0;
  }
}
