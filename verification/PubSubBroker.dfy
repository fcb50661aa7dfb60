/**
  The publish/subscribe broker. Live messages are routed by the index, retained messages by the
  scanning matcher. The access-control verdict is an input.
 */
module PubSub {
  import opened Common
  import opened Topic
  import opened Trie

  // ----- A valid filter can be read back from its index entry -----

  function PathSegments(p: Path): seq<string> {
    if p.Top? then [] else PathSegments(p.parent) + [p.seg]
  }

  function FilterOf(e: Entry): seq<string> {
    PathSegments(e.path) + if e.Hash? then ["#"] else []
  }

  lemma {:induction false} EntryKeepsFilter(p: Path, segs: seq<string>, id: nat)
    requires FilterShape(segs)
    ensures FilterOf(EntryFrom(p, segs, id)) == PathSegments(p) + segs && EntryFrom(p, segs, id).id == id
    decreases |segs|
  {
    if segs == [] {
    } else if segs[0] == "#" {
      assert segs == ["#"];
    } else {
      EntryKeepsFilter(Sub(p, segs[0]), segs[1..], id);
      assert PathSegments(p) + [segs[0]] + segs[1..] == PathSegments(p) + segs;
    }
  }

  function Join(segs: seq<string>): string
    requires segs != []
  {
    if |segs| == 1 then segs[0] else segs[0] + "/" + Join(segs[1..])
  }

  lemma {:induction false} JoinSegments(s: string, i: nat)
    requires i <= |s|
    ensures Join(SegmentsFrom(s, i)) == s[i..]
    decreases |s| - i
  {
    hide SegEnd;
    var j := SegEnd(s, i);
    if j >= |s| {
    } else {
      JoinSegments(s, j + 1);
      var rest := SegmentsFrom(s, j + 1);
      assert ([s[i..j]] + rest)[1..] == rest;
      assert s[i..] == s[i..j] + "/" + s[j + 1..];
    }
  }

  /** Distinct valid filters never share an entry. */
  lemma EntriesAreDistinct(f: string, i: nat, g: string, j: nat)
    requires ValidFilter(f) && ValidFilter(g) && EntryOf(f, i) == EntryOf(g, j)
    ensures f == g && i == j
  {
    EntryKeepsFilter(Top, Segments(f), i);
    EntryKeepsFilter(Top, Segments(g), j);
    assert [] + Segments(f) == Segments(f) && [] + Segments(g) == Segments(g);
    JoinSegments(f, 0);
    JoinSegments(g, 0);
    assert f[0..] == f && g[0..] == g;
  }

  // ----- The broker -----

  datatype Delivery = Delivery(subscriber: nat, topic: string, payload: seq<Byte>, retained: bool)

  /** A live message on `topic` reaches subscriptions to `filter`. */
  predicate Routed(filter: string, topic: string) {
    Matches(Segments(filter), Segments(topic))
  }

  /** A message retained on `topic` is replayed to a new subscription to `filter`. */
  predicate Replayed(filter: string, topic: string) {
    Scans(Segments(filter), Segments(topic))
  }

  /**
    Subscribing after a retained publish and subscribing before a live one give the same messages,
    except for filters P/# where P alone matches the whole topic: those get the live message only.
   */
  lemma RetainedDiffersFromLive(filter: string, topic: string)
    requires ValidFilter(filter) && ValidPublish(topic)
    ensures Replayed(filter, topic) ==> Routed(filter, topic)
    ensures Routed(filter, topic) && !Replayed(filter, topic) <==> ParentOnly(Segments(filter), Segments(topic))
  {
    ScanDiffersExactly(Segments(filter), Segments(topic));
    if ParentOnly(Segments(filter), Segments(topic)) {
      ParentAlsoMatches(Segments(filter), Segments(topic));
    }
  }

  lemma {:induction false} ParentAlsoMatches(filter: seq<string>, topic: seq<string>)
    requires ParentOnly(filter, topic)
    ensures Matches(filter, topic)
  {
    if filter[0] == "#" {
    } else {
      var init := filter[..|filter| - 1];
      assert init[0] == filter[0] && init[1..] == filter[1..][..|filter| - 2];
      ParentAlsoMatches(filter[1..], topic[1..]);
    }
  }

  /** Subscribers with some filter in force that matches. */
  function Recipients(subs: set<(string, nat)>, topic: string): set<nat> {
    set s | s in subs && Routed(s.0, topic) :: s.1
  }

  class PubSubBroker {
    const trie: TopicTrie
    var retained: map<string, seq<Byte>>
    /** The subscriptions in force, as subscribers asked for them. */
    ghost var subs: set<(string, nat)>

    ghost predicate Valid()
      reads this, trie, trie.nodes
    {
      && trie.Valid()
      && (forall t :: t in retained ==> ValidPublish(t))
      && (forall s :: s in subs ==> ValidFilter(s.0))
      && trie.live == Entries(subs)
    }

    constructor ()
      ensures Valid() && subs == {} && retained == map[]
    {
      trie := new TopicTrie();
      retained := map[];
      subs := {};
    }

    /** The count the index keeps is the number of filter/subscriber pairs in force. */
    lemma CountIsPairs()
      requires Valid()
      ensures trie.totalSubs == |subs|
    {
      forall s, t | s in subs && t in subs && EntryOf(s.0, s.1) == EntryOf(t.0, t.1)
        ensures s == t
      {
        EntriesAreDistinct(s.0, s.1, t.0, t.1);
      }
      ImageSize(subs);
    }

    /** A subscriber has a matching entry exactly if it has a matching filter. */
    lemma RoutedByIndex(topic: string)
      requires Valid()
      ensures Recipients(subs, topic) == set e | e in trie.live && e.Matches(Segments(topic)) :: e.id
    {
      var found := set e | e in trie.live && e.Matches(Segments(topic)) :: e.id;
      forall s | s in subs
        ensures EntryOf(s.0, s.1) in trie.live && EntryOf(s.0, s.1).id == s.1
        ensures EntryOf(s.0, s.1).Matches(Segments(topic)) <==> Routed(s.0, topic)
      {
        EntryKeepsFilter(Top, Segments(s.0), s.1);
        EntryMatches(s.0, s.1, Segments(topic));
      }
      forall id | id in found
        ensures id in Recipients(subs, topic)
      {
        var e :| e in trie.live && e.Matches(Segments(topic)) && e.id == id;
        var s :| s in subs && EntryOf(s.0, s.1) == e;
      }
    }

    /** The first lock region of a publish. */
    method MatchIndex(topic: string) returns (matched: set<nat>)
      requires Valid()
      ensures matched == Recipients(subs, topic)
    {
      matched := trie.Match(topic);
      RoutedByIndex(topic);
    }

    /** The second lock region: the subscribers are those matched in the first, whatever the index says by now. */
    method StoreAndDeliver(matched: set<nat>, topic: string, payload: seq<Byte>, retain: bool) returns (out: seq<Delivery>)
      requires Valid() && ValidPublish(topic)
      modifies this`retained
      ensures Valid()
      ensures retained == if retain then old(retained)[topic := payload] else old(retained)
      ensures OncePerSubscriber(out, matched, topic, payload)
    {
      if retain {
        retained := retained[topic := payload];
      }
      out := DeliverTo(matched, topic, payload);
    }

    /** The two regions with nothing in between. */
    method Publish(allowed: bool, topic: string, payload: seq<Byte>, retain: bool) returns (out: seq<Delivery>)
      requires Valid()
      modifies this`retained
      ensures Valid()
      ensures !(ValidPublish(topic) && allowed) ==> out == [] && retained == old(retained)
      ensures ValidPublish(topic) && allowed ==>
                && retained == (if retain then old(retained)[topic := payload] else old(retained))
                && OncePerSubscriber(out, Recipients(subs, topic), topic, payload)
    {
      var valid := IsValidPublish(topic);
      if !valid || !allowed {
        return [];
      }
      var matched := MatchIndex(topic);
      out := StoreAndDeliver(matched, topic, payload, retain);
    }

    /** The two regions of a subscribe, `Record` and `ReplayTo`, with nothing in between. */
    method Subscribe(allowed: bool, id: nat, filter: string) returns (out: seq<Delivery>)
      requires Valid()
      modifies this`subs, trie, trie.nodes
      ensures Valid() && fresh(trie.nodes - old(trie.nodes))
      ensures subs == if ValidFilter(filter) && allowed then old(subs) + {(filter, id)} else old(subs)
      ensures !(ValidFilter(filter) && allowed) ==> out == []
      ensures ValidFilter(filter) && allowed ==> OncePerTopic(out, retained, id, filter)
    {
      var valid := IsValidFilter(filter);
      if !valid || !allowed {
        return [];
      }
      Record(id, filter);
      out := ReplayTo(retained, id, filter);
    }

    method Record(id: nat, filter: string)
      requires Valid() && ValidFilter(filter)
      modifies this`subs, trie, trie.nodes
      ensures Valid() && fresh(trie.nodes - old(trie.nodes))
      ensures subs == old(subs) + {(filter, id)}
    {
      hide TopicTrie.Valid, Entries, Others;
      EntriesWith(subs, filter, id);
      var inserted := trie.Subscribe(filter, id);
      subs := subs + {(filter, id)};
    }

    /** Unlike `Subscribe`, the source does not validate here: text after a '#' is ignored. */
    method Unsubscribe(id: nat, filter: string) returns (ok: bool)
      requires Valid()
      modifies this`subs, trie, trie.nodes
      ensures Valid() && trie.nodes == old(trie.nodes)
      ensures subs == Others(old(subs), EntryOf(filter, id))
      ensures ok <==> subs != old(subs)
      ensures ValidFilter(filter) ==> subs == old(subs) - {(filter, id)}
    {
      hide TopicTrie.Valid, Entries, Others;
      EntriesWithout(subs, EntryOf(filter, id));
      ok := trie.Unsubscribe(filter, id);
      subs := Others(subs, EntryOf(filter, id));
      if ValidFilter(filter) {
        OthersOfValid(old(subs), filter, id);
      }
    }

    method DropSubscriber(id: nat) returns (n: nat)
      requires Valid()
      modifies this`subs, trie, trie.nodes
      ensures Valid() && trie.nodes == old(trie.nodes)
      ensures subs == set s | s in old(subs) && s.1 != id
      ensures n == |old(subs)| - |subs|
    {
      CountIsPairs();
      n := trie.UnsubscribeAll(id);
      forall s | s in subs
        ensures EntryOf(s.0, s.1).id == s.1
      {
        EntryKeepsFilter(Top, Segments(s.0), s.1);
      }
      subs := set s | s in subs && s.1 != id;
      assert trie.live == Entries(subs);
      CountIsPairs();
    }
  }

  // ----- Delivery lists -----

  /** One live delivery for each recipient and none besides, in some order. */
  ghost predicate OncePerSubscriber(out: seq<Delivery>, ids: set<nat>, topic: string, payload: seq<Byte>) {
    && Distinct(out)
    && (forall d :: d in out <==> d.subscriber in ids && d == Delivery(d.subscriber, topic, payload, false))
  }

  method DeliverTo(ids: set<nat>, topic: string, payload: seq<Byte>) returns (out: seq<Delivery>)
    ensures OncePerSubscriber(out, ids, topic, payload)
  {
    out := [];
    var todo := ids;
    while todo != {}
      invariant todo <= ids && OncePerSubscriber(out, ids - todo, topic, payload)
      decreases |todo|
    {
      var s :| s in todo;
      todo := todo - {s};
      out := out + [Delivery(s, topic, payload, false)];
    }
  }

  /** One replay for each retained topic the scanner matches and none besides, in some order. */
  ghost predicate OncePerTopic(out: seq<Delivery>, retained: map<string, seq<Byte>>, id: nat, filter: string) {
    && Distinct(out)
    && (forall d :: d in out <==>
          d.topic in retained && Replayed(filter, d.topic) && d == Delivery(id, d.topic, retained[d.topic], true))
  }

  method ReplayTo(retained: map<string, seq<Byte>>, id: nat, filter: string) returns (out: seq<Delivery>)
    requires ValidFilter(filter) && forall t :: t in retained ==> ValidPublish(t)
    ensures OncePerTopic(out, retained, id, filter)
  {
    out := [];
    var todo := retained.Keys;
    ghost var seen: map<string, seq<Byte>> := map[];
    while todo != {}
      invariant todo <= retained.Keys && seen == map t | t in retained && t !in todo :: retained[t]
      invariant OncePerTopic(out, seen, id, filter)
      decreases |todo|
    {
      var topic :| topic in todo;
      todo := todo - {topic};
      var matches := TopicMatches(topic, filter);
      if matches {
        out := out + [Delivery(id, topic, retained[topic], true)];
      }
      seen := seen[topic := retained[topic]];
    }
    assert seen == retained;
  }

  // ----- Subscriptions and their entries -----

  ghost function Entries(subs: set<(string, nat)>): set<Entry> {
    set s | s in subs :: EntryOf(s.0, s.1)
  }

  /** The subscriptions with another entry. */
  ghost function Others(subs: set<(string, nat)>, e: Entry): set<(string, nat)> {
    set s | s in subs && EntryOf(s.0, s.1) != e
  }

  lemma EntriesWith(subs: set<(string, nat)>, f: string, id: nat)
    ensures Entries(subs + {(f, id)}) == Entries(subs) + {EntryOf(f, id)}
  {
    assert (f, id) in subs + {(f, id)};
    forall s | s in subs
      ensures EntryOf(s.0, s.1) in Entries(subs + {(f, id)})
    {
      assert s in subs + {(f, id)};
    }
  }

  lemma EntriesWithout(subs: set<(string, nat)>, e: Entry)
    ensures Entries(Others(subs, e)) == Entries(subs) - {e}
    ensures Others(subs, e) <= subs && (e in Entries(subs) <==> Others(subs, e) != subs)
  {
    forall s | s in subs && EntryOf(s.0, s.1) != e
      ensures EntryOf(s.0, s.1) in Entries(Others(subs, e))
    {
      assert s in Others(subs, e);
    }
    if Others(subs, e) != subs {
      var s :| s in subs && s !in Others(subs, e);
    }
  }

  lemma OthersOfValid(subs: set<(string, nat)>, f: string, id: nat)
    requires ValidFilter(f) && forall s :: s in subs ==> ValidFilter(s.0)
    ensures Others(subs, EntryOf(f, id)) == subs - {(f, id)}
  {
    forall s | s in subs && EntryOf(s.0, s.1) == EntryOf(f, id)
      ensures s == (f, id)
    {
      EntriesAreDistinct(s.0, s.1, f, id);
    }
  }

  lemma {:induction false} NoEntries()
    ensures Entries({}) == {}
  {
  }

  lemma {:induction false} NotYet(rest: set<(string, nat)>, s: (string, nat))
    requires forall t :: t in rest ==> EntryOf(t.0, t.1) != EntryOf(s.0, s.1)
    ensures EntryOf(s.0, s.1) !in Entries(rest)
  {
    hide EntryOf;
  }

  lemma {:induction false} ImageSize(subs: set<(string, nat)>)
    requires forall s, t :: s in subs && t in subs && EntryOf(s.0, s.1) == EntryOf(t.0, t.1) ==> s == t
    ensures |Entries(subs)| == |subs|
  {
    hide EntryOf, Entries;
    if subs == {} {
      NoEntries();
    } else {
      var s :| s in subs;
      var rest := subs - {s};
      ImageSize(rest);
      NotYet(rest, s);
      EntriesWith(rest, s.0, s.1);
      assert rest + {(s.0, s.1)} == subs;
    }
  }
}
