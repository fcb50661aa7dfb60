/**
  The subscription index: linked nodes, one edge per filter segment, '+' on an edge of its own, and
  at each node the subscribers whose filter ends there or continues with '#'.
 */
module Trie {
  import opened Topic

  /** The edges from the root to a node. */
  datatype Path = Top | Sub(parent: Path, seg: string) {
    function Depth(): nat {
      if Top? then 0 else 1 + parent.Depth()
    }

    /** The node at `p` is this one or lies above it. */
    predicate Below(p: Path) {
      this == p || (Sub? && parent.Below(p))
    }

    /** The path spells the given topic, '+' standing for any segment. */
    predicate Spells(topic: seq<string>) {
      if Top? then topic == []
      else
        && topic != []
        && (seg == "+" || seg == topic[|topic| - 1])
        && parent.Spells(topic[..|topic| - 1])
    }
  }

  /** A subscription as the index holds it: at the node where the filter ends, or where its '#' stands. */
  datatype Entry = Exact(path: Path, id: nat) | Hash(path: Path, id: nat) {
    predicate Matches(topic: seq<string>) {
      match this
      case Exact(p, _) => p.Spells(topic)
      case Hash(p, _) => p.Depth() <= |topic| && p.Spells(topic[..p.Depth()])
    }
  }

  /** Where the rest of a filter leads from a node. Nothing after the first '#' is looked at. */
  function EntryFrom(p: Path, segs: seq<string>, id: nat): Entry
    decreases |segs|
  {
    if segs == [] then Exact(p, id)
    else if segs[0] == "#" then Hash(p, id)
    else EntryFrom(Sub(p, segs[0]), segs[1..], id)
  }

  function EntryOf(filter: string, id: nat): Entry {
    EntryFrom(Top, Segments(filter), id)
  }

  lemma {:induction false} SpellsDepth(p: Path, topic: seq<string>)
    requires p.Spells(topic)
    ensures p.Depth() == |topic|
  {
    if p.Top? {
    } else {
      SpellsDepth(p.parent, topic[..|topic| - 1]);
    }
  }

  /** An entry matches a topic exactly if its filter does, segment by segment. */
  lemma {:induction false} EntryMatchesFilter(p: Path, segs: seq<string>, id: nat, topic: seq<string>)
    ensures EntryFrom(p, segs, id).Matches(topic) <==>
            p.Depth() <= |topic| && p.Spells(topic[..p.Depth()]) && Topic.Matches(segs, topic[p.Depth()..])
    decreases |segs|
  {
    var d := p.Depth();
    if segs == [] {
      if p.Spells(topic) {
        SpellsDepth(p, topic);
        assert topic[..d] == topic;
      } else if d <= |topic| && topic[d..] == [] {
        assert topic[..d] == topic;
      }
    } else if segs[0] != "#" {
      EntryMatchesFilter(Sub(p, segs[0]), segs[1..], id, topic);
      if d < |topic| {
        assert topic[..d + 1][..d] == topic[..d] && topic[d..][1..] == topic[d + 1..];
      }
    }
  }

  lemma {:induction false} EntryMatches(filter: string, id: nat, topic: seq<string>)
    ensures EntryOf(filter, id).Matches(topic) <==> Topic.Matches(Segments(filter), topic)
  {
    EntryMatchesFilter(Top, Segments(filter), id, topic);
    assert topic[..0] == [] && topic[0..] == topic;
  }

  /** The first edge on the way down from `p` to a node below it. */
  function EdgeToward(q: Path, p: Path): string
    requires q.Below(p) && q != p
  {
    if q.parent == p then q.seg else EdgeToward(q.parent, p)
  }

  lemma {:induction false} EdgeLeadsThere(q: Path, p: Path)
    requires q.Below(p) && q != p
    ensures q.Below(Sub(p, EdgeToward(q, p)))
  {
    if q.parent == p {
    } else {
      EdgeLeadsThere(q.parent, p);
    }
  }

  lemma {:induction false} BelowParent(q: Path, p: Path, seg: string)
    requires q.Below(Sub(p, seg))
    ensures q.Below(p) && q != p && q.Depth() > p.Depth()
  {
    if q == Sub(p, seg) {
    } else {
      BelowParent(q.parent, p, seg);
    }
  }

  lemma {:induction false} BelowTop(q: Path)
    ensures q.Below(Top)
  {
    if q.Top? {
    } else {
      BelowTop(q.parent);
    }
  }

  /** A path that spells a topic spells it all the way down. */
  lemma {:induction false} SpellsAbove(q: Path, p: Path, topic: seq<string>)
    requires q.Below(p) && q.Spells(topic)
    ensures p.Depth() <= |topic| && p.Spells(topic[..p.Depth()])
  {
    if q == p {
      SpellsDepth(q, topic);
      assert topic[..|topic|] == topic;
    } else {
      var shorter := topic[..|topic| - 1];
      SpellsAbove(q.parent, p, shorter);
      assert shorter[..p.Depth()] == topic[..p.Depth()];
    }
  }

  /** An entry that matches a topic lies on a path that spells a prefix of it. */
  lemma {:induction false} MatchSpellsAbove(e: Entry, p: Path, topic: seq<string>)
    requires e.path.Below(p) && e.Matches(topic)
    ensures p.Depth() <= |topic| && p.Spells(topic[..p.Depth()])
  {
    if e.Exact? {
      SpellsAbove(e.path, p, topic);
    } else {
      var prefix := topic[..e.path.Depth()];
      SpellsAbove(e.path, p, prefix);
      assert prefix[..p.Depth()] == topic[..p.Depth()];
    }
  }

  class Node {
    var children: map<string, Node>
    var plus: Node?
    var hashSubs: set<nat>
    var exactSubs: set<nat>
    ghost const path: Path

    constructor (ghost path: Path)
      ensures children == map[] && plus == null && hashSubs == {} && exactSubs == {} && this.path == path
    {
      this.path := path;
      children := map[];
      plus := null;
      hashSubs := {};
      exactSubs := {};
    }

    function Child(seg: string): Node?
      reads this`children, this`plus
    {
      if seg == "+" then plus else if seg in children then children[seg] else null
    }

    method Attach(seg: string) returns (child: Node)
      requires Child(seg) == null && "+" !in children
      modifies this`children, this`plus
      ensures fresh(child) && child.path == Sub(path, seg)
      ensures child.children == map[] && child.plus == null && child.hashSubs == {} && child.exactSubs == {}
      ensures "+" !in children && forall x :: Child(x) == if x == seg then child else old(Child(x))
    {
      child := new Node(Sub(path, seg));
      if seg == "+" {
        plus := child;
      } else {
        children := children[seg := child];
      }
    }
  }

  lemma AddOne<T>(s: set<T>, e: T)
    ensures |s + {e}| == if e in s then |s| else |s| + 1
  {
    if e in s {
      assert s + {e} == s;
    }
  }

  lemma RemoveOne<T>(s: set<T>, e: T)
    ensures |s - {e}| == if e in s then |s| - 1 else |s|
  {
    if e !in s {
      assert s - {e} == s;
    }
  }

  /** A node's two subscriber sets are those in force at its path. */
  ghost predicate Holds(live: set<Entry>, p: Path, exact: set<nat>, hash: set<nat>) {
    forall s :: (s in exact <==> Exact(p, s) in live) && (s in hash <==> Hash(p, s) in live)
  }

  lemma HoldsWith(live: set<Entry>, e: Entry, q: Path, exact: set<nat>, hash: set<nat>)
    requires Holds(live, q, exact, hash)
    ensures Holds(live + {e}, q, if e == Exact(q, e.id) then exact + {e.id} else exact,
                  if e == Hash(q, e.id) then hash + {e.id} else hash)
  {
  }

  lemma HoldsWithout(live: set<Entry>, e: Entry, q: Path, exact: set<nat>, hash: set<nat>)
    requires Holds(live, q, exact, hash)
    ensures Holds(live - {e}, q, if e == Exact(q, e.id) then exact - {e.id} else exact,
                  if e == Hash(q, e.id) then hash - {e.id} else hash)
  {
  }

  lemma Gather<T>(out: set<T>, here: set<T>, a: set<T>, b: set<T>)
    ensures out + here + a + b == out + (here + (a + b))
    ensures a == {} ==> out + here + b == out + (here + (a + b))
    ensures b == {} ==> out + here + a == out + (here + (a + b))
    ensures a == b == {} ==> out + here == out + (here + (a + b))
  {
  }

  class TopicTrie {
    const root: Node
    var totalSubs: nat
    /** The node reached by each path, and the subscriptions in force. */
    ghost var at: map<Path, Node>
    ghost var live: set<Entry>
    ghost var nodes: set<Node>

    ghost predicate Placed()
      reads this`at, this`nodes
    {
      forall p :: p in at ==> at[p] in nodes && at[p].path == p
    }

    /** The nodes form a tree whose edges follow the paths. */
    ghost predicate Linked()
      reads this`at, this`nodes, nodes`children, nodes`plus
    {
      && Placed() && Top in at && at[Top] == root
      && (forall p, seg :: Sub(p, seg) in at ==> p in at && seg != "#" && at[p].Child(seg) == at[Sub(p, seg)])
      && (forall p, seg :: p in at && at[p].Child(seg) != null ==> Sub(p, seg) in at)
      && (forall p :: p in at ==> "+" !in at[p].children)
    }

    ghost predicate Counted()
      reads this`at, this`nodes, this`live, this`totalSubs, nodes`exactSubs, nodes`hashSubs
    {
      Recorded() && totalSubs == |live|
    }

    /** Subscriber sets say exactly what is in force. */
    ghost predicate Recorded()
      reads this`at, this`nodes, this`live, nodes`exactSubs, nodes`hashSubs
    {
      && Placed()
      && (forall p :: p in at ==> Holds(live, p, at[p].exactSubs, at[p].hashSubs))
      && (forall e :: e in live ==> e.path in at)
    }

    ghost predicate Valid()
      reads this, nodes
    {
      Linked() && Counted()
    }

    constructor ()
      ensures Valid() && live == {} && fresh(nodes)
    {
      root := new Node(Top);
      totalSubs := 0;
      live := {};
      new;
      at := map[Top := root];
      nodes := {root};
    }

    /** Makes a child node and links it in. */
    method Graft(node: Node, seg: string, ghost p: Path) returns (child: Node)
      requires Linked() && p in at && at[p] == node && seg != "#" && node.Child(seg) == null
      modifies this`at, this`nodes, node`children, node`plus
      ensures Linked() && fresh(child) && at == old(at)[Sub(p, seg) := child] && nodes == old(nodes) + {child}
      ensures child.path == Sub(p, seg) && child.hashSubs == {} && child.exactSubs == {}
    {
      child := node.Attach(seg);
      ghost var was := at;
      at := at[Sub(p, seg) := child];
      nodes := nodes + {child};
      assert forall q :: q in was && q != p ==> was[q] != node;
      forall q, x | Sub(q, x) in at
        ensures q in at && x != "#" && at[q].Child(x) == at[Sub(q, x)]
      {
        if Sub(q, x) != Sub(p, seg) {
          assert Sub(q, x) in was && q in was;
        }
      }
      forall q, x | q in at && at[q].Child(x) != null
        ensures Sub(q, x) in at
      {
        if q != Sub(p, seg) && !(q == p && x == seg) {
          assert was[q].Child(x) == old(was[q].Child(x));
          assert q in was && Sub(q, x) in was;
        }
      }
    }

    /** Makes the child node that a filter needs next. */
    method AddChild(node: Node, seg: string, ghost p: Path) returns (child: Node)
      requires Valid() && p in at && at[p] == node && seg != "#" && node.Child(seg) == null
      modifies this`at, this`nodes, node`children, node`plus
      ensures Valid() && fresh(child) && at == old(at)[Sub(p, seg) := child] && nodes == old(nodes) + {child}
    {
      assert Sub(p, seg) !in at && Holds(live, Sub(p, seg), {}, {});
      hide Linked, Holds;
      child := Graft(node, seg, p);
      forall q | q in at
        ensures at[q] in nodes && at[q].path == q && Holds(live, q, at[q].exactSubs, at[q].hashSubs)
      {
        assert q == Sub(p, seg) || q in old(at);
      }
    }

    /** Replaces the exact subscribers of one node, to fit a new set of subscriptions in force. */
    method SetExact(node: Node, exact: set<nat>, ghost p: Path, ghost next: set<Entry>)
      requires Recorded() && p in at && at[p] == node && Holds(next, p, exact, node.hashSubs)
      requires forall q :: q in at && q != p ==> Holds(next, q, at[q].exactSubs, at[q].hashSubs)
      requires forall e :: e in next ==> e.path in at
      modifies this`live, node`exactSubs
      ensures Recorded() && live == next
    {
      hide Holds;
      live := next;
      node.exactSubs := exact;
    }

    /** Likewise for its '#' subscribers. */
    method SetHash(node: Node, hash: set<nat>, ghost p: Path, ghost next: set<Entry>)
      requires Recorded() && p in at && at[p] == node && Holds(next, p, node.exactSubs, hash)
      requires forall q :: q in at && q != p ==> Holds(next, q, at[q].exactSubs, at[q].hashSubs)
      requires forall e :: e in next ==> e.path in at
      modifies this`live, node`hashSubs
      ensures Recorded() && live == next
    {
      hide Holds;
      live := next;
      node.hashSubs := hash;
    }

    method InsertExact(node: Node, id: nat, ghost p: Path) returns (inserted: bool)
      requires Counted() && p in at && at[p] == node
      modifies this`totalSubs, this`live, node`exactSubs
      ensures Counted() && live == old(live) + {Exact(p, id)} && (inserted <==> Exact(p, id) !in old(live))
    {
      assert Holds(live, p, node.exactSubs, node.hashSubs);
      inserted := id !in node.exactSubs;
      hide Holds;
      forall q | q in at {
        HoldsWith(live, Exact(p, id), q, at[q].exactSubs, at[q].hashSubs);
      }
      AddOne(live, Exact(p, id));
      totalSubs := if inserted then totalSubs + 1 else totalSubs;
      SetExact(node, node.exactSubs + {id}, p, live + {Exact(p, id)});
    }

    method InsertHash(node: Node, id: nat, ghost p: Path) returns (inserted: bool)
      requires Counted() && p in at && at[p] == node
      modifies this`totalSubs, this`live, node`hashSubs
      ensures Counted() && live == old(live) + {Hash(p, id)} && (inserted <==> Hash(p, id) !in old(live))
    {
      assert Holds(live, p, node.exactSubs, node.hashSubs);
      inserted := id !in node.hashSubs;
      hide Holds;
      forall q | q in at {
        HoldsWith(live, Hash(p, id), q, at[q].exactSubs, at[q].hashSubs);
      }
      AddOne(live, Hash(p, id));
      totalSubs := if inserted then totalSubs + 1 else totalSubs;
      SetHash(node, node.hashSubs + {id}, p, live + {Hash(p, id)});
    }

    method EraseExact(node: Node, id: nat, ghost p: Path) returns (removed: bool)
      requires Counted() && p in at && at[p] == node
      modifies this`totalSubs, this`live, node`exactSubs
      ensures Counted() && live == old(live) - {Exact(p, id)} && (removed <==> Exact(p, id) in old(live))
    {
      assert Holds(live, p, node.exactSubs, node.hashSubs);
      removed := id in node.exactSubs;
      hide Holds;
      forall q | q in at {
        HoldsWithout(live, Exact(p, id), q, at[q].exactSubs, at[q].hashSubs);
      }
      RemoveOne(live, Exact(p, id));
      totalSubs := if removed then totalSubs - 1 else totalSubs;
      SetExact(node, node.exactSubs - {id}, p, live - {Exact(p, id)});
    }

    method EraseHash(node: Node, id: nat, ghost p: Path) returns (removed: bool)
      requires Counted() && p in at && at[p] == node
      modifies this`totalSubs, this`live, node`hashSubs
      ensures Counted() && live == old(live) - {Hash(p, id)} && (removed <==> Hash(p, id) in old(live))
    {
      assert Holds(live, p, node.exactSubs, node.hashSubs);
      removed := id in node.hashSubs;
      hide Holds;
      forall q | q in at {
        HoldsWithout(live, Hash(p, id), q, at[q].exactSubs, at[q].hashSubs);
      }
      RemoveOne(live, Hash(p, id));
      totalSubs := if removed then totalSubs - 1 else totalSubs;
      SetHash(node, node.hashSubs - {id}, p, live - {Hash(p, id)});
    }

    /** Walks to the node where a filter ends or meets '#', making nodes as needed. */
    method Reach(segs: seq<string>, ghost id: nat) returns (node: Node, hash: bool, ghost p: Path)
      requires Valid()
      modifies this`at, this`nodes, nodes`children, nodes`plus
      ensures Valid() && fresh(nodes - old(nodes)) && p in at && at[p] == node && node in nodes
      ensures EntryFrom(Top, segs, id) == if hash then Hash(p, id) else Exact(p, id)
    {
      node, p := root, Top;
      for i := 0 to |segs|
        invariant Valid() && fresh(nodes - old(nodes))
        invariant p in at && at[p] == node
        invariant EntryFrom(p, segs[i..], id) == EntryFrom(Top, segs, id)
      {
        var seg := segs[i];
        assert segs[i..][0] == seg && segs[i..][1..] == segs[i + 1..];
        if seg == "#" {
          return node, true, p;
        }
        var child := node.Child(seg);
        if child == null {
          child := AddChild(node, seg, p);
        }
        node := child;
        p := Sub(p, seg);
      }
      hash := false;
    }

    method Subscribe(filter: string, id: nat) returns (inserted: bool)
      requires Valid()
      modifies this, nodes
      ensures Valid() && fresh(nodes - old(nodes))
      ensures live == old(live) + {EntryOf(filter, id)}
      ensures inserted <==> EntryOf(filter, id) !in old(live)
    {
      hide Linked, Recorded, EntryFrom;
      var segs := Split(filter);
      var node, hash, p := Reach(segs, id);
      if hash {
        inserted := InsertHash(node, id, p);
      } else {
        inserted := InsertExact(node, id, p);
      }
    }

    /** Walks to the node where a filter ends or meets '#'; there may be none. */
    method Locate(segs: seq<string>, ghost id: nat) returns (node: Node?, hash: bool, ghost p: Path)
      requires Valid()
      ensures node == null ==> EntryFrom(Top, segs, id) !in live
      ensures node != null ==> p in at && at[p] == node && node in nodes
      ensures node != null ==> EntryFrom(Top, segs, id) == if hash then Hash(p, id) else Exact(p, id)
    {
      node, hash, p := root, false, Top;
      for i := 0 to |segs|
        invariant p in at && at[p] == node
        invariant EntryFrom(p, segs[i..], id) == EntryFrom(Top, segs, id)
      {
        var seg := segs[i];
        assert segs[i..][0] == seg && segs[i..][1..] == segs[i + 1..];
        if seg == "#" {
          return node, true, p;
        }
        var child := node.Child(seg);
        p := Sub(p, seg);
        if child == null {
          MissingPath(p, segs[i + 1..], id);
          return null, false, p;
        }
        node := child;
      }
    }

    method Unsubscribe(filter: string, id: nat) returns (removed: bool)
      requires Valid()
      modifies this, nodes
      ensures Valid() && at == old(at) && nodes == old(nodes)
      ensures live == old(live) - {EntryOf(filter, id)}
      ensures removed <==> EntryOf(filter, id) in old(live)
    {
      hide Linked, Recorded, Counted, EntryFrom, Segments;
      var segs := Split(filter);
      var node, hash, p := Locate(segs, id);
      if node == null {
        removed := false;
      } else if hash {
        removed := EraseHash(node, id, p);
      } else {
        removed := EraseExact(node, id, p);
      }
    }

    /** A filter whose path is not in the tree has no subscribers. */
    lemma {:induction false} MissingPath(p: Path, segs: seq<string>, id: nat)
      requires Valid() && p !in at
      ensures EntryFrom(p, segs, id) !in live
      decreases |segs|
    {
      if segs == [] || segs[0] == "#" {
      } else {
        MissingPath(Sub(p, segs[0]), segs[1..], id);
      }
    }

    lemma {:induction false} PathAboveInTree(q: Path, p: Path)
      requires Linked() && q in at && q.Below(p)
      ensures p in at
    {
      if q == p {
      } else {
        assert Sub(q.parent, q.seg) in at;
        PathAboveInTree(q.parent, p);
      }
    }

    /** Subscribers with a matching entry at or below a node. */
    ghost function Found(p: Path, topic: seq<string>): set<nat>
      reads this`live
    {
      set e | e in live && e.path.Below(p) && e.Matches(topic) :: e.id
    }

    /** What one node contributes to a match, apart from its children. */
    ghost function FoundHere(p: Path, topic: seq<string>): set<nat>
      requires p in at && Placed()
      reads this`at, this`nodes, nodes`hashSubs, nodes`exactSubs
    {
      if p.Depth() == |topic| then at[p].hashSubs + at[p].exactSubs else at[p].hashSubs
    }

    lemma FoundMissing(p: Path, seg: string, topic: seq<string>)
      requires Valid() && Sub(p, seg) !in at
      ensures Found(Sub(p, seg), topic) == {}
    {
      forall e | e in live && e.path.Below(Sub(p, seg))
        ensures false
      {
        PathAboveInTree(e.path, Sub(p, seg));
      }
    }

    lemma FoundWithin(p: Path, topic: seq<string>, seg: string)
      ensures Found(Sub(p, seg), topic) <= Found(p, topic)
    {
      forall e | e in live && e.path.Below(Sub(p, seg)) && e.Matches(topic)
        ensures e.id in Found(p, topic)
      {
        BelowParent(e.path, p, seg);
      }
    }

    lemma {:induction false} HereIsFound(p: Path, topic: seq<string>)
      requires Valid() && p in at && p.Depth() <= |topic| && p.Spells(topic[..p.Depth()])
      ensures FoundHere(p, topic) <= Found(p, topic)
    {
      assert topic[..|topic|] == topic;
      forall id | id in at[p].hashSubs
        ensures id in Found(p, topic)
      {
        assert Hash(p, id) in live && Hash(p, id).Matches(topic);
      }
      forall id | id in at[p].exactSubs && p.Depth() == |topic|
        ensures id in Found(p, topic)
      {
        assert Exact(p, id) in live && Exact(p, id).Matches(topic);
      }
    }

    /** A matching entry sits here, below the edge named by the next segment, or below '+'. */
    lemma {:induction false} FoundSomewhere(p: Path, topic: seq<string>, e: Entry)
      requires Valid() && p in at && e in live && e.path.Below(p) && e.Matches(topic)
      ensures var d := p.Depth();
              || e.id in FoundHere(p, topic)
              || (d < |topic| && (e.path.Below(Sub(p, topic[d])) || e.path.Below(Sub(p, "+"))))
    {
      if e.path == p {
        if e.Exact? {
          SpellsDepth(p, topic);
        }
      } else {
        EdgeLeadsThere(e.path, p);
        MatchSpellsAbove(e, Sub(p, EdgeToward(e.path, p)), topic);
      }
    }

    /** A match at a node is what it holds itself plus the matches below the two edges that fit. */
    lemma {:induction false} FoundStep(p: Path, topic: seq<string>)
      requires Valid() && p in at && p.Depth() <= |topic| && p.Spells(topic[..p.Depth()])
      ensures Found(p, topic) == FoundHere(p, topic) +
                if p.Depth() == |topic| then {}
                else Found(Sub(p, topic[p.Depth()]), topic) + Found(Sub(p, "+"), topic)
    {
      assert Placed();
      hide Linked, Recorded, FoundHere, Path.Spells, Entry.Matches;
      HereIsFound(p, topic);
      if p.Depth() == |topic| {
        forall e | e in live && e.path.Below(p) && e.Matches(topic)
          ensures e.id in FoundHere(p, topic)
        {
          FoundSomewhere(p, topic, e);
        }
      } else {
        var seg := topic[p.Depth()];
        FoundWithin(p, topic, seg);
        FoundWithin(p, topic, "+");
        forall e | e in live && e.path.Below(p) && e.Matches(topic)
          ensures e.id in FoundHere(p, topic) || e.id in Found(Sub(p, seg), topic) || e.id in Found(Sub(p, "+"), topic)
        {
          FoundSomewhere(p, topic, e);
        }
      }
    }

    /** An edge that fits the next segment leads to a node that spells one segment more, or to nothing. */
    lemma {:induction false} FittingEdge(p: Path, seg: string, topic: seq<string>)
      requires Valid() && p in at && p.Depth() < |topic| && p.Spells(topic[..p.Depth()])
      requires seg == "+" || seg == topic[p.Depth()]
      ensures "+" !in at[p].children
      ensures var child := at[p].Child(seg);
              if child == null then Found(Sub(p, seg), topic) == {}
              else Sub(p, seg) in at && at[Sub(p, seg)] == child && Sub(p, seg).Spells(topic[..p.Depth() + 1])
    {
      var d := p.Depth();
      assert topic[..d + 1][..d] == topic[..d];
      if at[p].Child(seg) == null {
        FoundMissing(p, seg, topic);
      }
    }

    method MatchInto(node: Node, segs: seq<string>, depth: nat, out: set<nat>, ghost p: Path) returns (r: set<nat>)
      requires Valid() && p in at && at[p] == node
      requires depth == p.Depth() <= |segs| && p.Spells(segs[..depth])
      ensures r == out + Found(p, segs)
      decreases |segs| - depth
    {
      hide Found, Linked, Recorded, Path.Spells;
      FoundStep(p, segs);
      r := out + node.hashSubs;
      if depth == |segs| {
        r := r + node.exactSubs;
        return;
      }
      var seg := segs[depth];
      FittingEdge(p, seg, segs);
      FittingEdge(p, "+", segs);
      Gather(out, node.hashSubs, Found(Sub(p, seg), segs), Found(Sub(p, "+"), segs));
      if seg in node.children {
        r := MatchInto(node.children[seg], segs, depth + 1, r, Sub(p, seg));
      }
      if node.plus != null {
        r := MatchInto(node.plus, segs, depth + 1, r, Sub(p, "+"));
      }
    }

    method Match(topic: string) returns (subs: set<nat>)
      requires Valid()
      ensures subs == set e | e in live && e.Matches(Segments(topic)) :: e.id
    {
      var segs := Split(topic);
      assert segs[..0] == [];
      subs := MatchInto(root, segs, 0, {}, Top);
      forall e | e in live
        ensures e.path.Below(Top)
      {
        BelowTop(e.path);
      }
    }

    /** Every child of a node once, '+' first. */
    method Children(node: Node, ghost p: Path) returns (cs: seq<Node>, ghost kids: seq<Path>)
      requires Linked() && p in at && at[p] == node
      ensures Nodes(cs, kids) && AllKids(at.Keys, p, kids)
    {
      cs, kids := [], [];
      if node.plus != null {
        cs, kids := [node.plus], [Sub(p, "+")];
      }
      var todo := node.children.Keys;
      while todo != {}
        invariant todo <= node.children.Keys
        invariant Nodes(cs, kids) && Distinct(kids)
        invariant forall c :: c in kids ==> c.Sub? && c.parent == p && c.seg !in todo
        invariant forall seg :: Sub(p, seg) in at ==> seg in todo || Sub(p, seg) in kids
        decreases |todo|
      {
        var seg :| seg in todo;
        var child := node.children[seg];
        assert node.Child(seg) == child && Sub(p, seg) in at;
        todo := todo - {seg};
        cs, kids := cs + [child], kids + [Sub(p, seg)];
      }
    }

    /** The nodes at the given paths. */
    ghost predicate Nodes(ns: seq<Node>, paths: seq<Path>)
      reads this`at
    {
      |ns| == |paths| && forall i :: 0 <= i < |ns| ==> paths[i] in at && at[paths[i]] == ns[i]
    }

    lemma NodesStep(stack: seq<Node>, rest: seq<Path>, p: Path, cs: seq<Node>, kids: seq<Path>)
      requires Nodes(stack, rest + [p]) && Nodes(cs, kids)
      ensures Nodes(stack[..|stack| - 1] + cs, rest + kids)
    {
      var stack', todo' := stack[..|stack| - 1] + cs, rest + kids;
      forall i | 0 <= i < |stack'|
        ensures todo'[i] in at && at[todo'[i]] == stack'[i]
      {
        if i < |rest| {
          assert (rest + [p])[i] in at && at[(rest + [p])[i]] == stack[i];
        } else {
          assert kids[i - |rest|] in at && at[kids[i - |rest|]] == cs[i - |rest|];
        }
      }
    }

    /** One turn of the sweep: drop the subscriber at the last node of the stack, push its children. */
    method Visit(stack: seq<Node>, id: nat, ghost rest: seq<Path>, ghost p: Path, ghost visited: set<Path>)
      returns (next: seq<Node>, erased: nat, ghost todo: seq<Path>)
      requires Valid() && stack != [] && Nodes(stack, rest + [p]) && Frontier(at.Keys, rest + [p], visited)
      modifies this`totalSubs, this`live, nodes`exactSubs, nodes`hashSubs
      ensures Valid() && Nodes(next, todo) && Frontier(at.Keys, todo, visited + {p})
      ensures live == old(live) - {Exact(p, id), Hash(p, id)} && erased == |old(live)| - |live|
    {
      hide Linked, Recorded, Counted, Nodes, Frontier;
      LastNode(stack, rest, p);
      var n := stack[|stack| - 1];
      erased := EraseBoth(n, id, p);
      var cs, kids := Children(n, p);
      FrontierStep(at.Keys, rest, p, visited, kids);
      NodesStep(stack, rest, p, cs, kids);
      next, todo := stack[..|stack| - 1] + cs, rest + kids;
    }

    /** Visits every node once, from a work list. */
    method Sweep(id: nat) returns (removed: nat)
      requires Valid()
      modifies this`totalSubs, this`live, nodes`exactSubs, nodes`hashSubs
      ensures Valid() && live == Without(old(live), id, at.Keys) && removed == |old(live)| - |live|
    {
      SweepStarts();
      hide Linked, Recorded, Counted, Nodes, Frontier, Without;
      removed := 0;
      var stack := [root];
      ghost var todo, visited: set<Path> := [Top], {};
      NothingVisited(live, id);
      while stack != []
        invariant Valid() && Nodes(stack, todo) && Frontier(at.Keys, todo, visited)
        invariant live == Without(old(live), id, visited) && removed == |old(live)| - |live|
        decreases at.Keys - visited
      {
        SweepGoesOn(stack, todo, visited);
        ghost var p, rest := todo[|todo| - 1], todo[..|todo| - 1];
        SplitLast(todo);
        var erased: nat;
        WithoutStep(old(live), id, visited, p);
        stack, erased, todo := Visit(stack, id, rest, p, visited);
        removed := removed + erased;
        visited := visited + {p};
      }
      SweepEnds(todo, visited);
    }

    method UnsubscribeAll(id: nat) returns (removed: nat)
      requires Valid()
      modifies this, nodes
      ensures Valid() && at == old(at) && nodes == old(nodes)
      ensures live == set e | e in old(live) && e.id != id
      ensures removed == |old(live)| - |live|
    {
      AllVisited(live, id, at.Keys);
      hide Linked, Recorded, Counted, Without;
      removed := Sweep(id);
    }

    lemma SweepStarts()
      requires Linked()
      ensures Nodes([root], [Top]) && Frontier(at.Keys, [Top], {})
    {
      FrontierInit(at.Keys);
    }

    lemma SweepGoesOn(stack: seq<Node>, todo: seq<Path>, visited: set<Path>)
      requires stack != [] && Nodes(stack, todo) && Frontier(at.Keys, todo, visited)
      ensures todo != [] && todo[|todo| - 1] in at.Keys && todo[|todo| - 1] !in visited
    {
    }

    lemma SweepEnds(todo: seq<Path>, visited: set<Path>)
      requires Nodes([], todo) && Frontier(at.Keys, todo, visited)
      ensures visited == at.Keys
    {
      FrontierDone(at.Keys, visited);
    }

    lemma LastNode(stack: seq<Node>, rest: seq<Path>, p: Path)
      requires Linked() && stack != [] && Nodes(stack, rest + [p])
      ensures p in at && at[p] == stack[|stack| - 1] && at[p] in nodes
    {
      assert (rest + [p])[|stack| - 1] == p;
    }

    /** What a sweep does at one node. */
    method EraseBoth(n: Node, id: nat, ghost p: Path) returns (erased: nat)
      requires Counted() && p in at && at[p] == n
      modifies this`totalSubs, this`live, n`exactSubs, n`hashSubs
      ensures Counted() && live == old(live) - {Exact(p, id), Hash(p, id)}
      ensures erased == |old(live)| - |live|
    {
      hide Recorded;
      ghost var before := live;
      var exact := EraseExact(n, id, p);
      RemoveOne(before, Exact(p, id));
      RemoveOne(live, Hash(p, id));
      assert live - {Hash(p, id)} == before - {Exact(p, id), Hash(p, id)};
      var hash := EraseHash(n, id, p);
      erased := (if exact then 1 else 0) + (if hash then 1 else 0);
    }
  }

  // ----- Sweeping a tree -----

  ghost predicate Distinct<T>(s: seq<T>) {
    forall i, j :: 0 <= i < j < |s| ==> s[i] != s[j]
  }

  /** The entries left once a subscriber has been dropped at the visited paths. */
  ghost function Without(live: set<Entry>, id: nat, visited: set<Path>): set<Entry> {
    set e | e in live && (e.id != id || e.path !in visited)
  }

  lemma NothingVisited(live: set<Entry>, id: nat)
    ensures Without(live, id, {}) == live
  {
  }

  /** With every path visited nothing of the subscriber is left. */
  lemma AllVisited(live: set<Entry>, id: nat, visited: set<Path>)
    requires forall e :: e in live ==> e.path in visited
    ensures Without(live, id, visited) == set e | e in live && e.id != id
  {
  }

  lemma WithoutStep(live: set<Entry>, id: nat, visited: set<Path>, p: Path)
    ensures Without(live, id, visited + {p}) == Without(live, id, visited) - {Exact(p, id), Hash(p, id)}
  {
  }

  /** The children of `p` within a set of paths, each once. */
  ghost predicate AllKids(all: set<Path>, p: Path, kids: seq<Path>) {
    && Distinct(kids)
    && (forall c :: c in kids ==> c.Sub? && c.parent == p && c in all)
    && (forall seg :: Sub(p, seg) in all ==> Sub(p, seg) in kids)
  }

  ghost predicate Covered(p: Path, todo: seq<Path>) {
    exists q :: q in todo && p.Below(q)
  }

  /** The work list holds the tops of the subtrees not yet visited, each once. */
  ghost predicate Frontier(all: set<Path>, todo: seq<Path>, visited: set<Path>) {
    && visited <= all && Distinct(todo)
    && (forall q :: q in todo ==> q in all && q !in visited)
    && (forall q, x :: Sub(q, x) in all ==> q in all)
    && (forall q, x :: Sub(q, x) in todo ==> q in visited)
    && (forall q, x :: Sub(q, x) in visited ==> q in visited)
    && (forall q :: q in all ==> q in visited || Covered(q, todo))
  }

  lemma FrontierInit(all: set<Path>)
    requires Top in all && forall q, x :: Sub(q, x) in all ==> q in all
    ensures Frontier(all, [Top], {})
  {
    forall q | q in all
      ensures Covered(q, [Top])
    {
      BelowTop(q);
      assert Top in [Top];
    }
  }

  lemma FrontierDone(all: set<Path>, visited: set<Path>)
    requires Frontier(all, [], visited)
    ensures visited == all
  {
    assert forall q :: !Covered(q, []);
  }

  lemma {:induction false} BelowStays(all: set<Path>, q: Path, p: Path)
    requires q in all && q.Below(p) && forall q, x :: Sub(q, x) in all ==> q in all
    ensures p in all
  {
    if q == p {
    } else {
      assert q == Sub(q.parent, q.seg);
      BelowStays(all, q.parent, p);
    }
  }

  lemma SplitLast<T>(s: seq<T>)
    requires s != []
    ensures s == s[..|s| - 1] + [s[|s| - 1]] && s[|s| - 1] in s
  {
  }

  lemma DistinctAppend<T>(s: seq<T>, t: seq<T>)
    requires Distinct(s) && Distinct(t) && forall x :: x in s ==> x !in t
    ensures Distinct(s + t)
  {
    var u := s + t;
    forall i, j | 0 <= i < j < |u|
      ensures u[i] != u[j]
    {
      if i < |s| <= j {
        assert u[i] in s && u[j] in t;
      }
    }
  }

  lemma CoverStep(all: set<Path>, rest: seq<Path>, p: Path, kids: seq<Path>, q: Path)
    requires q in all && q != p && Covered(q, rest + [p]) && AllKids(all, p, kids)
    requires forall r, x :: Sub(r, x) in all ==> r in all
    ensures Covered(q, rest + kids)
  {
    var top :| top in rest + [p] && q.Below(top);
    if q.Below(p) {
      EdgeLeadsThere(q, p);
      BelowStays(all, q, Sub(p, EdgeToward(q, p)));
      assert Sub(p, EdgeToward(q, p)) in rest + kids;
    } else {
      assert top in rest + kids;
    }
  }

  lemma FrontierDistinct(all: set<Path>, rest: seq<Path>, p: Path, visited: set<Path>, kids: seq<Path>)
    requires Frontier(all, rest + [p], visited) && AllKids(all, p, kids)
    ensures Distinct(rest + kids) && p !in rest && forall c :: c in kids ==> c !in visited && c != p
  {
    var todo := rest + [p];
    assert p in todo && forall q :: q in rest ==> q in todo;
    forall i, j | 0 <= i < j < |rest|
      ensures rest[i] != rest[j]
    {
      assert todo[i] != todo[j];
    }
    forall i | 0 <= i < |rest|
      ensures rest[i] != p
    {
      assert todo[i] != todo[|rest|];
    }
    forall c | c in kids
      ensures c !in rest && c !in visited && c != p
    {
      assert c == Sub(p, c.seg);
    }
    DistinctAppend(rest, kids);
  }

  lemma FrontierCovers(all: set<Path>, rest: seq<Path>, p: Path, visited: set<Path>, kids: seq<Path>)
    requires Frontier(all, rest + [p], visited) && AllKids(all, p, kids)
    ensures forall q :: q in all ==> q in visited + {p} || Covered(q, rest + kids)
  {
    hide AllKids, Covered;
    forall q | q in all
      ensures q in visited + {p} || Covered(q, rest + kids)
    {
      if q !in visited + {p} {
        CoverStep(all, rest, p, kids, q);
      }
    }
  }

  /** Visiting the last path of the list and appending its children keeps every subtree covered. */
  lemma FrontierStep(all: set<Path>, rest: seq<Path>, p: Path, visited: set<Path>, kids: seq<Path>)
    requires Frontier(all, rest + [p], visited) && AllKids(all, p, kids)
    ensures Frontier(all, rest + kids, visited + {p})
  {
    hide Covered, Distinct;
    FrontierDistinct(all, rest, p, visited, kids);
    FrontierCovers(all, rest, p, visited, kids);
    var todo := rest + [p];
    assert p in todo && forall q :: q in rest ==> q in todo;
    forall q | q in rest + kids
      ensures q in all && q !in visited + {p}
      ensures q.Sub? ==> q.parent in visited + {p}
    {
      if q in rest {
        assert q in todo;
        assert q.Sub? ==> Sub(q.parent, q.seg) in todo;
      } else {
        assert q == Sub(p, q.seg);
      }
    }
    forall q, x | Sub(q, x) in visited + {p}
      ensures q in visited + {p}
    {
      if Sub(q, x) == p {
        assert Sub(q, x) in todo;
      }
    }
  }

  /** What was cut off and what the rest will give make up the segments. */
  ghost predicate Cuts(s: string, out: seq<string>, start: nat)
    requires start <= |s| + 1
  {
    if start > |s| then out == Segments(s) else out + SegmentsFrom(s, start) == Segments(s)
  }

  lemma {:induction false} CutStep(s: string, out: seq<string>, start: nat, i: nat)
    requires start <= i <= |s| && (i == |s| || s[i] == '/') && Cuts(s, out, start)
    requires forall k :: start <= k < i ==> s[k] != '/'
    ensures Cuts(s, out + [s[start..i]], i + 1)
  {
    SegEndFrom(s, start, i);
    if i < |s| {
      var rest := SegmentsFrom(s, i + 1);
      assert out + ([s[start..i]] + rest) == out + [s[start..i]] + rest;
    }
  }

  lemma {:induction false} CutStarts(s: string)
    ensures Cuts(s, [], 0)
  {
    assert [] + SegmentsFrom(s, 0) == SegmentsFrom(s, 0);
  }

  method Split(s: string) returns (out: seq<string>)
    ensures out == Segments(s)
  {
    hide SegmentsFrom, Segments;
    out := [];
    var start: nat := 0;
    CutStarts(s);
    for i := 0 to |s| + 1
      invariant start <= i && Cuts(s, out, start) && (i > |s| ==> start > |s|)
      invariant forall k :: start <= k < i && k < |s| ==> s[k] != '/'
    {
      if i == |s| || s[i] == '/' {
        CutStep(s, out, start, i);
        out := out + [s[start..i]];
        start := i + 1;
      }
    }
  }
}
