/** The channel tree in the heap: nodes that hold lists of child nodes and counters kept
    beside them, as in src/ChTree.hpp. A ghost map from paths to nodes ties the heap to
    the tree of module ChannelPaths. */
module ChannelTree {
  import opened Basics
  import opened Topics
  import opened ChannelPaths

  /** A node. Its name is fixed when it is made, and so is its place in the tree. */
  class ChNode {
    const name: string
    ghost const path: Path
    var nodes: seq<ChNode>
    var nodeSize: int
    var messages: seq<string>
    var msgSize: int
    var users: seq<string>
    var userSize: int

    ghost function View(): Node
      reads this
    {
      Node(Names(nodes), nodeSize, Load(messages, msgSize, users, userSize))
    }

    constructor (name: string, ghost path: Path)
      ensures this.name == name && this.path == path && nodes == [] && View() == Node([], 0, NO_LOAD)
    {
      this.name, this.path := name, path;
      nodes, nodeSize := [], 0;
      messages, msgSize := [], 0;
      users, userSize := [], 0;
    }
  }

  function Names(ns: seq<ChNode>): (s: seq<string>)
    ensures |s| == |ns| && forall i :: 0 <= i < |ns| ==> s[i] == ns[i].name
  {
    if ns == [] then [] else [ns[0].name] + Names(ns[1..])
  }

  /** std::find_if by name. */
  function FindChild(ns: seq<ChNode>, str: string): (c: ChNode?)
    ensures c == null <==> str !in Names(ns)
    ensures c != null ==> c in ns && c.name == str
  {
    if ns == [] then null
    else if ns[0].name == str then ns[0]
    else FindChild(ns[1..], str)
  }

  /** std::list::remove of one node. */
  function RemoveNode(ns: seq<ChNode>, c: ChNode): (r: seq<ChNode>)
    ensures forall n :: n in r ==> n in ns && n != c
    ensures forall n :: n in ns && n != c ==> n in r
  {
    if ns == [] then [] else (if ns[0] == c then [] else [ns[0]]) + RemoveNode(ns[1..], c)
  }

  lemma {:induction false} RemoveNodeNames(ns: seq<ChNode>, c: ChNode)
    requires forall n :: n in ns && n.name == c.name ==> n == c
    ensures Names(RemoveNode(ns, c)) == Without(Names(ns), c.name)
  {
    if ns != [] {
      assert ns[0] in ns;
      RemoveNodeNames(ns[1..], c);
      var r := RemoveNode(ns[1..], c);
      assert ([ns[0]] + r)[1..] == r;
      assert Names([ns[0]] + r) == [ns[0].name] + Names(r);
    }
  }

  lemma {:induction false} NamesPush(ns: seq<ChNode>, n: ChNode)
    ensures Names(ns + [n]) == Names(ns) + [n.name]
  {
  }

  lemma IsAddChild(t: Tree, u: Tree, q: Path, str: string, n: Node)
    requires q in t && q + [str] !in t && u.Keys == t.Keys + {q + [str]}
    requires n == t[q].(kids := t[q].kids + [str], nodeSize := t[q].nodeSize + 1)
    requires u[q] == n && u[q + [str]] == Node([], 0, NO_LOAD)
    requires forall p :: p in t && p != q ==> u[p] == t[p]
    ensures u == AddChild(t, q, str)
  {
  }

  class ChTree {
    var root: ChNode
    ghost var at: map<Path, ChNode>

    /** The node at p belongs there, and so do its children. */
    ghost predicate Placed(p: Path)
      requires p in at
      reads this, at.Values
    {
      && at[p].path == p && (p != [] ==> at[p].name == Last(p))
      && forall n :: n in at[p].nodes ==> p + [n.name] in at && at[p + [n.name]] == n
    }

    /** Every node is in its one place: none is shared and none is below itself. */
    ghost predicate Shape()
      reads this, at.Values
    {
      [] in at && at[[]] == root && forall p {:trigger Placed(p)} :: p in at ==> Placed(p)
    }

    ghost function View(): Tree
      reads this, at.Values
    {
      map p | p in at :: at[p].View()
    }

    ghost predicate Valid()
      reads this, at.Values
    {
      Shape() && WellFormed(View())
    }

    /** The constructor and initRoot. */
    constructor ()
      ensures Valid() && View() == INIT_TREE && fresh(at.Values) && root.name == "/"
    {
      root := new ChNode("/", []);
      new;
      at := map[[] := root];
      assert View() == INIT_TREE;
      ReachedIsSound([]);
      assert Reached([]) == INIT_TREE;
    }

    /** Looking for a child by name is looking for its path. */
    lemma FindChildIs(q: Path, str: string)
      requires Valid() && q in at
      ensures var c := FindChild(at[q].nodes, str);
              && (c != null <==> q + [str] in at)
              && (c != null ==> c == at[q + [str]])
    {
      assert Placed(q);
      ChildIsPath(View(), q, str);
    }

    method Attach(ghost q: Path, node: ChNode, str: string) returns (child: ChNode)
      requires Shape() && q in at && at[q] == node && q + [str] !in at
      modifies this`at, node
      ensures Shape() && at == old(at)[q + [str] := child] && fresh(child)
      ensures child.View() == Node([], 0, NO_LOAD)
      ensures node.View() == old(Node(Names(node.nodes) + [str], node.nodeSize + 1, node.View().load))
    {
      child := new ChNode(str, q + [str]);
      node.nodeSize := node.nodeSize + 1;
      node.nodes := node.nodes + [child];
      at := at[q + [str] := child];
      NamesPush(old(node.nodes), child);
      forall p | p in at ensures Placed(p) {
        assert old(Placed(q)) && (p in old(at) ==> old(Placed(p)));
      }
    }

    /** A new node for str under the node at q, as the loop of addChannel makes it. */
    method NewChild(ghost q: Path, node: ChNode, str: string) returns (child: ChNode)
      requires Shape() && q in at && at[q] == node && q + [str] !in at
      modifies this`at, node
      ensures Shape() && at == old(at)[q + [str] := child] && fresh(child)
      ensures View() == AddChild(old(View()), q, str)
    {
      ghost var t := View();
      ghost var loaded := Node(Names(node.nodes) + [str], node.nodeSize + 1, node.View().load);
      assert Placed(q);
      child := Attach(q, node, str);
      ghost var u := View();
      assert Placed(q);
      forall p | p in t && p != q ensures p in u && u[p] == t[p] {
        assert Placed(p);
        assert at[p].View() == old(at[p].View());
      }
      IsAddChild(t, u, q, str, loaded);
    }

    /** One turn of that loop: down to the child named str, which is made if it is missing. */
    method Descend(ghost q: Path, node: ChNode, str: string) returns (child: ChNode)
      requires Valid() && q in at && at[q] == node
      modifies this`at, node
      ensures Valid() && fresh(at.Values - old(at.Values))
      ensures q + [str] in at && child == at[q + [str]]
      ensures View() == if q + [str] in old(View()) then old(View()) else AddChild(old(View()), q, str)
    {
      FindChildIs(q, str);
      var found := FindChild(node.nodes, str);
      if found == null {
        AddChildKeeps(View(), q, str);
        child := NewChild(q, node, str);
      } else {
        child := found;
      }
    }

    /** The loop of addChannel. */
    method AddLevels(vec: seq<string>)
      requires Valid()
      modifies this`at, at.Values
      ensures Valid() && fresh(at.Values - old(at.Values))
      ensures View() == AddPath(old(View()), vec)
    {
      var node := root;
      var k := 0;
      ghost var all := AddPath(View(), vec);
      assert vec[..0] == [];
      while k < |vec|
        invariant 0 <= k <= |vec|
        invariant Valid() && fresh(at.Values - old(at.Values))
        invariant vec[..k] in at && node == at[vec[..k]]
        invariant AddFrom(View(), vec, k) == all
      {
        AddOne(View(), vec, k);
        node := Descend(vec[..k], node, vec[k]);
        k := k + 1;
      }
    }

    /** ChTree::addChannel. */
    method AddChannel(channel: string)
      requires Valid()
      modifies this`at, at.Values
      ensures Valid() && fresh(at.Values - old(at.Values))
      ensures View() == ChannelPaths.AddChannel(old(View()), channel)
    {
      if !IsChannel(channel) {
        return;
      }
      var vec := SplitChannel(channel);
      AddLevels(vec);
    }

    /** Names are unique among siblings, so removing a child is removing its name. */
    lemma OnlyChild(q: Path)
      requires Shape() && q != [] && q in at && Parent(q) in at
      ensures Names(RemoveNode(at[Parent(q)].nodes, at[q])) == Without(Names(at[Parent(q)].nodes), Last(q))
    {
      assert Placed(Parent(q)) && Placed(q);
      assert q == Parent(q) + [Last(q)];
      RemoveNodeNames(at[Parent(q)].nodes, at[q]);
    }

    /** The two statements that take a child out of its parent. */
    method TakeOut(ghost q: Path, parent: ChNode, child: ChNode)
      requires Shape() && q != [] && q in at && at[q] == child
      requires Parent(q) in at && at[Parent(q)] == parent
      modifies this`at, parent
      ensures Shape() && at == map r | r in old(at) && !(q <= r) :: old(at)[r]
      ensures parent.View() == old(Node(Without(Names(parent.nodes), Last(q)), parent.nodeSize - 1, parent.View().load))
    {
      OnlyChild(q);
      assert q == Parent(q) + [Last(q)];
      parent.nodeSize := parent.nodeSize - 1;
      parent.nodes := RemoveNode(parent.nodes, child);
      at := map r | r in at && !(q <= r) :: at[r];
      forall p | p in at ensures Placed(p) {
        assert old(Placed(p));
        forall n | n in at[p].nodes ensures p + [n.name] in at && at[p + [n.name]] == n {
          assert n in old(at[p].nodes);
          var r := p + [n.name];
          assert q <= r ==> q <= p || q == r;
        }
      }
    }

    method Remove(ghost q: Path, parent: ChNode, child: ChNode)
      requires Shape() && q != [] && q in at && at[q] == child
      requires Parent(q) in at && at[Parent(q)] == parent
      modifies this`at, parent
      ensures Shape() && at == (map r | r in old(at) && !(q <= r) :: old(at)[r]) && at.Values <= old(at.Values)
      ensures View() == Detach(old(View()), q)
    {
      ghost var t := View();
      ghost var n := Node(Without(Names(parent.nodes), Last(q)), parent.nodeSize - 1, parent.View().load);
      assert Placed(Parent(q));
      TakeOut(q, parent, child);
      ghost var u := View();
      assert Placed(Parent(q));
      forall p | p in u && p != Parent(q) ensures u[p] == t[p] {
        assert Placed(p);
        assert at[p].View() == old(at[p].View());
      }
      IsDetach(t, u, q, n);
    }

    /** The nodes along the longest present prefix of the path, the root first. */
    ghost predicate Along(nodes: seq<ChNode>, vec: Path)
      reads this
    {
      1 <= |nodes| <= |vec| + 1 && forall i :: 0 <= i < |nodes| ==> vec[..i] in at && nodes[i] == at[vec[..i]]
    }

    /** The first loop of removeChannel. */
    method Collect(vec: seq<string>) returns (nodes: seq<ChNode>)
      requires Valid()
      ensures Along(nodes, vec) && |nodes| == Longest(View(), vec) + 1
    {
      var node := root;
      nodes := [node];
      assert vec[..0] == [];
      var k := 0;
      while k < |vec|
        invariant 0 <= k <= |vec| && |nodes| == k + 1
        invariant Along(nodes, vec) && node == nodes[k]
      {
        assert vec[..k + 1] == vec[..k] + [vec[k]];
        FindChildIs(vec[..k], vec[k]);
        var child := FindChild(node.nodes, vec[k]);
        if child == null {
          LongestIs(View(), vec, k);
          return;
        }
        node := child;
        nodes := nodes + [node];
        k := k + 1;
      }
      LongestIs(View(), vec, k);
    }

    /** What the second loop of removeChannel has done when it has come up to index i. */
    ghost predicate ClimbedTo(t: Tree, vec: Path, m: nat, c: nat, i: nat)
      requires m <= |vec| && forall j :: 0 <= j <= m ==> vec[..j] in t
      reads this, at.Values
    {
      && 0 <= i < c <= m && at.Keys == Detach(t, vec[..c]).Keys
      && View() == Detach(t, vec[..c])
      && CutFrom(t, vec, m) == CutFrom(t, vec, c)
      && (c > i + 1 ==> CutFrom(t, vec, c) == c)
    }

    /** One turn of the second loop: child is the node at index i, parent the one above. */
    method Climb(ghost t: Tree, ghost vec: Path, ghost m: nat, ghost c: nat, ghost i: nat, parent: ChNode, child: ChNode)
      returns (ghost c': nat)
      requires WellFormed(t) && m <= |vec| && forall j :: 0 <= j <= m ==> vec[..j] in t
      requires Shape() && 0 < i && ClimbedTo(t, vec, m, c, i)
      requires vec[..i] in at && at[vec[..i]] == child && vec[..i - 1] in at && at[vec[..i - 1]] == parent
      modifies this`at, parent
      ensures Shape() && ClimbedTo(t, vec, m, c', i - 1) && at.Values <= old(at.Values)
      ensures forall j :: 0 <= j < i && vec[..j] in old(at) ==> vec[..j] in at && at[vec[..j]] == old(at)[vec[..j]]
    {
      c' := c;
      assert View()[vec[..i]] == child.View();
      ClimbGoesOn(t, vec, m, c, i);
      if child.nodeSize == 0 && child.userSize == 0 {
        assert Parent(vec[..i]) == vec[..i - 1];
        Remove(vec[..i], parent, child);
        c' := i;
      }
    }

    /** No node occurs twice along a path. */
    lemma AlongDistinct(nodes: seq<ChNode>, vec: Path)
      requires Shape() && Along(nodes, vec)
      ensures Distinct(nodes)
    {
      forall i | 0 <= i < |nodes| ensures nodes[i].path == vec[..i] {
        assert Placed(vec[..i]);
      }
      forall i, j | 0 <= i < j < |nodes| ensures nodes[i] != nodes[j] {
        assert |nodes[i].path| != |nodes[j].path|;
      }
    }

    /** The last node found leaves its parent whatever it holds. */
    method RemoveDeepest(ghost t: Tree, ghost vec: Path, ghost m: nat, parent: ChNode, child: ChNode)
      requires Shape() && WellFormed(t) && t == View() && 0 < m <= |vec| && forall j :: 0 <= j <= m ==> vec[..j] in at
      requires at[vec[..m]] == child && at[vec[..m - 1]] == parent
      modifies this`at, parent
      ensures Shape() && ClimbedTo(t, vec, m, m, m - 1) && at.Values <= old(at.Values)
      ensures forall j :: 0 <= j < m ==> vec[..j] in at && at[vec[..j]] == old(at)[vec[..j]]
    {
      assert Parent(vec[..m]) == vec[..m - 1];
      Remove(vec[..m], parent, child);
    }

    /** What it does with a node above the last one: pn is the one at index i, child the one
        below it. */
    method Turn(ghost t: Tree, ghost vec: Path, ghost m: nat, ghost c: nat, ghost i: nat,
                pn: ChNode, child: ChNode, back: ChNode)
      returns (ghost c': nat)
      requires Shape() && WellFormed(t) && i < m <= |vec| && forall j :: 0 <= j <= m ==> vec[..j] in t
      requires if i + 1 == m then View() == t && c == m else ClimbedTo(t, vec, m, c, i + 1)
      requires child == back <==> i + 1 == m
      requires forall j :: 0 <= j <= i + 1 ==> vec[..j] in at
      requires at[vec[..i]] == pn && at[vec[..i + 1]] == child
      modifies this`at, pn
      ensures Shape() && ClimbedTo(t, vec, m, c', i) && at.Values <= old(at.Values)
      ensures forall j :: 0 <= j <= i ==> vec[..j] in at && at[vec[..j]] == old(at)[vec[..j]]
    {
      if child != back {
        c' := Climb(t, vec, m, c, i + 1, pn, child);
      } else {
        c' := c;
        RemoveDeepest(t, vec, m, pn, child);
      }
    }

    /** What holds in the second loop of removeChannel when it has come up to index i, with
        child the node at that index. */
    ghost predicate ComeTo(nodes: seq<ChNode>, vec: Path, t: Tree, m: nat, c: nat, i: nat, child: ChNode?)
      requires |nodes| == m + 1 && m <= |vec| && forall j :: 0 <= j <= m ==> vec[..j] in t
      reads this, at.Values
    {
      && Shape() && i <= m + 1
      && (forall j :: 0 <= j < i ==> vec[..j] in at && nodes[j] == at[vec[..j]])
      && (i <= m ==> child == nodes[i] && vec[..i] in at && child == at[vec[..i]])
      && if i >= m then View() == t && c == m else ClimbedTo(t, vec, m, c, i)
    }

    /** One turn of it. */
    method ComeUp(nodes: seq<ChNode>, ghost vec: Path, ghost t: Tree, ghost m: nat, ghost c: nat, i: nat, child: ChNode?)
      returns (ghost c': nat)
      requires WellFormed(t) && Distinct(nodes)
      requires |nodes| == m + 1 && m <= |vec| && forall j :: 0 <= j <= m ==> vec[..j] in t
      requires i <= m && ComeTo(nodes, vec, t, m, c, i + 1, child)
      modifies this`at, at.Values
      ensures ComeTo(nodes, vec, t, m, c', i, nodes[i]) && at.Values <= old(at.Values)
    {
      c' := c;
      var pn, back := nodes[i], nodes[|nodes| - 1];
      if pn != back {
        c' := Turn(t, vec, m, c, i, pn, child, back);
      }
    }

    /** The second loop of removeChannel, from the last node found up to the root. */
    method Prune(nodes: seq<ChNode>, ghost vec: Path, ghost t: Tree, ghost m: nat) returns (ghost c: nat)
      requires Shape() && WellFormed(t) && t == View() && Along(nodes, vec) && Distinct(nodes)
      requires |nodes| == m + 1 && m <= |vec| && forall j :: 0 <= j <= m ==> vec[..j] in t
      modifies this`at, at.Values
      ensures Shape() && at.Values <= old(at.Values)
      ensures if m == 0 then View() == t else ClimbedTo(t, vec, m, c, 0)
    {
      c := m;
      var child: ChNode? := null;
      var i := |nodes|;
      while i > 0
        invariant 0 <= i <= m + 1 && ComeTo(nodes, vec, t, m, c, i, child)
        invariant at.Values <= old(at.Values)
      {
        i := i - 1;
        c := ComeUp(nodes, vec, t, m, c, i, child);
        child := nodes[i];
      }
    }

    /** Both loops of removeChannel. */
    method RemoveLevels(vec: seq<string>)
      requires Valid()
      modifies this`at, at.Values
      ensures Valid() && at.Values <= old(at.Values)
      ensures View() == RemovePath(old(View()), vec)
    {
      var nodes := Collect(vec);
      AlongDistinct(nodes, vec);
      ghost var t := View();
      ghost var m: nat := |nodes| - 1;
      ghost var c := Prune(nodes, vec, t, m);
      if m > 0 {
        ClimbEnds(t, vec, m, c);
      }
    }

    /** ChTree::removeChannel. */
    method RemoveChannel(channel: string)
      requires Valid()
      modifies this`at, at.Values
      ensures Valid() && at.Values <= old(at.Values)
      ensures View() == ChannelPaths.RemoveChannel(old(View()), channel)
    {
      if !IsChannel(channel) {
        return;
      }
      var vec := SplitChannel(channel);
      RemoveLevels(vec);
    }

    lemma ClimbEnds(t: Tree, vec: Path, m: nat, c: nat)
      requires WellFormed(t) && m == Longest(t, vec) > 0 && Shape() && ClimbedTo(t, vec, m, c, 0)
      ensures Valid() && View() == RemovePath(t, vec)
    {
      DetachKeeps(t, vec[..c]);
    }

    // ----- looking up

    /** The recursive findNode. */
    function FindNodeFrom(vec: seq<string>, pos: nat, node: ChNode, ghost q: Path): (r: ChNode?)
      requires Valid() && q in at && at[q] == node
      reads this, at.Values
      ensures match FindFrom(View(), vec, pos, q)
              case None => r == null
              case Some(p) => p in at && r == at[p]
      decreases |vec| - pos
    {
      if pos < |vec| then
        FindChildIs(q, vec[pos]);
        ChildIsPath(View(), q, vec[pos]);
        var found := FindChild(node.nodes, vec[pos]);
        if found == null then
          assert node == root <==> q == [] by { assert Placed(q) && Placed([]); }
          if node == root then null else node
        else if pos + 1 < |vec| then FindNodeFrom(vec, pos + 1, found, q + [vec[pos]])
        else found
      else null
    }

    /** findNode(string). */
    method FindNode(channel: string) returns (r: ChNode?)
      requires Valid()
      ensures match ChannelPaths.FindNode(View(), channel)
              case None => r == null
              case Some(p) => p in at && r == at[p]
    {
      if !IsChannel(channel) {
        return null;
      }
      var vec := SplitChannel(channel);
      r := FindNodeFrom(vec, 0, root, []);
    }

    /** The loop of findChannel, with its found test the way its comment reads: it stops
        where a segment is missing. */
    method FollowLevels(vec: seq<string>) returns (r: ChNode?)
      requires Valid() && vec != []
      ensures match FindFrom(View(), vec, 0, [])
              case None => r == null
              case Some(p) => p in at && r == at[p]
    {
      var node := root;
      var k := 0;
      ghost var all := FindFrom(View(), vec, 0, []);
      assert vec[..0] == [];
      while k < |vec|
        invariant 0 <= k <= |vec| && vec[..k] in at && node == at[vec[..k]]
        invariant k < |vec| ==> FindFrom(View(), vec, k, vec[..k]) == all
        invariant k == |vec| ==> all == Some(vec)
      {
        assert vec[..k + 1] == vec[..k] + [vec[k]];
        FindChildIs(vec[..k], vec[k]);
        ChildIsPath(View(), vec[..k], vec[k]);
        var found := FindChild(node.nodes, vec[k]);
        if found == null {
          assert node == root <==> vec[..k] == [] by { assert Placed(vec[..k]) && Placed([]); }
          if node == root {
            return null;
          } else {
            return node;
          }
        }
        node := found;
        k := k + 1;
        assert k == |vec| ==> vec[..k] == vec;
      }
      assert vec[..k] == vec;
      return node;
    }

    /** findChannel, corrected. */
    method FindChannel(channel: string) returns (r: ChNode?)
      requires Valid()
      ensures match ChannelPaths.FindNode(View(), channel)
              case None => r == null
              case Some(p) => p in at && r == at[p]
    {
      if !IsChannel(channel) {
        return null;
      }
      var vec := SplitChannel(channel);
      r := FollowLevels(vec);
    }
  }

  /** Any sequence of additions and removals on a new tree. */
  method Perform(ops: seq<Op>) returns (tree: ChTree)
    ensures tree.Valid() && tree.View() == Reached(ops)
  {
    tree := new ChTree();
    assert ops[..0] == [];
    for k := 0 to |ops|
      invariant tree.Valid() && fresh(tree) && fresh(tree.at.Values)
      invariant tree.View() == Reached(ops[..k])
    {
      assert ops[..k + 1][..k] == ops[..k];
      match ops[k] {
        case Add(c) => tree.AddChannel(c);
        case Remove(c) => tree.RemoveChannel(c);
      }
    }
    assert ops[..|ops|] == ops;
  }

  /** What the second loop of removeChannel finds at index i: a node without children and
      users exactly if the one below it has just been removed and the climb goes on. */
  lemma ClimbGoesOn(t: Tree, vec: Path, m: nat, c: nat, i: nat)
    requires WellFormed(t) && m <= |vec| && forall j :: 0 <= j <= m ==> vec[..j] in t
    requires 0 < i < c <= m && (c > i + 1 ==> CutFrom(t, vec, c) == c)
    ensures vec[..i] in Detach(t, vec[..c])
    ensures var n := Detach(t, vec[..c])[vec[..i]];
            if n.nodeSize == 0 && n.load.userSize == 0
            then && CutFrom(t, vec, c) == CutFrom(t, vec, i)
                 && Detach(Detach(t, vec[..c]), vec[..i]) == Detach(t, vec[..i])
            else CutFrom(t, vec, c) == c
  {
    OnPath(t, vec, i);
    assert NodeOk(t, vec[..i]);
    assert Parent(vec[..c]) == vec[..c - 1];
    if c == i + 1 {
      DetachTwice(t, vec, i);
    } else {
      assert vec[..i] != vec[..c - 1];
    }
  }

  lemma IsDetach(t: Tree, u: Tree, q: Path, n: Node)
    requires q != [] && Parent(q) in t
    requires forall p :: p in u <==> p in t && !(q <= p)
    requires n == t[Parent(q)].(kids := Without(t[Parent(q)].kids, Last(q)), nodeSize := t[Parent(q)].nodeSize - 1)
    requires u[Parent(q)] == n
    requires forall p :: p in u && p != Parent(q) ==> u[p] == t[p]
    ensures u == Detach(t, q)
  {
  }
}
