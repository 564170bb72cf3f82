/** `InMemoryHistoryManager`: the tasks a client has looked at, oldest first, at
    most one entry per id. A hash map from id to node gives O(1) access to a node of
    a doubly linked list that runs from `first` to `last`. */
module History {
  import opened Types
  import opened Model

  /** A list node. `key` is the id the node is filed under in the map; the Java node
      does not store it, so it is ghost here. */
  class Node {
    var next: Node?
    var prev: Node?
    const data: Entry
    ghost const key: int

    constructor (prev: Node?, next: Node?, data: Entry, ghost key: int)
      ensures this.prev == prev && this.next == next && this.data == data && this.key == key
    {
      this.prev := prev;
      this.next := next;
      this.data := data;
      this.key := key;
    }
  }

  /** The ids of a run of nodes, in order. */
  ghost function KeysOf(ns: seq<Node>): (r: seq<int>)
    ensures |r| == |ns| && forall i :: 0 <= i < |ns| ==> r[i] == ns[i].key
  {
    seq(|ns|, i requires 0 <= i < |ns| => ns[i].key)
  }

  /** The tasks held by a run of nodes, in order. */
  ghost function ItemsOf(ns: seq<Node>): (r: seq<Entry>)
    ensures |r| == |ns| && forall i :: 0 <= i < |ns| ==> r[i] == ns[i].data
  {
    seq(|ns|, i requires 0 <= i < |ns| => ns[i].data)
  }

  ghost predicate DistinctKeys(ns: seq<Node>)
  {
    forall i, j :: 0 <= i < j < |ns| ==> ns[i].key != ns[j].key
  }

  /** Every node is filed under the id of the task it holds. */
  ghost predicate KeyedById(ns: seq<Node>)
  {
    forall i :: 0 <= i < |ns| ==> ns[i].data.id == Some(ns[i].key)
  }

  /** Dropping nodes keeps every remaining node filed under its task's id. */
  lemma WithoutKeyed(ns: seq<Node>, ids: set<int>)
    requires KeyedById(ns)
    ensures KeyedById(Without(ns, ids))
  {
    WithoutMembers(ns, ids);
    var w := Without(ns, ids);
    forall j | 0 <= j < |w| ensures w[j].data.id == Some(w[j].key) {
      var m :| 0 <= m < |ns| && ns[m] == w[j];
    }
  }

  /** The nodes of `ns` whose id is not in `ids`, in their original order. */
  ghost function Without(ns: seq<Node>, ids: set<int>): seq<Node>
  {
    if ns == [] then [] else (if ns[0].key in ids then [] else [ns[0]]) + Without(ns[1..], ids)
  }

  /** `Without` keeps exactly the nodes whose id is not removed, never more of them
      than there were, and leaves a run without removed ids as it is. */
  lemma {:induction false} WithoutMembers(ns: seq<Node>, ids: set<int>)
    ensures forall j :: 0 <= j < |Without(ns, ids)| ==>
              Without(ns, ids)[j] in ns && Without(ns, ids)[j].key !in ids
    ensures forall j :: 0 <= j < |ns| && ns[j].key !in ids ==> ns[j] in Without(ns, ids)
    ensures |Without(ns, ids)| <= |ns|
    ensures (forall i :: 0 <= i < |ns| ==> ns[i].key !in ids) ==> Without(ns, ids) == ns
  {
    if ns != [] {
      WithoutMembers(ns[1..], ids);
      assert ns == [ns[0]] + ns[1..];
    }
  }

  /** Filtering distributes over concatenation. */
  lemma {:induction false} WithoutAppend(a: seq<Node>, b: seq<Node>, ids: set<int>)
    ensures Without(a + b, ids) == Without(a, ids) + Without(b, ids)
  {
    if a == [] {
      assert a + b == b;
    } else {
      assert (a + b)[0] == a[0];
      assert (a + b)[1..] == a[1..] + b;
      WithoutAppend(a[1..], b, ids);
    }
  }

  /** Two removals in a row remove the union of the ids. */
  lemma {:induction false} WithoutTwice(ns: seq<Node>, a: set<int>, b: set<int>)
    ensures Without(Without(ns, a), b) == Without(ns, a + b)
  {
    if ns != [] {
      WithoutTwice(ns[1..], a, b);
      var head := if ns[0].key in a then [] else [ns[0]];
      WithoutAppend(head, Without(ns[1..], a), b);
      assert Without(head, b) == if ns[0].key in a + b then [] else [ns[0]];
    }
  }

  /** Adding an id twice in a row leaves only the second node for it: the first
      is removed again before the second is appended. */
  lemma AddedTwice(ns: seq<Node>, n1: Node, n2: Node, k: int)
    requires n1.key == k
    ensures Without(Without(ns, {k}) + [n1], {k}) + [n2] == Without(ns, {k}) + [n2]
  {
    WithoutAppend(Without(ns, {k}), [n1], {k});
    WithoutTwice(ns, {k}, {k});
    assert {k} + {k} == {k};
    assert Without([n1], {k}) == [];
  }

  /** Putting a node whose id is new in front of a run with distinct ids keeps the
      ids distinct. */
  lemma DistinctCons(n: Node, rest: seq<Node>)
    requires DistinctKeys(rest)
    requires forall j :: 0 <= j < |rest| ==> rest[j].key != n.key
    ensures DistinctKeys([n] + rest)
  {
    var r := [n] + rest;
    forall a, b | 0 <= a < b < |r| ensures r[a].key != r[b].key {
      assert r[b] == rest[b - 1];
      if a > 0 { assert r[a] == rest[a - 1]; }
    }
  }

  /** Filtering keeps distinct ids distinct. */
  lemma {:induction false} WithoutDistinct(ns: seq<Node>, ids: set<int>)
    requires DistinctKeys(ns)
    ensures DistinctKeys(Without(ns, ids))
  {
    if ns != [] {
      var tail := ns[1..];
      assert DistinctKeys(tail) by {
        forall a, b | 0 <= a < b < |tail| ensures tail[a].key != tail[b].key {
          assert tail[a] == ns[a + 1] && tail[b] == ns[b + 1];
        }
      }
      WithoutDistinct(tail, ids);
      WithoutMembers(tail, ids);
      var rest := Without(tail, ids);
      if ns[0].key !in ids {
        forall j | 0 <= j < |rest| ensures rest[j].key != ns[0].key {
          var m :| 0 <= m < |tail| && tail[m] == rest[j];
          assert ns[m + 1] == rest[j];
        }
        DistinctCons(ns[0], rest);
        assert Without(ns, ids) == [ns[0]] + rest;
      } else {
        assert Without(ns, ids) == rest;
      }
    }
  }

  /** A run none of whose ids is removed is left as it is. */
  lemma {:induction false} WithoutNoneRemoved(ns: seq<Node>, ids: set<int>)
    requires forall i :: 0 <= i < |ns| ==> ns[i].key !in ids
    ensures Without(ns, ids) == ns
  {
    if ns != [] {
      WithoutNoneRemoved(ns[1..], ids);
      assert ns == [ns[0]] + ns[1..];
    }
  }

  /** In a run with distinct ids, removing the id at position `i` cuts out exactly
      that node. */
  lemma {:induction false} WithoutAt(ns: seq<Node>, i: nat)
    requires DistinctKeys(ns) && i < |ns|
    ensures Without(ns, {ns[i].key}) == ns[..i] + ns[i+1..]
  {
    var k := ns[i].key;
    var tail := ns[1..];
    if i == 0 {
      forall j | 0 <= j < |tail| ensures tail[j].key !in {k} {
        assert tail[j] == ns[j + 1];
      }
      WithoutNoneRemoved(tail, {k});
    } else {
      assert DistinctKeys(tail) by {
        forall a, b | 0 <= a < b < |tail| ensures tail[a].key != tail[b].key {
          assert tail[a] == ns[a + 1] && tail[b] == ns[b + 1];
        }
      }
      assert tail[i - 1] == ns[i];
      WithoutAt(tail, i - 1);
      assert ns[0].key != k;
      assert [ns[0]] + tail[..i - 1] == ns[..i];
      assert tail[i..] == ns[i + 1..];
    }
  }

  /** The id-to-node map that indexes a run. */
  ghost function MapOf(ns: seq<Node>): map<int, Node>
  {
    if ns == [] then map[] else MapOf(ns[1..])[ns[0].key := ns[0]]
  }

  /** Every id in the map comes from a node of the run, and the map sends it to
      the first such node. */
  lemma {:induction false} MapOfFind(ns: seq<Node>, k: int) returns (i: nat)
    requires k in MapOf(ns)
    ensures i < |ns| && ns[i].key == k && MapOf(ns)[k] == ns[i]
  {
    if ns[0].key == k {
      i := 0;
    } else {
      var j := MapOfFind(ns[1..], k);
      i := j + 1;
    }
  }

  /** In a run with distinct ids the map sends each node's id to that node. */
  lemma {:induction false} MapOfAt(ns: seq<Node>, i: nat)
    requires DistinctKeys(ns) && i < |ns|
    ensures ns[i].key in MapOf(ns) && MapOf(ns)[ns[i].key] == ns[i]
  {
    if i > 0 {
      var tail := ns[1..];
      assert DistinctKeys(tail) by {
        forall a, b | 0 <= a < b < |tail| ensures tail[a].key != tail[b].key {
          assert tail[a] == ns[a + 1] && tail[b] == ns[b + 1];
        }
      }
      MapOfAt(tail, i - 1);
      assert tail[i - 1] == ns[i];
      assert ns[0].key != ns[i].key;
    }
  }

  /** An id that no node of the run carries is not in the map. */
  lemma MapOfAbsent(ns: seq<Node>, k: int)
    requires forall i :: 0 <= i < |ns| ==> ns[i].key != k
    ensures k !in MapOf(ns)
  {
    if k in MapOf(ns) {
      var i := MapOfFind(ns, k);
    }
  }

  /** Filtering the run removes exactly the filtered ids from the map. */
  lemma {:induction false} MapOfWithout(ns: seq<Node>, ids: set<int>)
    ensures MapOf(Without(ns, ids)) == MapOf(ns) - ids
  {
    if ns != [] {
      var rest := Without(ns[1..], ids);
      MapOfWithout(ns[1..], ids);
      var m := MapOf(ns[1..]);
      if ns[0].key !in ids {
        assert Without(ns, ids) == [ns[0]] + rest;
        assert ([ns[0]] + rest)[1..] == rest;
        assert MapOf(Without(ns, ids)) == (m - ids)[ns[0].key := ns[0]];
        assert (m - ids)[ns[0].key := ns[0]] == m[ns[0].key := ns[0]] - ids;
      } else {
        assert Without(ns, ids) == rest;
        assert m - ids == m[ns[0].key := ns[0]] - ids;
      }
    }
  }

  /** Appending a node with a new id adds that one entry to the map. */
  lemma {:induction false} MapOfSnoc(ns: seq<Node>, n: Node)
    requires forall i :: 0 <= i < |ns| ==> ns[i].key != n.key
    ensures MapOf(ns + [n]) == MapOf(ns)[n.key := n]
  {
    if ns == [] {
      assert MapOf([n]) == MapOf([])[n.key := n] by {
        assert [n][1..] == [];
      }
      assert ns + [n] == [n];
    } else {
      var tail := ns[1..];
      forall i | 0 <= i < |tail| ensures tail[i].key != n.key {
        assert tail[i] == ns[i + 1];
      }
      MapOfSnoc(tail, n);
      assert (ns + [n])[0] == ns[0] && (ns + [n])[1..] == tail + [n];
    }
  }

  /** Appending a node with a new id keeps the ids distinct and files the node
      under its id. */
  lemma FileLast(ns: seq<Node>, n: Node)
    requires DistinctKeys(ns)
    requires forall j :: 0 <= j < |ns| ==> ns[j].key != n.key
    ensures DistinctKeys(ns + [n]) && MapOf(ns + [n]) == MapOf(ns)[n.key := n]
  {
    var r := ns + [n];
    forall a, b | 0 <= a < b < |r| ensures r[a].key != r[b].key {
      assert r[a] == ns[a];
    }
    MapOfSnoc(ns, n);
  }

  /** A run with distinct ids has as many map entries as nodes. */
  lemma {:induction false} MapOfSize(ns: seq<Node>)
    requires DistinctKeys(ns)
    ensures |MapOf(ns)| == |ns|
  {
    if ns != [] {
      var tail := ns[1..];
      assert DistinctKeys(tail) by {
        forall a, b | 0 <= a < b < |tail| ensures tail[a].key != tail[b].key {
          assert tail[a] == ns[a + 1] && tail[b] == ns[b + 1];
        }
      }
      MapOfSize(tail);
      forall i | 0 <= i < |tail| ensures tail[i].key != ns[0].key {
        assert tail[i] == ns[i + 1];
      }
      MapOfAbsent(tail, ns[0].key);
    }
  }

  /** Filtering out an id that the map of a run with distinct ids lacks changes
      nothing. */
  lemma NotFiled(ns: seq<Node>, k: int)
    requires DistinctKeys(ns) && k !in MapOf(ns)
    ensures forall j :: 0 <= j < |ns| ==> ns[j].key != k
    ensures Without(ns, {k}) == ns
  {
    forall j | 0 <= j < |ns| ensures ns[j].key !in {k} {
      MapOfAt(ns, j);
    }
    WithoutNoneRemoved(ns, {k});
  }

  /** The neighbour that `prev` must point to at position `i`. */
  ghost function Before(ns: seq<Node>, i: int): Node?
    requires 0 <= i < |ns|
  {
    if i == 0 then null else ns[i - 1]
  }

  /** The neighbour that `next` must point to at position `i`. */
  ghost function After(ns: seq<Node>, i: int): Node?
    requires 0 <= i < |ns|
  {
    if i + 1 == |ns| then null else ns[i + 1]
  }

  /** The run with position `i` cut out. */
  ghost function Cut(ns: seq<Node>, i: nat): seq<Node>
    requires i < |ns|
  {
    ns[..i] + ns[i+1..]
  }

  /** Every node of the run points back to its predecessor and on to its successor,
      with null at both ends. */
  ghost predicate Linked(ns: seq<Node>)
    reads ns
  {
    && (forall j {:trigger Before(ns, j)} :: 0 <= j < |ns| ==> ns[j].prev == Before(ns, j))
    && (forall j {:trigger After(ns, j)} :: 0 <= j < |ns| ==> ns[j].next == After(ns, j))
  }

  /** The links of `ns` once position `i` is bypassed: every other node keeps
      its links, and the neighbours of `i` point to each other. */
  ghost predicate Bypassed(ns: seq<Node>, i: nat)
    requires i < |ns|
    reads ns
  {
    && (forall j :: 0 <= j < |ns| && j != i && j + 1 != i ==> ns[j].next == After(ns, j))
    && (forall j :: 0 <= j < |ns| && j != i && j != i + 1 ==> ns[j].prev == Before(ns, j))
    && (0 < i ==> ns[i - 1].next == After(ns, i))
    && (i + 1 < |ns| ==> ns[i + 1].prev == Before(ns, i))
  }

  /** Bypassing a node leaves the rest of the run correctly linked. */
  lemma BypassedLinked(ns: seq<Node>, i: nat)
    requires i < |ns| && Bypassed(ns, i)
    ensures Linked(Cut(ns, i))
  {
    var n, c := |ns|, Cut(ns, i);
    assert |c| == n - 1;
    forall j | 0 <= j < n - 1
      ensures c[j].prev == Before(c, j) && c[j].next == After(c, j)
    {
      if j < i {
        assert c[j] == ns[j];
        if 0 < j {
          assert c[j - 1] == ns[j - 1];
        }
        if j + 1 < i {
          assert c[j + 1] == ns[j + 1];
        } else if i + 1 < n {
          assert c[j + 1] == ns[i + 1];
        }
      } else {
        assert c[j] == ns[j + 1];
        if j > i {
          assert c[j - 1] == ns[j];
        } else if 0 < i {
          assert c[j - 1] == ns[i - 1];
        }
        if j + 2 < n {
          assert c[j + 1] == ns[j + 2];
        }
      }
    }
  }

  /** The first and last nodes of a run with position `i` cut out. */
  lemma CutEnds(ns: seq<Node>, i: nat)
    requires i < |ns|
    ensures |Cut(ns, i)| == |ns| - 1
    ensures |ns| > 1 ==> Cut(ns, i)[0] == (if i == 0 then ns[1] else ns[0])
    ensures |ns| > 1 ==> Cut(ns, i)[|ns| - 2] == (if i + 1 == |ns| then ns[|ns| - 2] else ns[|ns| - 1])
  {
  }

  class HistoryManager {
    var history: map<int, Node>
    var first: Node?
    var last: Node?
    /** The list from `first` to `last`. */
    ghost var Nodes: seq<Node>
    /** Every node this manager has allocated. */
    ghost var Spine: set<Node>

    ghost predicate Valid()
      reads this, Spine
    {
      && (forall i :: 0 <= i < |Nodes| ==> Nodes[i] in Spine)
      && DistinctKeys(Nodes)
      && KeyedById(Nodes)
      && history == MapOf(Nodes)
      && Ends(Nodes)
      && Linked(Nodes)
    }

    /** `first` and `last` are the ends of `ns`, both null when it is empty. */
    ghost predicate Ends(ns: seq<Node>)
      reads this
    {
      if ns == [] then first == null && last == null
      else first == ns[0] && last == ns[|ns| - 1]
    }

    /** The ids in the history, oldest first. */
    ghost function Keys(): seq<int>
      reads this
    {
      KeysOf(Nodes)
    }

    /** What `getHistory()` returns. */
    ghost function Items(): seq<Entry>
      reads this
    {
      ItemsOf(Nodes)
    }

    /** The history after `add` of `task` under `id`: every earlier entry for `id`
        is dropped and a new node holding `task` comes last. */
    twostate predicate AddedLast(id: int, task: Entry)
      reads this
    {
      && |Nodes| > 0
      && Nodes == Without(old(Nodes), {id}) + [Nodes[|Nodes| - 1]]
      && Nodes[|Nodes| - 1].data == task && Nodes[|Nodes| - 1].key == id
    }

    constructor ()
      ensures Valid() && Spine == {} && Nodes == []
    {
      history := map[];
      first := null;
      last := null;
      Nodes := [];
      Spine := {};
    }

    /** The pointer surgery of `remove`: bypass `node`, which sits at position `i`
        of the correctly linked run `ns`, in its neighbours' links or in
        `first`/`last`. The rest of the run stays correctly linked. */
    method Unlink(node: Node, ghost ns: seq<Node>, ghost i: nat)
      requires i < |ns| && ns[i] == node
      requires DistinctKeys(ns) && Linked(ns)
      requires Ends(ns)
      modifies this`first, this`last, node.prev, node.next
      ensures history == old(history) && Nodes == old(Nodes) && Spine == old(Spine)
      ensures Linked(Cut(ns, i)) && Ends(Cut(ns, i))
    {
      Bypass(node, ns, i);
      BypassedLinked(ns, i);
      EndsCut(ns, i);
    }

    /** With `first` and `last` moved past position `i` when it is at an end,
        they are the ends of the run with `i` cut out. */
    lemma EndsCut(ns: seq<Node>, i: nat)
      requires i < |ns|
      requires first == if i == 0 then After(ns, 0) else ns[0]
      requires last == if i + 1 == |ns| then Before(ns, i) else ns[|ns| - 1]
      ensures Ends(Cut(ns, i))
    {
      CutEnds(ns, i);
      if |ns| == 1 {
        assert Cut(ns, i) == [];
      }
    }

    /** The writes of `remove`: the neighbours of `node` point to each other,
        and `first` or `last` moves past it when it is at an end. */
    method Bypass(node: Node, ghost ns: seq<Node>, ghost i: nat)
      requires i < |ns| && ns[i] == node
      requires DistinctKeys(ns) && Linked(ns)
      requires Ends(ns)
      modifies this`first, this`last, node.prev, node.next
      ensures history == old(history) && Nodes == old(Nodes) && Spine == old(Spine)
      ensures Bypassed(ns, i)
      ensures first == if i == 0 then After(ns, 0) else ns[0]
      ensures last == if i + 1 == |ns| then Before(ns, i) else ns[|ns| - 1]
    {
      ghost var n := |ns|;
      assert node.prev == Before(ns, i) && node.next == After(ns, i);
      assert forall a, b :: 0 <= a < b < n ==> ns[a] != ns[b];
      if node.prev == null {
        first := node.next;
      } else {
        node.prev.next := node.next;
      }
      if node.next == null {
        last := node.prev;
      } else {
        node.next.prev := node.prev;
      }
      forall j | 0 <= j < n && j != i && j + 1 != i
        ensures ns[j].next == After(ns, j)
      {
        assert old(ns[j].next) == After(ns, j);
      }
      forall j | 0 <= j < n && j != i && j != i + 1
        ensures ns[j].prev == Before(ns, j)
      {
        assert old(ns[j].prev) == Before(ns, j);
      }
    }

    /** `remove(taskId)`: unlink the node filed under `taskId`, if any. */
    method Remove(taskId: int)
      requires Valid()
      modifies this, Spine
      ensures Valid() && Spine == old(Spine)
      ensures Nodes == Without(old(Nodes), {taskId})
      ensures taskId !in old(history) ==> Nodes == old(Nodes) && history == old(history)
      ensures taskId !in history && history == old(history) - {taskId}
    {
      if taskId !in history {
        NotFiled(Nodes, taskId);
        return;
      }
      var node := history[taskId];
      ghost var ns := Nodes;
      ghost var n := |ns|;
      ghost var i := MapOfFind(ns, taskId);
      assert node.prev == Before(ns, i) && node.next == After(ns, i);
      history := history - {taskId};
      Nodes := Cut(ns, i);
      Unlink(node, ns, i);
      assert forall j :: 0 <= j < |Nodes| ==> Nodes[j] in Spine by {
        forall j | 0 <= j < |Nodes| ensures Nodes[j] in Spine {
          assert Nodes[j] == if j < i then ns[j] else ns[j + 1];
        }
      }
      assert Nodes == Without(ns, {taskId}) && DistinctKeys(Nodes) && history == MapOf(Nodes) by {
        WithoutAt(ns, i);
        WithoutDistinct(ns, {taskId});
        MapOfWithout(ns, {taskId});
      }
      WithoutKeyed(ns, {taskId});
    }

    /** The pointer surgery of `add`: hang `newNode`, which already points back to
        the old `last`, after the end of the correctly linked run `ns`. */
    method LinkLast(newNode: Node, ghost ns: seq<Node>)
      requires newNode !in ns && newNode.next == null
      requires Linked(ns)
      requires Ends(ns) && newNode.prev == last
      modifies this`first, this`last, last
      ensures history == old(history) && Nodes == old(Nodes) && Spine == old(Spine)
      ensures Linked(ns + [newNode]) && Ends(ns + [newNode])
    {
      var oldLast := last;
      last := newNode;
      if oldLast == null {
        first := newNode;
      } else {
        oldLast.next := newNode;
      }
      ghost var c := ns + [newNode];
      ghost var n := |ns|;
      forall j | 0 <= j < n + 1
        ensures c[j].prev == Before(c, j) && c[j].next == After(c, j)
      {
        if j < n {
          assert c[j] == ns[j];
          assert old(ns[j].prev) == Before(ns, j);
          if j + 1 < n {
            assert old(ns[j].next) == After(ns, j) && old(ns[n - 1].next) == After(ns, n - 1);
            assert ns[j] != ns[n - 1];
          }
        }
      }
    }

    /** The second half of `add`: file a new node for `task`, whose id is not in
        the history, and hang it after `last`. */
    method Append(task: Entry)
      requires Valid() && task.id.Some? && task.id.value !in history
      modifies this, Spine
      ensures Valid() && fresh(Spine - old(Spine)) && old(Spine) <= Spine
      ensures |Nodes| > 0 && fresh(Nodes[|Nodes| - 1]) && Nodes == old(Nodes) + [Nodes[|Nodes| - 1]]
      ensures Nodes[|Nodes| - 1].data == task && Nodes[|Nodes| - 1].key == task.id.value
    {
      var id := task.id.value;
      ghost var ns := Nodes;
      NotFiled(ns, id);
      var newNode := new Node(last, null, task, id);
      FileLast(ns, newNode);
      history := history[id := newNode];
      Nodes := ns + [newNode];
      Spine := Spine + {newNode};
      LinkLast(newNode, ns);
    }

    /** `add(task)`: forget any earlier entry for the task's id, then append the
        task at the most recent end. `task.getId()` is unboxed to an `int`, so the
        task must carry an id. */
    method Add(task: Entry)
      requires Valid() && task.id.Some?
      modifies this, Spine
      ensures Valid() && fresh(Spine - old(Spine)) && old(Spine) <= Spine
      ensures |Nodes| > 0 && fresh(Nodes[|Nodes| - 1])
      ensures AddedLast(task.id.value, task)
      ensures Items()[|Items()| - 1] == task
    {
      Remove(task.id.value);
      Append(task);
    }

    /** `getHistory()`: walk the list from `first` and copy the tasks into a new list,
        which later calls cannot change. Its length is the number of ids in the map. */
    method GetHistory() returns (list: seq<Entry>)
      requires Valid()
      ensures list == Items() && |list| == |history|
      ensures forall i, j :: 0 <= i < j < |list| ==> list[i].id != list[j].id
    {
      MapOfSize(Nodes);
      list := [];
      var node := first;
      ghost var k := 0;
      while node != null
        invariant 0 <= k <= |Nodes|
        invariant node == if k < |Nodes| then Nodes[k] else null
        invariant list == ItemsOf(Nodes[..k])
        decreases |Nodes| - k
      {
        assert Nodes[..k+1] == Nodes[..k] + [Nodes[k]];
        assert node.next == After(Nodes, k);
        list := list + [node.data];
        node := node.next;
        k := k + 1;
      }
      assert Nodes[..k] == Nodes;
      forall i, j | 0 <= i < j < |list| ensures list[i].id != list[j].id {
        assert list[i].id == Some(Nodes[i].key) && list[j].id == Some(Nodes[j].key);
      }
    }
  }
}
