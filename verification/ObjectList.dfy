/**
 The intrusive doubly linked list of `objlist.c`: objects carry their own
 links, and a list is one pointer to its first object.
*/
module ObjectList {
  class Node {
    var objType: nat
    var next: Node?
    var prev: Node?
    var owner: nat
    var refCount: int

    constructor ()
      ensures Detached()
    {
      objType, owner, refCount := 0, 0, 0;
      next, prev := null, null;
    }

    predicate Detached() reads this {
      next == null && prev == null
    }
  }

  predicate Distinct(s: seq<Node>) {
    forall i, j :: 0 <= i < j < |s| ==> s[i] != s[j]
  }

  /** Forward and back links agree with the sequence everywhere. */
  ghost predicate Linked(s: seq<Node>, repr: set<Node>)
    reads repr
  {
    (forall i :: 0 <= i < |s| ==> s[i] in repr)
    && (s != [] ==> s[0].prev == null && s[|s| - 1].next == null)
    && (forall i, j :: 0 <= i < j < |s| && j == i + 1 ==> s[i].next == s[j] && s[j].prev == s[i])
  }

  /** `nodes` is the content, first object first; `repr` holds at least its objects. */
  class ObjList {
    var head: Node?
    ghost var nodes: seq<Node>
    ghost var repr: set<Node>

    ghost predicate Valid()
      reads this, repr
    {
      (if nodes == [] then head == null else head == nodes[0])
      && Distinct(nodes) && Linked(nodes, repr)
    }

    constructor ()
      ensures Valid() && nodes == [] && repr == {}
    {
      head, nodes, repr := null, [], {};
    }
  }

  // ----- adding

  /** A detached object can only be in a list of which it is the sole object. */
  lemma DetachedIsOutside(s: seq<Node>, repr: set<Node>, node: Node)
    requires Linked(s, repr) && node.Detached() && s != [node]
    ensures node !in s
  {
    forall i | 0 <= i < |s| ensures s[i] != node {
      if i + 1 < |s| {
        assert s[i].next == s[i + 1];
      } else if i > 0 {
        assert s[i].prev == s[i - 1];
      }
    }
  }

  /** The first object of a list, if there is one. */
  ghost function First(list: ObjList?): set<Node>
    reads list
  {
    if list == null || list.head == null then {} else {list.head}
  }

  /**
   `ObjList_Add`: pushes a detached object in front; refuses one whose links are
   set.  The sole object of the list looks detached too: adding it again reports
   success and ties it to itself.
  */
  method Add(list: ObjList?, node: Node) returns (ok: bool)
    modifies list, node`next, node`prev, First(list)`prev
    ensures ok == (list != null && old(node.Detached()))
    ensures !ok && list != null ==> list.head == old(list.head) && list.nodes == old(list.nodes)
    ensures !ok ==> node.next == old(node.next) && node.prev == old(node.prev)
    ensures !ok && list != null && old(list.Valid()) ==> list.Valid()
    ensures ok ==> list.head == node && node.next == old(list.head)
    ensures ok && old(list.head) != null ==> old(list.head).prev == node
    ensures ok && old(list.Valid()) && old(list.nodes) != [node] ==>
              list.nodes == [node] + old(list.nodes) && list.repr == {node} + old(list.repr) && list.Valid()
  {
    if list != null && node.next == null && node.prev == null {
      ghost var s, valid := list.nodes, list.Valid() && list.nodes != [node];
      if valid {
        DetachedIsOutside(s, list.repr, node);
      }
      if list.head != null {
        list.head.prev := node;
      }
      node.next := list.head;
      list.head := node;
      if valid {
        list.nodes, list.repr := [node] + s, {node} + list.repr;
        PushedLinked(s, list.repr, node);
      }
      return true;
    }
    return false;
  }

  /** Adding a new object twice is reported as a success both times, and leaves the object its own neighbour. */
  method AddTwice() returns (list: ObjList, node: Node, first: bool, second: bool)
    ensures first && second && list.head == node && node.next == node && node.prev == node
  {
    list := new ObjList();
    node := new Node();
    first := Add(list, node);
    second := Add(list, node);
  }

  lemma PushedLinked(s: seq<Node>, repr: set<Node>, node: Node)
    requires Distinct(s) && node !in s && node in repr && forall i :: 0 <= i < |s| ==> s[i] in repr
    requires forall i, j :: 0 <= i < j < |s| && j == i + 1 ==> s[i].next == s[j] && s[j].prev == s[i]
    requires s != [] ==> s[|s| - 1].next == null && s[0].prev == node
    requires node.prev == null && node.next == if s == [] then null else s[0]
    ensures Linked([node] + s, repr) && Distinct([node] + s)
  {
    var r := [node] + s;
    forall i, j | 0 <= i < j < |r| && j == i + 1 ensures r[i].next == r[j] && r[j].prev == r[i] {
      if i > 0 {
        assert r[i] == s[i - 1] && r[j] == s[j - 1];
      }
    }
  }

  /**
   `ObjList_Init`: sets every field and, given a list, adds the object to it.
   The old links are forgotten, so an object that already is in a list breaks it.
  */
  method Init(list: ObjList?, node: Node, objType: nat, owner: nat) returns (ok: bool)
    modifies list, node, First(list)`prev
    ensures ok && node.owner == owner && node.objType == objType && node.refCount == 1
    ensures list == null ==> node.Detached()
    ensures list != null ==> list.head == node && node.next == old(list.head)
    ensures list != null && old(list.head) != null ==> old(list.head).prev == node
    ensures list != null && old(list.Valid()) && node !in old(list.repr) ==>
              list.nodes == [node] + old(list.nodes) && list.Valid()
  {
    node.owner := owner;
    node.next, node.prev := null, null;
    node.objType := objType;
    node.refCount := 1;
    if list != null {
      ok := Add(list, node);
    } else {
      ok := true;
    }
  }

  // ----- removing

  /** The sequence without its k-th element. */
  function Without(s: seq<Node>, k: nat): (r: seq<Node>)
    requires k < |s|
  {
    s[..k] + s[k + 1..]
  }

  function At(s: seq<Node>, i: int): Node? {
    if 0 <= i < |s| then s[i] else null
  }

  /** Objects that are linked except around the k-th, which is bridged, are linked without it. */
  lemma Bridged(s: seq<Node>, repr: set<Node>, k: nat)
    requires k < |s| && Distinct(s) && forall i :: 0 <= i < |s| ==> s[i] in repr
    requires forall i, j :: 0 <= i < j < |s| && j == i + 1 && i != k && j != k ==>
             s[i].next == s[j] && s[j].prev == s[i]
    requires k > 0 ==> s[0].prev == null
    requires k + 1 < |s| ==> s[|s| - 1].next == null
    requires k > 0 ==> s[k - 1].next == At(s, k + 1)
    requires k + 1 < |s| ==> s[k + 1].prev == At(s, k - 1)
    ensures Linked(Without(s, k), repr - {s[k]}) && Distinct(Without(s, k))
  {
    var r := Without(s, k);
    forall i, j | 0 <= i < j < |r| && j == i + 1 ensures r[i].next == r[j] && r[j].prev == r[i] {
      var p, q := if i < k then i else i + 1, if j < k then j else j + 1;
      assert r[i] == s[p] && r[j] == s[q];
    }
  }

  /** A missing link tells the first and the last object. */
  lemma EndsOfList(s: seq<Node>, repr: set<Node>, k: nat)
    requires Linked(s, repr) && k < |s|
    ensures s[k].prev == null <==> k == 0
    ensures s[k].next == null <==> k == |s| - 1
  {
    if k > 0 {
      assert s[k].prev == s[k - 1];
    }
    if k + 1 < |s| {
      assert s[k].next == s[k + 1];
    }
  }

  /**
   `ObjList_Remove`: takes the k-th object out of the list `home` it is in.  The
   list passed along only matters for a first object: then it becomes what
   followed in `home`.  A detached object that is not in `home` empties it.
  */
  method Remove(list: ObjList, node: Node, ghost home: ObjList, ghost k: nat)
    requires list.Valid() && list.head != null
    requires home.Valid() && (home != list ==> home.repr !! list.repr)
    requires node !in home.nodes ==> node.Detached()
    requires node in home.nodes ==> k < |home.nodes| && home.nodes[k] == node
    modifies list, home`nodes, home`repr, home.repr`next, home.repr`prev
    ensures list.Valid() && node.Detached()
    ensures node !in old(home.nodes) ==> list.nodes == []
    ensures node in old(home.nodes) && k == 0 ==> list.nodes == Without(old(home.nodes), 0)
    ensures node in old(home.nodes) && k > 0 ==> home.Valid() && home.nodes == Without(old(home.nodes), k)
    ensures node in old(home.nodes) && k > 0 && home != list ==> list.nodes == old(list.nodes)
    ensures home == list ==> list.repr <= old(list.repr) - {node}
  {
    ghost var s := home.nodes;
    if node.prev == null && node.next == null {
      if s != [node] {
        DetachedIsOutside(s, home.repr, node);
      }
      list.head := null;
      list.nodes, list.repr := [], {};
      return;
    }
    EndsOfList(s, home.repr, k);
    if node.prev == null {
      UnlinkHead(list, node, home);
    } else if node.next == null {
      UnlinkEnd(home, node);
    } else {
      UnlinkMiddle(home, node, k);
    }
  }

  method UnlinkHead(list: ObjList, node: Node, ghost home: ObjList)
    requires home.Valid() && |home.nodes| > 1 && home.nodes[0] == node
    modifies list, home.repr`next, home.repr`prev
    ensures list.Valid() && node.Detached() && list.repr == old(home.repr) - {node}
    ensures list.nodes == Without(old(home.nodes), 0)
  {
    ghost var s, repr, k: nat := home.nodes, home.repr, 0;
    assert s[k].next == s[k + 1];
    list.head := node.next;
    list.head.prev := null;
    node.next := null;
    Bridged(s, repr, k);
    list.nodes, list.repr := Without(s, k), repr - {node};
  }

  method UnlinkEnd(ghost list: ObjList, node: Node)
    requires list.Valid() && |list.nodes| > 1 && list.nodes[|list.nodes| - 1] == node
    modifies list`nodes, list`repr, list.repr`next, list.repr`prev
    ensures list.Valid() && node.Detached() && list.repr == old(list.repr) - {node}
    ensures list.nodes == Without(old(list.nodes), |old(list.nodes)| - 1)
  {
    ghost var s, k := list.nodes, |list.nodes| - 1;
    assert s[k].prev == s[k - 1];
    node.prev.next := null;
    node.prev := null;
    Bridged(s, list.repr, k);
    list.nodes, list.repr := Without(s, k), list.repr - {node};
  }

  method UnlinkMiddle(ghost list: ObjList, node: Node, ghost k: nat)
    requires list.Valid() && 0 < k && k + 1 < |list.nodes| && list.nodes[k] == node
    modifies list`nodes, list`repr, list.repr`next, list.repr`prev
    ensures list.Valid() && node.Detached() && list.repr == old(list.repr) - {node}
    ensures list.nodes == Without(old(list.nodes), k)
  {
    ghost var s := list.nodes;
    assert s[k].prev == s[k - 1] && s[k].next == s[k + 1];
    node.prev.next := node.next;
    node.next.prev := node.prev;
    node.next, node.prev := null, null;
    Bridged(s, list.repr, k);
    list.nodes, list.repr := Without(s, k), list.repr - {node};
  }

  // ----- deleting by owner

  /** The deletion callback: may change the object it is given, never the list; `calls` logs its arguments. */
  class Callback {
    ghost var calls: seq<Node>

    constructor ()
      ensures calls == []
    {
      calls := [];
    }

    method Call(node: Node)
      requires node.Detached()
      modifies this, node
      ensures calls == old(calls) + [node]
    {
      calls := calls + [node];
    }
  }

  ghost function OwnedBy(nodes: set<Node>, owner: nat): set<Node>
    reads nodes
  {
    set n | n in nodes && n.owner == owner
  }

  /** Objects outside m, in order. */
  ghost function Kept(s: seq<Node>, m: set<Node>): (r: seq<Node>) {
    if s == [] then []
    else if s[|s| - 1] in m then Kept(s[..|s| - 1], m)
    else Kept(s[..|s| - 1], m) + [s[|s| - 1]]
  }

  /** Objects inside m, in order. */
  ghost function Dropped(s: seq<Node>, m: set<Node>): (r: seq<Node>) {
    if s == [] then []
    else if s[|s| - 1] in m then Dropped(s[..|s| - 1], m) + [s[|s| - 1]]
    else Dropped(s[..|s| - 1], m)
  }

  /** What is kept and what is dropped together are all the objects. */
  lemma {:induction false} KeptAndDropped(s: seq<Node>, m: set<Node>)
    ensures multiset(s) == multiset(Kept(s, m)) + multiset(Dropped(s, m))
    ensures forall n <- Kept(s, m) :: n !in m
    ensures forall n <- Dropped(s, m) :: n in m
  {
    if s != [] {
      KeptAndDropped(s[..|s| - 1], m);
      assert s == s[..|s| - 1] + [s[|s| - 1]];
    }
  }

  lemma KeptOnes(s: seq<Node>, m: set<Node>)
    ensures forall n <- s :: n in Kept(s, m) <==> n !in m
  {
    KeptAndDropped(s, m);
    forall n <- s ensures n in Kept(s, m) <==> n !in m {
      assert multiset(s)[n] > 0;
    }
  }

  lemma NextKept(s: seq<Node>, m: set<Node>, i: nat)
    requires i < |s|
    ensures Kept(s[..i + 1], m) == Kept(s[..i], m) + if s[i] in m then [] else [s[i]]
    ensures Dropped(s[..i + 1], m) == Dropped(s[..i], m) + if s[i] in m then [s[i]] else []
  {
    assert s[..i + 1][..i] == s[..i];
  }

  /** The list while deletion stands at position i: the kept part, then the rest. */
  ghost function Remaining(s: seq<Node>, m: set<Node>, i: nat): (r: seq<Node>)
    requires i <= |s|
  {
    Kept(s[..i], m) + s[i..]
  }

  /** One step of deletion, on the content. */
  lemma StepRemaining(s: seq<Node>, m: set<Node>, i: nat)
    requires i < |s|
    ensures var k := |Kept(s[..i], m)|;
            var r := Remaining(s, m, i);
            k < |r| && r[k] == s[i] && At(r, k + 1) == At(s, i + 1)
            && Remaining(s, m, i + 1) == if s[i] in m then Without(r, k) else r
  {
    NextKept(s, m, i);
    FirstOfRest(Kept(s[..i], m), s, i);
  }

  lemma FirstOfRest(kept: seq<Node>, s: seq<Node>, i: nat)
    requires i < |s|
    ensures var k, r := |kept|, kept + s[i..];
            k < |r| && r[k] == s[i] && At(r, k + 1) == At(s, i + 1) && Without(r, k) == kept + s[i + 1..]
            && kept + [s[i]] + s[i + 1..] == r
  {
    var k, r := |kept|, kept + s[i..];
    assert r[..k] == kept && r[k + 1..] == s[i + 1..];
    assert s[i..] == [s[i]] + s[i + 1..];
  }

  lemma NextInList(s: seq<Node>, repr: set<Node>, k: nat)
    requires Linked(s, repr) && k < |s|
    ensures s[k] in repr && s[k].next == At(s, k + 1)
  {
    if k + 1 < |s| {
      assert s[k].next == s[k + 1];
    }
  }

  lemma KeepsPlace(nodes: seq<Node>, s: seq<Node>, repr: set<Node>, m: set<Node>, i: nat)
    requires Linked(nodes, repr) && i < |s| && nodes == Remaining(s, m, i)
    ensures s[i] in repr
  {
    StepRemaining(s, m, i);
  }

  /** Deletion of the objects m from the list s stands at position i; c is the log it started with. */
  ghost predicate Standing(list: ObjList, callback: Callback, s: seq<Node>, m: set<Node>, c: seq<Node>, i: nat)
    reads list, callback
  {
    i <= |s| && list.nodes == Remaining(s, m, i) && callback.calls == c + Dropped(s[..i], m)
  }

  lemma NothingHandled(s: seq<Node>, m: set<Node>)
    ensures Remaining(s, m, 0) == s && Dropped(s[..0], m) == []
  {
    assert s[..0] == [] && s[0..] == s;
  }

  lemma AllHandled(s: seq<Node>, m: set<Node>)
    ensures Remaining(s, m, |s|) == Kept(s, m) && s[..|s|] == s
  {
    assert s[..|s|] == s;
  }

  /** Takes out the k-th object and hands it to the callback. */
  method RemoveAndCall(list: ObjList, obj: Node, callback: Callback, ghost k: nat)
    requires list.Valid() && k < |list.nodes| && list.nodes[k] == obj
    modifies list, list.repr, callback
    ensures list.Valid() && list.repr <= old(list.repr) && list.nodes == Without(old(list.nodes), k)
    ensures callback.calls == old(callback.calls) + [obj]
    ensures forall n <- list.repr ::
              n.owner == old(n.owner) && n.objType == old(n.objType) && n.refCount == old(n.refCount)
  {
    Remove(list, obj, list, k);
    callback.Call(obj);
    ghost var valid := list.Valid();
    assert valid;
  }

  /** One turn of the deletion loop: handles the object at position i and returns the next one. */
  method DeleteStep(list: ObjList, obj: Node, owner: nat, callback: Callback,
                    ghost s: seq<Node>, ghost m: set<Node>, ghost c: seq<Node>, ghost i: nat)
    returns (next: Node?)
    requires list.Valid() && Standing(list, callback, s, m, c, i) && i < |s| && obj == s[i]
    requires obj in m <==> obj.owner == owner
    modifies list, list.repr, callback
    ensures list.Valid() && list.repr <= old(list.repr)
    ensures next == At(s, i + 1) && Standing(list, callback, s, m, c, i + 1)
    ensures forall n <- list.repr ::
              n.owner == old(n.owner) && n.objType == old(n.objType) && n.refCount == old(n.refCount)
  {
    StepRemaining(s, m, i);
    NextKept(s, m, i);
    ghost var k := |Kept(s[..i], m)|;
    NextInList(list.nodes, list.repr, k);
    next := obj.next;
    if obj.owner == owner {
      RemoveAndCall(list, obj, callback, k);
    }
  }

  /**
   `ObjList_Delete`: removes every object of the owner.  The other objects stay
   in order, and the callback gets each removed object once, in list order and
   already detached.
  */
  method Delete(list: ObjList, owner: nat, callback: Callback?) returns (ok: bool)
    requires list.Valid()
    modifies list, list.repr, callback
    ensures list.Valid() && list.repr <= old(list.repr)
    ensures ok == (old(list.nodes) != [] && callback != null)
    ensures !ok ==> list.nodes == old(list.nodes) && (callback != null ==> callback.calls == old(callback.calls))
    ensures ok ==> list.nodes == Kept(old(list.nodes), old(OwnedBy(list.repr, owner)))
    ensures ok ==> callback.calls == old(callback.calls) + Dropped(old(list.nodes), old(OwnedBy(list.repr, owner)))
    ensures ok ==> forall n <- old(list.nodes) :: n in list.nodes <==> old(n.owner) != owner
    ensures forall n <- list.repr ::
              n.owner == old(n.owner) && n.objType == old(n.objType) && n.refCount == old(n.refCount)
  {
    var obj := list.head;
    if obj == null || callback == null {
      return false;
    }
    ghost var s, m := list.nodes, OwnedBy(list.repr, owner);
    DeleteFrom(list, obj, owner, callback, m);
    AllHandled(s, m);
    KeptOnes(s, m);
    return true;
  }

  /** The deletion loop, over a list that is not empty. */
  method DeleteFrom(list: ObjList, first: Node, owner: nat, callback: Callback, ghost m: set<Node>)
    requires list.Valid() && At(list.nodes, 0) == first && m == OwnedBy(list.repr, owner)
    modifies list, list.repr, callback
    ensures list.Valid() && list.repr <= old(list.repr)
    ensures Standing(list, callback, old(list.nodes), m, old(callback.calls), |old(list.nodes)|)
    ensures forall n <- list.repr ::
              n.owner == old(n.owner) && n.objType == old(n.objType) && n.refCount == old(n.refCount)
  {
    var obj: Node? := first;
    ghost var s, c, i := list.nodes, callback.calls, 0;
    NothingHandled(s, m);
    while obj != null
      invariant 0 <= i <= |s| && obj == At(s, i)
      invariant list.Valid() && list.repr <= old(list.repr) && Standing(list, callback, s, m, c, i)
      invariant forall n <- list.repr ::
                  n.owner == old(n.owner) && n.objType == old(n.objType) && n.refCount == old(n.refCount)
      decreases |s| - i
    {
      KeepsPlace(list.nodes, s, list.repr, m, i);
      obj := DeleteStep(list, obj, owner, callback, s, m, c, i);
      i := i + 1;
    }
    assert i == |s|;
  }
}
