/** The doubly linked list with a cursor (zen_rtsp/common.c), for the one kind of element
    the service keeps in it: the subscribers of a camera, matched by `client_info_match`
    (zen_rtsp/client_net.c). */
module ClientList {

  datatype Client = Client(camera: nat, fd: int, ip: string)

  const NO_CLIENT := Client(0, 0, "")

  /** `client_info_match`: 1 same socket and camera, 0 same socket, -1 no match. */
  function Match(ori: Client, key: Client): int {
    if ori.fd == key.fd then if ori.camera == key.camera then 1 else 0 else -1
  }

  /** The index of the first element that matches, or the length. */
  function FirstMatch(s: seq<Client>, key: Client): (i: nat)
    ensures i <= |s|
    ensures i < |s| ==> Match(s[i], key) >= 0
    ensures forall j :: 0 <= j < i ==> Match(s[j], key) < 0
  {
    if s == [] || Match(s[0], key) >= 0 then 0 else 1 + FirstMatch(s[1..], key)
  }

  class Node {
    var next: Node?
    var pre: Node?
    var data: Client

    constructor (data: Client)
      ensures this.data == data && next == null && pre == null
    {
      this.data := data;
      next, pre := null, null;
    }
  }

  /** `nodes` is the sequence of nodes that the links describe and `contents` their data. */
  class List {
    var head: Node?
    var tail: Node?
    var cur: Node?
    var number: int
    ghost var nodes: seq<Node>
    ghost var contents: seq<Client>

    ghost predicate Valid()
      reads this`head, this`tail, this`number, this`nodes, this`contents, nodes
    {
      && number == |nodes| == |contents|
      && (forall i, j :: 0 <= i < j < |nodes| ==> nodes[i] != nodes[j])
      && (|nodes| == 0 ==> head == null && tail == null)
      && (|nodes| > 0 ==> head == nodes[0] && tail == nodes[|nodes| - 1] && nodes[0].pre == null && nodes[|nodes| - 1].next == null)
      && (forall i {:trigger nodes[i].next} :: 0 <= i < |nodes| - 1 ==> nodes[i].next == nodes[i + 1])
      && (forall i {:trigger nodes[i].pre} :: 0 < i < |nodes| ==> nodes[i].pre == nodes[i - 1])
      && (forall i {:trigger nodes[i].data} :: 0 <= i < |nodes| ==> nodes[i].data == contents[i])
    }

    constructor ()
      ensures Valid() && contents == [] && nodes == [] && cur == null
    {
      head, tail, cur, number := null, null, null, 0;
      nodes, contents := [], [];
    }

    /** Append a zeroed element (`list_node_alloc_tail`). */
    method AllocTail()
      requires Valid()
      modifies this, nodes
      ensures Valid() && cur == old(cur)
      ensures tail != null && fresh(tail) && nodes == old(nodes) + [tail]
      ensures contents == old(contents) + [NO_CLIENT]
    {
      var tmp := new Node(NO_CLIENT);
      if head != null {
        tmp.pre := tail;
        tail.next := tmp;
        tail := tail.next;
      } else {
        tmp.pre := null;
        head := tmp;
      }
      tail := tmp;
      number := number + 1;
      nodes := nodes + [tmp];
      contents := contents + [NO_CLIENT];
    }

    /** Overwrite the data of node `k`. */
    method Overwrite(node: Node, data: Client, ghost k: nat)
      requires Valid() && k < |nodes| && node == nodes[k]
      modifies this`contents, node`data
      ensures Valid() && contents == old(contents)[k := data]
    {
      node.data := data;
      contents := contents[k := data];
    }

    /** Put the cursor on the first element that matches, or on null (`list_node_seek`). */
    method Seek(key: Client) returns (ret: int)
      requires Valid()
      modifies this`cur
      ensures var i := FirstMatch(contents, key);
        if i < |nodes| then cur == nodes[i] && ret == Match(contents[i], key)
        else cur == null && ret == -1
    {
      ret := -1;
      cur := head;
      ghost var i := 0;
      while cur != null
        invariant 0 <= i <= |nodes|
        invariant cur == if i < |nodes| then nodes[i] else null
        invariant ret == -1
        invariant forall j :: 0 <= j < i ==> Match(contents[j], key) < 0
        decreases |nodes| - i
      {
        ret := Match(cur.data, key);
        if ret >= 0 {
          break;
        } else {
          cur := cur.next;
          i := i + 1;
        }
      }
    }

    /** The sequences without element `k`. */
    ghost function NodesWithout(k: nat): seq<Node>
      requires k < |nodes|
      reads this`nodes
    {
      nodes[..k] + nodes[k + 1..]
    }

    ghost function ContentsWithout(k: nat): seq<Client>
      requires k < |contents|
      reads this`contents
    {
      contents[..k] + contents[k + 1..]
    }

    method DelTail(ghost k: nat)
      requires Valid() && k + 1 == |nodes|
      modifies this`head, this`tail, this`number, this`nodes, this`contents, nodes
      ensures Valid() && nodes == old(NodesWithout(k)) && contents == old(ContentsWithout(k))
    {
      if tail.pre != null {
        tail := tail.pre;
        tail.next := null;
      } else {
        head := null;
        tail := null;
      }
      number := number - 1;
      nodes, contents := nodes[..k], contents[..k];
    }

    method DelHead(ghost k: nat)
      requires Valid() && |nodes| > 1 && k == 0
      modifies this`head, this`number, this`nodes, this`contents, nodes
      ensures Valid() && nodes == old(NodesWithout(k)) && contents == old(ContentsWithout(k))
    {
      // The head is not the tail here, so it has a successor.
      head := head.next;
      head.pre := null;
      number := number - 1;
      nodes, contents := nodes[1..], contents[1..];
    }

    method DelMiddle(ghost k: nat)
      requires Valid() && 0 < k < |nodes| - 1 && cur == nodes[k]
      modifies this`cur, this`number, this`nodes, this`contents, nodes
      ensures Valid() && cur == null
      ensures nodes == old(NodesWithout(k)) && contents == old(ContentsWithout(k))
    {
      assert cur.pre == nodes[k - 1] && cur.next == nodes[k + 1];
      cur.pre.next := cur.next;
      cur.next.pre := cur.pre;
      cur := null;
      number := number - 1;
      nodes, contents := NodesWithout(k), ContentsWithout(k);
    }

    /** Remove the element under the cursor (`list_node_del_cur`).  The cursor must not be
        left over from an earlier removal: on head and tail it keeps pointing at the node. */
    method DelCur(ghost k: nat) returns (ret: int)
      requires Valid() && (cur != null ==> k < |nodes| && cur == nodes[k])
      modifies this, nodes
      ensures Valid() && (cur == null || cur !in nodes)
      ensures if old(cur) == null then ret == 1 && nodes == old(nodes) && contents == old(contents)
        else ret == 0 && nodes == old(NodesWithout(k)) && contents == old(ContentsWithout(k))
    {
      if number <= 0 || cur == null {
        return 1;
      }
      if cur == tail {
        DelTail(k);
        return 0;
      }
      if cur == head {
        DelHead(k);
        return 0;
      }
      DelMiddle(k);
      return 0;
    }

    /** Visit every element (`list_operate_node_all`). */
    method OperateAll() returns (visited: seq<Client>)
      requires Valid()
      ensures visited == contents
    {
      visited := [];
      var tmp := head;
      while tmp != null
        invariant |visited| <= |nodes|
        invariant tmp == if |visited| < |nodes| then nodes[|visited|] else null
        invariant visited == contents[..|visited|]
        decreases |nodes| - |visited|
      {
        visited := visited + [tmp.data];
        tmp := tmp.next;
      }
    }
  }
}
