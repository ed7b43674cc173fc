/**
 * The circular doubly-linked list with a sentinel head of src/list.c.
 *
 * C has no list object: a list is its head node, and every entry is a node
 * embedded in some container. Here a list is described by the ghost predicate
 * IsRing(head, elems), which says that following `next` from `head` visits the
 * nodes of `elems` in order and comes back to `head`, and that `prev` retraces
 * the same ring backwards. The operations take that description as ghost
 * parameters and say how it changes.
 */
module List {
  import opened Wrappers

  /** The M3U8_LIST_STATUS_* codes of src/list.h. */
  datatype Status = NoError | InvalidArgs | MemAllocError | NotFound | UnknownError {
    function Code(): int {
      match this
      case NoError => 0x1000_0000
      case InvalidArgs => 0x1000_0001
      case MemAllocError => 0x1000_0002
      case NotFound => 0x1000_0003
      case UnknownError => 0x1000_0099
    }
  }

  /**
   * A list node. `key` and `value` are the payload of the attribute that embeds
   * the node (what container_of recovers in C); the list operations never touch
   * them, and they never change once the node exists.
   */
  class Node {
    var next: Node?
    var prev: Node?
    const key: string
    const value: string

    /** A freshly allocated, zero-initialised node: both links null. */
    constructor (key: string, value: string)
      ensures next == null && prev == null
      ensures this.key == key && this.value == value
    {
      this.key := key;
      this.value := value;
      next := null;
      prev := null;
    }
  }

  /** The node that follows elems[i] on the ring headed by `head`. */
  ghost function After(head: Node, elems: seq<Node>, i: int): Node
    requires 0 <= i < |elems|
  {
    if i + 1 < |elems| then elems[i + 1] else head
  }

  /** The node that precedes elems[i] on the ring headed by `head`. */
  ghost function Before(head: Node, elems: seq<Node>, i: int): Node
    requires 0 <= i < |elems|
  {
    if i == 0 then head else elems[i - 1]
  }

  /** The first entry, or the head itself when there is none. */
  ghost function First(head: Node, elems: seq<Node>): Node
  {
    if elems == [] then head else elems[0]
  }

  /** The last entry, or the head itself when there is none. */
  ghost function Last(head: Node, elems: seq<Node>): Node
  {
    if elems == [] then head else elems[|elems| - 1]
  }

  /** No node occurs twice in `s`. */
  ghost predicate Distinct(s: seq<Node>)
  {
    forall i, j :: 0 <= i < j < |s| ==> s[i] != s[j]
  }

  /** Dropping the entry at position k keeps the others distinct and drops exactly that node. */
  lemma DropKeepsDistinct(s: seq<Node>, k: int)
    requires Distinct(s) && 0 <= k < |s|
    ensures Distinct(s[..k] + s[k + 1..])
    ensures forall x :: x in s[..k] + s[k + 1..] <==> x in s && x != s[k]
  {
    var rest := s[..k] + s[k + 1..];
    assert forall j :: 0 <= j < |rest| ==> rest[j] == s[if j < k then j else j + 1];
  }

  /** Following `next` from `head` visits `elems` in order and returns to `head`. */
  ghost predicate ForwardLinked(head: Node, elems: seq<Node>)
    reads head, elems
  {
    && head.next == First(head, elems)
    && forall i :: 0 <= i < |elems| ==> elems[i].next == After(head, elems, i)
  }

  /** Following `prev` from `head` visits `elems` in reverse order and returns to `head`. */
  ghost predicate BackwardLinked(head: Node, elems: seq<Node>)
    reads head, elems
  {
    && head.prev == Last(head, elems)
    && forall i :: 0 <= i < |elems| ==> elems[i].prev == Before(head, elems, i)
  }

  /**
   * `head` is the sentinel of a well-formed ring whose entries, in `next`
   * order, are exactly `elems`: distinct nodes, none of them the head, each
   * linked forwards to its successor and backwards to its predecessor.
   */
  ghost predicate IsRing(head: Node, elems: seq<Node>)
    reads head, elems
  {
    head !in elems && Distinct(elems) && ForwardLinked(head, elems) && BackwardLinked(head, elems)
  }

  /** The objects among `refs` that are not null. */
  ghost function Objects(refs: set<Node?>): set<Node>
  {
    set x: Node | x in refs
  }

  /** The position of `x` in `elems`. */
  ghost function IndexOf(elems: seq<Node>, x: Node): (i: int)
    requires x in elems
    ensures 0 <= i < |elems| && elems[i] == x
  {
    if elems[0] == x then 0 else 1 + IndexOf(elems[1..], x)
  }

  /** `elems` with the entry `x` taken out, the others kept in order. */
  ghost function Without(elems: seq<Node>, x: Node): (r: seq<Node>)
    requires x in elems
  {
    var k := IndexOf(elems, x);
    elems[..k] + elems[k + 1..]
  }

  /** Taking the first entry out leaves the rest in order. */
  lemma WithoutFirst(elems: seq<Node>)
    requires elems != []
    ensures Without(elems, elems[0]) == elems[1..]
  {
    assert IndexOf(elems, elems[0]) == 0;
  }

  /** Both links of `node` point at the node itself: the head of an empty list. */
  predicate SelfLinked(node: Node)
    reads node
  {
    node.next == node && node.prev == node
  }

  /** m3u8_list_init: make `head` the sentinel of an empty list. */
  method Init(head: Node?) returns (status: Status)
    modifies head
    ensures status == (if head == null then InvalidArgs else NoError)
    ensures head != null ==> IsRing(head, []) && SelfLinked(head)
  {
    if head == null {
      return InvalidArgs;
    }
    head.next := head;
    head.prev := head;
    return NoError;
  }

  /**
   * m3u8_list_ina: splice `node` in right after `head`, as the new first entry.
   * A head whose `next` is still null (a zero-filled node) is accepted too:
   * the node is hung after it, with a null `next`, and `head.prev` is left as it is.
   */
  method Ina(head: Node?, node: Node?, ghost elems: seq<Node>) returns (status: Status)
    requires head != null && node != null ==>
      node != head && (head.next == null || (IsRing(head, elems) && node !in elems))
    modifies head, node, if head != null then {head.next} else {}
    ensures status == (if head == null || node == null then InvalidArgs else NoError)
    ensures status == InvalidArgs ==> unchanged(Objects({head, node, if head != null then old(head.next) else null}))
    ensures status == NoError ==> head.next == node && node.prev == head && node.next == old(head.next)
    ensures status == NoError && old(head.next) == null ==> head.prev == old(head.prev)
    ensures status == NoError && old(head.next) != null ==>
      old(head.next).prev == node && IsRing(head, [node] + elems)
  {
    if head == null {
      return InvalidArgs;
    }
    if node == null {
      return InvalidArgs;
    }
    node.next := head.next;
    node.prev := head;
    if head.next != null {
      head.next.prev := node;
    }
    head.next := node;
    status := NoError;
    if node.next != null {
      LinkedIn(head, elems, 0, node);
      assert elems[..0] + [node] + elems[0..] == [node] + elems;
    }
  }

  /** m3u8_list_inb: splice `node` in right before `head`, as the new last entry. */
  method Inb(head: Node?, node: Node?, ghost elems: seq<Node>) returns (status: Status)
    requires head != null && node != null ==> IsRing(head, elems) && node != head && node !in elems
    modifies head, node, if head != null then {head.prev} else {}
    ensures status == (if head == null || node == null then InvalidArgs else NoError)
    ensures status == InvalidArgs ==> unchanged(Objects({head, node, if head != null then old(head.prev) else null}))
    ensures status == NoError ==>
      && head.prev == node && node.next == head && node.prev == old(head.prev)
      && old(head.prev).next == node
      && IsRing(head, elems + [node])
  {
    if head == null {
      return InvalidArgs;
    }
    if node == null {
      return InvalidArgs;
    }
    node.next := head;
    node.prev := head.prev;
    head.prev.next := node;
    head.prev := node;
    status := NoError;
    LinkedIn(head, elems, |elems|, node);
    assert elems[..|elems|] + [node] + elems[|elems|..] == elems + [node];
  }

  /**
   * The links after `node` has been spliced in at position p of the ring
   * `elems`: it faces its two new neighbours, they face it, and every other
   * link is as in the ring. Then the ring holds `node` at position p.
   */
  lemma LinkedIn(head: Node, elems: seq<Node>, p: int, node: Node)
    requires head !in elems && Distinct(elems) && node != head && node !in elems && 0 <= p <= |elems|
    requires node.prev == (if p == 0 then head else elems[p - 1])
    requires node.next == (if p == |elems| then head else elems[p])
    requires head.next == (if p == 0 then node else First(head, elems))
    requires head.prev == (if p == |elems| then node else Last(head, elems))
    requires forall j :: 0 <= j < |elems| ==>
      && elems[j].next == (if j == p - 1 then node else After(head, elems, j))
      && elems[j].prev == (if j == p then node else Before(head, elems, j))
    ensures IsRing(head, elems[..p] + [node] + elems[p..])
  {
    InsertKeepsDistinct(elems, p, node);
    LinkedInForward(head, elems, p, node);
    LinkedInBackward(head, elems, p, node);
  }

  /** Inserting a node that is not yet there keeps the entries distinct. */
  lemma InsertKeepsDistinct(s: seq<Node>, p: int, x: Node)
    requires Distinct(s) && x !in s && 0 <= p <= |s|
    ensures Distinct(s[..p] + [x] + s[p..])
    ensures forall y :: y in s[..p] + [x] + s[p..] <==> y in s || y == x
  {
    var r := s[..p] + [x] + s[p..];
    assert forall j :: 0 <= j < |r| ==> r[j] == if j < p then s[j] else if j == p then x else s[j - 1];
    assert forall y :: y in s ==> y in r by {
      forall y | y in s ensures y in r {
        var j :| 0 <= j < |s| && s[j] == y;
        assert r[if j < p then j else j + 1] == y;
      }
    }
  }

  /** The forward half of LinkedIn. */
  lemma LinkedInForward(head: Node, elems: seq<Node>, p: int, node: Node)
    requires 0 <= p <= |elems|
    requires node.next == (if p == |elems| then head else elems[p])
    requires head.next == (if p == 0 then node else First(head, elems))
    requires forall j :: 0 <= j < |elems| ==> elems[j].next == (if j == p - 1 then node else After(head, elems, j))
    ensures ForwardLinked(head, elems[..p] + [node] + elems[p..])
  {
    var ring := elems[..p] + [node] + elems[p..];
    assert forall j :: 0 <= j < |ring| ==> ring[j] == if j < p then elems[j] else if j == p then node else elems[j - 1];
    forall j | 0 <= j < |ring|
      ensures ring[j].next == After(head, ring, j)
    {
      if j < p - 1 {
        assert ring[j].next == elems[j + 1] == ring[j + 1];
      } else if j == p - 1 {
        assert ring[j].next == node == ring[p];
      } else if j > p {
        assert ring[j].next == After(head, elems, j - 1);
      }
    }
  }

  /** The backward half of LinkedIn. */
  lemma LinkedInBackward(head: Node, elems: seq<Node>, p: int, node: Node)
    requires 0 <= p <= |elems|
    requires node.prev == (if p == 0 then head else elems[p - 1])
    requires head.prev == (if p == |elems| then node else Last(head, elems))
    requires forall j :: 0 <= j < |elems| ==> elems[j].prev == (if j == p then node else Before(head, elems, j))
    ensures BackwardLinked(head, elems[..p] + [node] + elems[p..])
  {
    var ring := elems[..p] + [node] + elems[p..];
    assert forall j :: 0 <= j < |ring| ==> ring[j] == if j < p then elems[j] else if j == p then node else elems[j - 1];
    forall j | 0 <= j < |ring|
      ensures ring[j].prev == Before(head, ring, j)
    {
      if j < p {
        assert ring[j].prev == Before(head, elems, j);
      } else if j == p + 1 {
        assert ring[j].prev == node;
      } else if j > p + 1 {
        assert ring[j].prev == elems[j - 2] == ring[j - 1];
      }
    }
    assert ring[|ring| - 1] == if p == |elems| then node else elems[|elems| - 1];
  }

  /**
   * m3u8_list_remove: unlink `node` from its ring and null its own links.
   * A self-linked node (the head of an empty list) is refused. Removing the
   * head of a non-empty list is not refused by the code: the ring closes up
   * without it and its first entry is left as the new head.
   */
  method Remove(node: Node?, ghost head: Node, ghost elems: seq<Node>) returns (status: Status)
    requires node != null && !SelfLinked(node) ==> IsRing(head, elems) && (node == head || node in elems)
    modifies node, if node != null then {node.next, node.prev} else {}
    ensures status == (if node == null || old(SelfLinked(node)) then InvalidArgs else NoError)
    ensures status == InvalidArgs ==> unchanged(Objects({node}))
    ensures status == NoError ==> node.next == null && node.prev == null
    ensures status == NoError ==> old(node.prev).next == old(node.next) && old(node.next).prev == old(node.prev)
    ensures status == NoError && node != head ==> IsRing(head, Without(elems, node))
    ensures status == NoError && node == head ==> IsRing(elems[0], elems[1..])
  {
    if node == null {
      return InvalidArgs;
    }
    if node.next == node && node.prev == node {
      return InvalidArgs;
    }
    ghost var before, after := node.prev, node.next;
    node.prev.next := node.next;
    node.next.prev := node.prev;
    node.next := null;
    node.prev := null;
    status := NoError;
    if node != head {
      ghost var k := IndexOf(elems, node);
      assert before == Before(head, elems, k) && after == After(head, elems, k);
      forall j | 0 <= j < |elems| && j != k
        ensures elems[j].next == (if j == k - 1 then After(head, elems, k) else After(head, elems, j))
        ensures elems[j].prev == (if j == k + 1 then Before(head, elems, k) else Before(head, elems, j))
      {
        assert elems[j] != node;
        assert elems[j] == before <==> j == k - 1;
        assert elems[j] == after <==> j == k + 1;
      }
      UnlinkedEntry(head, elems, k);
    } else {
      UnlinkedHead(head, elems);
    }
  }

  /**
   * The links around position k after the entry there has been unlinked: its
   * two neighbours face each other and every other link is as in the ring
   * `elems`. Then the remaining entries form a ring headed by `head`.
   */
  lemma UnlinkedEntry(head: Node, elems: seq<Node>, k: int)
    requires head !in elems && Distinct(elems) && 0 <= k < |elems|
    requires head.next == (if k == 0 then After(head, elems, 0) else First(head, elems))
    requires head.prev == (if k == |elems| - 1 then Before(head, elems, k) else Last(head, elems))
    requires forall j :: 0 <= j < |elems| && j != k ==>
      && elems[j].next == (if j == k - 1 then After(head, elems, k) else After(head, elems, j))
      && elems[j].prev == (if j == k + 1 then Before(head, elems, k) else Before(head, elems, j))
    ensures IsRing(head, elems[..k] + elems[k + 1..])
  {
    DropKeepsDistinct(elems, k);
    UnlinkedEntryForward(head, elems, k);
    UnlinkedEntryBackward(head, elems, k);
  }

  /** The forward half of UnlinkedEntry. */
  lemma UnlinkedEntryForward(head: Node, elems: seq<Node>, k: int)
    requires 0 <= k < |elems|
    requires head.next == (if k == 0 then After(head, elems, 0) else First(head, elems))
    requires forall j :: 0 <= j < |elems| && j != k ==>
      elems[j].next == (if j == k - 1 then After(head, elems, k) else After(head, elems, j))
    ensures ForwardLinked(head, elems[..k] + elems[k + 1..])
  {
    var rest := elems[..k] + elems[k + 1..];
    assert forall j :: 0 <= j < |rest| ==> rest[j] == elems[if j < k then j else j + 1];
    forall j | 0 <= j < |rest|
      ensures rest[j].next == After(head, rest, j)
    {
      if j < k - 1 {
        assert rest[j].next == elems[j + 1] == rest[j + 1];
      } else if j == k - 1 {
        assert rest[j].next == After(head, elems, k);
      } else {
        assert rest[j].next == After(head, elems, j + 1);
      }
    }
    if rest != [] {
      assert rest[0] == if k == 0 then elems[1] else elems[0];
    }
  }

  /** The backward half of UnlinkedEntry. */
  lemma UnlinkedEntryBackward(head: Node, elems: seq<Node>, k: int)
    requires 0 <= k < |elems|
    requires head.prev == (if k == |elems| - 1 then Before(head, elems, k) else Last(head, elems))
    requires forall j :: 0 <= j < |elems| && j != k ==>
      elems[j].prev == (if j == k + 1 then Before(head, elems, k) else Before(head, elems, j))
    ensures BackwardLinked(head, elems[..k] + elems[k + 1..])
  {
    var rest := elems[..k] + elems[k + 1..];
    assert forall j :: 0 <= j < |rest| ==> rest[j] == elems[if j < k then j else j + 1];
    forall j | 0 <= j < |rest|
      ensures rest[j].prev == Before(head, rest, j)
    {
      if 0 < j < k {
        assert rest[j] == elems[j];
        assert rest[j].prev == elems[j - 1] == rest[j - 1];
      } else if j == k {
        assert rest[j] == elems[k + 1];
        assert rest[j].prev == Before(head, elems, k);
        assert k > 0 ==> Before(head, elems, k) == elems[k - 1] == rest[k - 1];
      } else if j > k {
        assert rest[j] == elems[j + 1];
        assert rest[j].prev == elems[j] == rest[j - 1];
      } else {
        assert rest[0] == elems[0];
      }
    }
    if rest != [] {
      assert rest[|rest| - 1] == if k == |elems| - 1 then elems[k - 1] else elems[|elems| - 1];
    }
  }

  /**
   * The links after the head of a non-empty ring has been unlinked: its two
   * neighbours face each other and every other link is as in the ring. Then
   * the first entry heads a ring of the others.
   */
  lemma UnlinkedHead(head: Node, elems: seq<Node>)
    requires head !in elems && Distinct(elems) && elems != []
    requires forall j :: 0 <= j < |elems| ==>
      && elems[j].next == (if j == |elems| - 1 then elems[0] else After(head, elems, j))
      && elems[j].prev == (if j == 0 then elems[|elems| - 1] else Before(head, elems, j))
    ensures IsRing(elems[0], elems[1..])
  {
    var rest := elems[1..];
    forall j | 0 <= j < |rest|
      ensures rest[j].next == After(elems[0], rest, j) && rest[j].prev == Before(elems[0], rest, j)
    {
      assert rest[j] == elems[j + 1];
    }
    DropKeepsDistinct(elems, 0);
  }

  /**
   * m3u8_list_is_empty. `isEmpty` is what the caller's output flag holds before
   * the call (the code writes it without checking the pointer, so callers must
   * pass one); the result is what it holds afterwards.
   */
  method IsEmpty(head: Node?, isEmpty: bool, ghost elems: seq<Node>) returns (status: Status, isEmpty': bool)
    ensures status == (if head == null then InvalidArgs else NoError)
    ensures head == null ==> isEmpty' == isEmpty
    ensures head != null ==> (isEmpty' <==> SelfLinked(head))
    ensures head != null && IsRing(head, elems) ==> (isEmpty' <==> elems == [])
  {
    if head == null {
      return InvalidArgs, isEmpty;
    }
    return NoError, head.next == head && head.prev == head;
  }

  /**
   * m3u8_list_count. `size` is the caller's output location before the call
   * (None for a null pointer); the result is what it holds afterwards. A head
   * with a null link (a zero-filled, never initialised node) is refused.
   */
  method Count(head: Node?, size: Option<int>, ghost elems: seq<Node>) returns (status: Status, size': Option<int>)
    requires head != null && head.next != null && head.prev != null ==> IsRing(head, elems)
    ensures status ==
      (if head == null || size.None? || head.next == null || head.prev == null then InvalidArgs else NoError)
    ensures size' == (if status == NoError then Some(|elems|) else size)
  {
    if head == null || size.None? || head.next == null || head.prev == null {
      return InvalidArgs, size;
    }
    var count := 0;
    var pivot := head.next;
    while pivot != head
      invariant 0 <= count <= |elems|
      invariant pivot == (if count < |elems| then elems[count] else head)
      decreases |elems| - count
    {
      count := count + 1;
      pivot := pivot.next;
    }
    return NoError, Some(count);
  }
}
