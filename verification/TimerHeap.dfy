/**
 The binary min-heap of timers: a complete binary tree of nodes linked by left,
 right and parent pointers, walked by the bits of a position. Position 1 is the
 root, and the children of position p are 2p and 2p + 1.
 */
module TimerHeap {
  class Node {
    var left: Node?
    var right: Node?
    var parent: Node?
    /** What the comparison function reads through `user`: the deadline, 0 when the timer is not running. */
    var time: int
    var repeat: int
    /** Whether `user` points at the timer: the destructor clears it. */
    var live: bool
    ghost var pos: nat

    constructor ()
      ensures time == 0 && repeat == 0 && live
    {
      time, repeat, live := 0, 0, true;
      left, right, parent := null, null, null;
    }
  }

  /** compare_fn, which reads both deadlines through `user`. */
  function LessThan(a: Node, b: Node): bool
    requires a.live && b.live
    reads a, b
  {
    a.time < b.time
  }

  ghost function At(row: seq<Node?>, p: nat): Node? {
    if p < |row| then row[p] else null
  }

  ghost predicate LinksOk(row: seq<Node?>, x: Node)
    reads x`left, x`right, x`parent, x`pos
  {
    && x.left == At(row, 2 * x.pos) && x.right == At(row, 2 * x.pos + 1) && x.parent == At(row, x.pos / 2)
  }

  /** The fields of a node at some moment. */
  datatype Links = Links(left: Node?, right: Node?, parent: Node?, pos: nat)

  ghost predicate Placed(row: seq<Node?>, nodes: set<Node>)
    reads nodes`pos
  {
    && |row| > 0 && row[0] == null
    && (forall p :: 0 < p < |row| ==> row[p] != null && row[p] in nodes && row[p].pos == p)
    && (forall x :: x in nodes ==> 0 < x.pos < |row| && row[x.pos] == x)
  }

  class Heap {
    var min: Node?
    var nelts: nat
    /** The nodes by position; row[0] stands for the null parent of the root. */
    ghost var row: seq<Node?>
    ghost var nodes: set<Node>

    /** A complete tree of exactly these nodes, with consistent links. */
    ghost predicate Linked()
      reads this, nodes`left, nodes`right, nodes`parent, nodes`pos
    {
      && Placed(row, nodes) && nelts == |row| - 1 && min == At(row, 1)
      && forall x {:trigger LinksOk(row, x)} :: x in nodes ==> LinksOk(row, x)
    }

    /** Every node but one may be compared. */
    ghost predicate LiveBut(gone: Node?)
      reads this`nodes, nodes`live
    {
      forall x :: x in nodes && x != gone ==> x.live
    }

    constructor ()
      ensures Linked() && nodes == {}
    {
      min := null;
      nelts := 0;
      row := [null];
      nodes := {};
    }

    /**
     heap_node_swap, first half: parent and child exchange their links, each
     pointing at the other where it pointed at itself, and the sibling follows.
     */
    method Exchange(parent: Node, child: Node, ghost leftward: bool, ghost sib: Node?)
      requires parent != child && child.parent == parent && parent in nodes && child in nodes
      requires parent.left == (if leftward then child else sib) && parent.right == (if leftward then sib else child)
      requires sib != parent && sib != child && (sib != null ==> sib in nodes)
      requires child.left != child && child.right != child
      modifies nodes`left, nodes`right, nodes`parent
      ensures child.left == (if leftward then parent else sib) && child.right == (if leftward then sib else parent)
      ensures child.parent == old(parent.parent) && parent.parent == child
      ensures parent.left == old(child.left) && parent.right == old(child.right)
      ensures sib != null ==> sib.parent == child
      ensures forall x :: x in nodes && x != parent && x != child ==> x.left == old(x.left) && x.right == old(x.right)
      ensures forall x :: x in nodes && x != parent && x != child && x != sib ==> x.parent == old(x.parent)
    {
      var tl, tr, tp := parent.left, parent.right, parent.parent;
      parent.left, parent.right, parent.parent := child.left, child.right, child.parent;
      child.left, child.right, child.parent := tl, tr, tp;

      parent.parent := child;
      var sibling: Node?;
      if child.left == child {
        child.left := parent;
        sibling := child.right;
      } else {
        child.right := parent;
        sibling := child.left;
      }
      if sibling != null {
        sibling.parent := child;
      }
    }

    /** heap_node_swap, second half: the neighbours turn to the exchanged nodes. */
    method Reattach(parent: Node, child: Node, ghost cl: Node?, ghost cr: Node?, ghost grand: Node?)
      requires parent != child && parent.left == cl && parent.right == cr && child.parent == grand
      requires parent in nodes && child in nodes && (cl != null ==> cl in nodes) && (cr != null ==> cr in nodes)
      requires cl != child && cr != child && grand != child && grand != parent
      requires grand != null ==> grand in nodes && (grand.left == parent) != (grand.right == parent)
      modifies `min, nodes`left, nodes`right, nodes`parent
      ensures cl != null ==> cl.parent == parent
      ensures cr != null ==> cr.parent == parent
      ensures grand != null && old(grand.left) == parent ==> grand.left == child && grand.right == old(grand.right)
      ensures grand != null && old(grand.right) == parent ==> grand.right == child && grand.left == old(grand.left)
      ensures min == if grand == null then child else old(min)
      ensures forall x :: x in nodes && x != grand ==> x.left == old(x.left) && x.right == old(x.right)
      ensures forall x :: x in nodes && x != cl && x != cr ==> x.parent == old(x.parent)
    {
      if parent.left != null {
        parent.left.parent := parent;
      }
      if parent.right != null {
        parent.right.parent := parent;
      }
      if child.parent == null {
        min := child;
      } else if child.parent.left == parent {
        child.parent.left := child;
      } else {
        child.parent.right := child;
      }
    }

    /** Swap parent with child: in the row they change places, and nothing else moves. */
    method NodeSwap(parent: Node, child: Node)
      requires Linked() && parent in nodes && child in nodes && child.parent == parent
      modifies `min, `row, nodes`left, nodes`right, nodes`parent, nodes`pos
      ensures Linked() && row == old(row[parent.pos := child][child.pos := parent])
      ensures parent.pos == old(child.pos) && child.pos == old(parent.pos)
      ensures forall x :: x in nodes && x != parent && x != child ==> x.pos == old(x.pos)
    {
      hide *;
      ghost var was := Record();
      ghost var r, p, c := row, parent.pos, child.pos;
      ghost var sib, cl, cr, grand := Around(parent, child);
      Exchange(parent, child, c == 2 * p, sib);
      Reattach(parent, child, cl, cr, grand);
      row := row[p := child][c := parent];
      parent.pos, child.pos := c, p;
      SwapDone(r, was, parent, child, sib, cl, cr, grand);
    }

    lemma SwapDone(r: seq<Node?>, was: map<Node, Links>, parent: Node, child: Node, sib: Node?, cl: Node?, cr: Node?,
                   grand: Node?)
      requires Recorded(r, was) && was.Keys == nodes && parent in nodes && child in nodes && nelts == |r| - 1
      requires min == if grand == null then child else At(r, 1)
      requires was[parent].pos == child.pos && was[child].pos == parent.pos
      requires Surround(r, child.pos, parent.pos, parent, child, sib, cl, cr, grand)
      requires var p, c := child.pos, parent.pos;
               && p < |r| && c < |r| && row == r[p := child][c := parent]
               && child.left == (if c == 2 * p then parent else sib) && child.right == (if c == 2 * p then sib else parent)
      requires child.parent == grand && parent.left == cl && parent.right == cr && parent.parent == child
      requires forall x :: x in nodes && x !in {parent, child} ==> x.pos == was[x].pos
      requires forall x :: x in nodes && x !in {parent, child, grand} ==> x.left == was[x].left && x.right == was[x].right
      requires forall x :: x in nodes && x !in {parent, child, sib, cl, cr} ==> x.parent == was[x].parent
      requires sib != null ==> sib.parent == child
      requires cl != null ==> cl.parent == parent
      requires cr != null ==> cr.parent == parent
      requires grand != null ==> grand in nodes
      requires grand != null && was[grand].left == parent ==> grand.left == child && grand.right == was[grand].right
      requires grand != null && was[grand].right == parent ==> grand.right == child && grand.left == was[grand].left
      ensures Linked()
    {
      hide At, EntryOk;
      assert Distinct(r) && |row| == |r|;
      forall x {:trigger LinksOk(row, x)} | x in nodes
        ensures LinksOk(row, x)
      {
        assert EntryOk(r, was[x], x);
        SwapChildren(r, was[x], parent, child, sib, cl, cr, grand, x);
        SwapParent(r, was[x], parent, child, sib, cl, cr, grand, x);
      }
      assert Placed(row, nodes) by {
        PlacedAfter(r, was, parent, child);
      }
      SwapRoot(r, child.pos, parent.pos, parent, child, grand);
    }

    ghost predicate Distinct(r: seq<Node?>) {
      && |r| > 0 && r[0] == null && (forall q :: 0 < q < |r| ==> r[q] != null)
      && forall q, q' :: 0 < q < q' < |r| ==> r[q] != r[q']
    }

    /** The links of every node, and where they lead in the row. */
    ghost predicate Recorded(r: seq<Node?>, was: map<Node, Links>) {
      && |r| > 0 && r[0] == null
      && (forall q :: 0 < q < |r| ==> r[q] != null && r[q] in was && was[r[q]].pos == q)
      && (forall x {:trigger EntryOk(r, was[x], x)} :: x in was ==> EntryOk(r, was[x], x))
    }

    ghost predicate EntryOk(r: seq<Node?>, l: Links, x: Node) {
      && 0 < l.pos < |r| && r[l.pos] == x
      && l == Links(At(r, 2 * l.pos), At(r, 2 * l.pos + 1), At(r, l.pos / 2), l.pos)
    }

    lemma Record() returns (was: map<Node, Links>)
      requires Linked()
      ensures Recorded(row, was) && was.Keys == nodes
      ensures forall x :: x in nodes ==> was[x] == Links(x.left, x.right, x.parent, x.pos)
      ensures nelts == |row| - 1 && min == At(row, 1)
    {
      was := map x | x in nodes :: Links(x.left, x.right, x.parent, x.pos);
      forall x {:trigger EntryOk(row, was[x], x)} | x in nodes
        ensures EntryOk(row, was[x], x)
      {
        assert LinksOk(row, x);
      }
    }

    lemma SwapRoot(r: seq<Node?>, p: nat, c: nat, parent: Node, child: Node, grand: Node?)
      requires 0 < p < c < |r| && c / 2 == p && r[0] == null && grand == At(r, p / 2)
      requires forall i :: 0 < i < |r| ==> r[i] != null
      ensures At(r[p := child][c := parent], 1) == if grand == null then child else At(r, 1)
    {
    }

    /** Where a node is after a swap. */
    lemma SwapPlace(r: seq<Node?>, was: Links, parent: Node, child: Node, x: Node)
      requires EntryOk(r, was, x) && Distinct(r)
      requires var p, c := child.pos, parent.pos;
               0 < p < c < |r| && r[p] == parent && r[c] == child && row == r[p := child][c := parent]
      requires x !in {parent, child} ==> x.pos == was.pos
      ensures 0 < x.pos < |row| && row[x.pos] == x
      ensures x == parent ==> was.pos == child.pos
      ensures x == child ==> was.pos == parent.pos
    {
    }

    lemma PlacedAfter(r: seq<Node?>, was: map<Node, Links>, parent: Node, child: Node)
      requires Recorded(r, was) && was.Keys == nodes && parent in nodes && child in nodes && Distinct(r)
      requires var p, c := child.pos, parent.pos;
               0 < p < c < |r| && r[p] == parent && r[c] == child && row == r[p := child][c := parent]
      requires forall x :: x in nodes && x !in {parent, child} ==> x.pos == was[x].pos
      ensures Placed(row, nodes)
    {
      hide EntryOk;
      forall x | x in nodes
        ensures 0 < x.pos < |row| && row[x.pos] == x
      {
        assert EntryOk(r, was[x], x);
        SwapPlace(r, was[x], parent, child, x);
      }
      forall q | 0 < q < |row|
        ensures row[q] != null && row[q] in nodes && row[q].pos == q
      {
        assert r[q] in was && was[r[q]].pos == q;
      }
    }

    /** The links down of every node after a swap. */
    lemma SwapChildren(r: seq<Node?>, was: Links, parent: Node, child: Node, sib: Node?, cl: Node?, cr: Node?,
                       grand: Node?, x: Node)
      requires EntryOk(r, was, x) && Distinct(r)
      requires var p, c := child.pos, parent.pos;
               && 0 < p < c < |r| && p == c / 2 && r[p] == parent && r[c] == child
               && row == r[p := child][c := parent]
               && sib == At(r, if c == 2 * p then c + 1 else c - 1)
               && child.left == (if c == 2 * p then parent else sib) && child.right == (if c == 2 * p then sib else parent)
               && cl == At(r, 2 * c) && cr == At(r, 2 * c + 1) && grand == At(r, p / 2)
      requires x !in {parent, child} ==> x.pos == was.pos
      requires parent.left == cl && parent.right == cr
      requires x !in {parent, child, grand} ==> x.left == was.left && x.right == was.right
      requires x == grand && was.left == parent ==> x.left == child && x.right == was.right
      requires x == grand && was.right == parent ==> x.right == child && x.left == was.left
      ensures x.left == At(row, 2 * x.pos) && x.right == At(row, 2 * x.pos + 1)
    {
    }

    /** The link up of every node after a swap. */
    lemma SwapParent(r: seq<Node?>, was: Links, parent: Node, child: Node, sib: Node?, cl: Node?, cr: Node?,
                     grand: Node?, x: Node)
      requires EntryOk(r, was, x) && Distinct(r)
      requires var p, c := child.pos, parent.pos;
               && 0 < p < c < |r| && p == c / 2 && r[p] == parent && r[c] == child
               && row == r[p := child][c := parent]
               && sib == At(r, if c == 2 * p then c + 1 else c - 1)
               && cl == At(r, 2 * c) && cr == At(r, 2 * c + 1) && grand == At(r, p / 2)
      requires x !in {parent, child} ==> x.pos == was.pos
      requires child.parent == grand && parent.parent == child
      requires x !in {parent, child, sib, cl, cr} ==> x.parent == was.parent
      requires x == sib ==> x.parent == child
      requires x == cl || x == cr ==> x.parent == parent
      ensures x.parent == At(row, x.pos / 2)
    {
    }

    /** Who is around a parent at position p and its child at position c. */
    ghost predicate Surround(r: seq<Node?>, p: nat, c: nat, parent: Node, child: Node, sib: Node?, cl: Node?, cr: Node?,
                             grand: Node?)
    {
      && 0 < p < c < |r| && p == c / 2 && r[p] == parent && r[c] == child
      && sib == At(r, if c == 2 * p then c + 1 else c - 1)
      && cl == At(r, 2 * c) && cr == At(r, 2 * c + 1) && grand == At(r, p / 2)
    }

    /** The nodes a swap touches are different, and where they are. */
    lemma Around(parent: Node, child: Node) returns (sib: Node?, cl: Node?, cr: Node?, grand: Node?)
      requires Linked() && parent in nodes && child in nodes && child.parent == parent
      ensures var p, c := parent.pos, child.pos;
              && Surround(row, p, c, parent, child, sib, cl, cr, grand) && p < |row| && c < |row|
              && parent.left == (if c == 2 * p then child else sib) && parent.right == (if c == 2 * p then sib else child)
              && parent.parent == grand && child.left == cl && child.right == cr
      ensures sib !in {parent, child} && (sib != null ==> sib in nodes && sib !in {cl, cr, grand})
      ensures cl !in {parent, child} && (cl != null ==> cl in nodes && cl !in {cr, grand})
      ensures cr !in {parent, child} && (cr != null ==> cr in nodes && cr != grand)
      ensures grand !in {parent, child}
      ensures grand != null ==> grand in nodes && (grand.left == parent) != (grand.right == parent)
    {
      sib := if parent.left == child then parent.right else parent.left;
      cl, cr, grand := child.left, child.right, parent.parent;
      assert LinksOk(row, parent) && LinksOk(row, child);
      if grand != null {
        ParentLink(parent);
      }
    }

    /** A node is one child of its parent, and only one. */
    lemma ParentLink(x: Node)
      requires Linked() && x in nodes && x.parent != null
      ensures x.parent in nodes && (x.parent.left == x) != (x.parent.right == x)
      ensures x.parent.left == x <==> x.pos == 2 * x.parent.pos
      ensures x.parent.pos == x.pos / 2
    {
      assert LinksOk(row, x) && LinksOk(row, x.parent);
    }

    // ---------- walking to a position ----------

    /** The link that leads to position n: the node above it (null for the root), and which side. */
    method Walk(n: nat) returns (up: Node?, right: bool, cur: Node?)
      requires Linked() && 1 <= n <= |row|
      ensures cur == At(row, n) && up == At(row, n / 2) && (n > 1 ==> up != null && right == (n % 2 == 1))
      ensures (up != null ==> n > 1 && up in nodes) && (cur != null ==> cur in nodes)
    {
      hide LinksOk;
      var path, k := Path(n);
      up, right, cur := null, false, min;
      ghost var p := 1;
      while k > 0
        invariant 1 <= p <= n && Follow(p, path, k) == n
        invariant cur == At(row, p) && up == At(row, p / 2) && (p > 1 ==> up != null && right == (p % 2 == 1))
        decreases k
      {
        FollowGrows(p, path, k);
        Down(p);
        up, right := cur, path % 2 == 1;
        if right {
          cur := cur.right;
        } else {
          cur := cur.left;
        }
        p := 2 * p + path % 2;
        path, k := path / 2, k - 1;
        FollowGrows(p, path, k);
      }
    }

    lemma Down(p: nat)
      requires Linked() && 0 < p < |row|
      ensures row[p] != null && row[p].left == At(row, 2 * p) && row[p].right == At(row, 2 * p + 1)
    {
      assert LinksOk(row, row[p]);
    }

    // ---------- insertion ----------

    /** Hang a node on the end of the bottom row. */
    method Append(newnode: Node)
      requires Linked() && newnode !in nodes
      modifies `min, `nelts, `row, `nodes, nodes`left, nodes`right
      modifies newnode`left, newnode`right, newnode`parent, newnode`pos
      ensures Linked() && row == old(row) + [newnode] && nodes == old(nodes) + {newnode}
    {
      hide LinksOk, Placed, At;
      newnode.left, newnode.right, newnode.parent := null, null, null;
      var up, right, cur := Walk(1 + nelts);
      ghost var was := Record();
      newnode.parent := up;
      if up == null {
        min := newnode;
      } else if right {
        up.right := newnode;
      } else {
        up.left := newnode;
      }
      nelts := nelts + 1;
      newnode.pos := |row|;
      ghost var r := row;
      row, nodes := row + [newnode], nodes + {newnode};
      AppendDone(r, was, newnode, up, right);
    }

    lemma AppendDone(r: seq<Node?>, was: map<Node, Links>, newnode: Node, up: Node?, right: bool)
      requires Recorded(r, was) && newnode !in was && nodes == was.Keys + {newnode}
      requires row == r + [newnode] && nelts == |r| && newnode.pos == |r|
      requires min == if up == null then newnode else At(r, 1)
      requires up == At(r, |r| / 2) && (|r| > 1 ==> up != null && right == (|r| % 2 == 1))
      requires newnode.left == null && newnode.right == null && newnode.parent == up
      requires forall x :: x in was ==> x.pos == was[x].pos && x.parent == was[x].parent
      requires forall x :: x in was && x != up ==> x.left == was[x].left && x.right == was[x].right
      requires up != null && right ==> up.right == newnode && up.left == was[up].left
      requires up != null && !right ==> up.left == newnode && up.right == was[up].right
      ensures Linked()
    {
      assert Placed(row, nodes) by {
        hide At;
        forall x | x in was
          ensures 0 < x.pos < |row| && row[x.pos] == x
        {
          assert EntryOk(r, was[x], x);
        }
      }
      forall x {:trigger LinksOk(row, x)} | x in nodes
        ensures LinksOk(row, x)
      {
        if x != newnode {
          assert EntryOk(r, was[x], x);
        }
      }
    }

    // ---------- removal ----------

    /** Take the last node of the bottom row off the tree. */
    method UnlinkLast() returns (child: Node)
      requires Linked() && nelts > 0
      modifies `min, `nelts, `row, `nodes, nodes`left, nodes`right
      ensures Linked() && child == old(row[|row| - 1]) && child in old(nodes)
      ensures row == old(row[..|row| - 1]) && nodes == old(nodes) - {child}
      ensures child.pos == |row|
    {
      hide LinksOk, Placed, At;
      var up, right, max := Walk(nelts);
      LastIs();
      ghost var was := Record();
      nelts := nelts - 1;
      child := max;
      if up == null {
        min := null;
      } else if right {
        up.right := null;
      } else {
        up.left := null;
      }
      ghost var r := row;
      row, nodes := row[..|row| - 1], nodes - {child};
      UnlinkDone(r, was, child, up, right);
    }

    lemma LastIs()
      requires Linked() && nelts > 0
      ensures At(row, nelts) == row[|row| - 1] && row[|row| - 1] != null && row[|row| - 1] in nodes
      ensures row[|row| - 1].pos == |row| - 1
    {
    }

    lemma UnlinkDone(r: seq<Node?>, was: map<Node, Links>, child: Node, up: Node?, right: bool)
      requires Recorded(r, was) && |r| > 1 && child == r[|r| - 1] && nodes == was.Keys - {child}
      requires row == r[..|r| - 1] && nelts == |r| - 2
      requires min == if up == null then null else At(r, 1)
      requires up == At(r, (|r| - 1) / 2) && (|r| > 2 ==> up != null && right == ((|r| - 1) % 2 == 1))
      requires forall x :: x in was ==> x.pos == was[x].pos && x.parent == was[x].parent
      requires forall x :: x in was && x != up ==> x.left == was[x].left && x.right == was[x].right
      requires up != null && right ==> up.right == null && up.left == was[up].left
      requires up != null && !right ==> up.left == null && up.right == was[up].right
      ensures Linked()
    {
      assert Placed(row, nodes) by {
        hide At;
        forall x | x in nodes
          ensures 0 < x.pos < |row| && row[x.pos] == x
        {
          assert EntryOk(r, was[x], x);
        }
      }
      forall x {:trigger LinksOk(row, x)} | x in nodes
        ensures LinksOk(row, x)
      {
        assert EntryOk(r, was[x], x);
      }
    }

    /** The pointer assignments that put child in the place of node, on nodes that are all different. */
    method TakePlace(node: Node, child: Node, ghost cl: Node?, ghost cr: Node?, ghost up: Node?)
      requires node.left == cl && node.right == cr && node.parent == up && node != child
      requires cl !in {node, child} && (cl != null ==> cl !in {cr, up})
      requires cr !in {node, child} && (cr != null ==> cr != up)
      requires up !in {node, child} && (up != null ==> (up.left == node) != (up.right == node))
      modifies `min, child`left, child`right, child`parent
      modifies (if cl != null then {cl} else {})`parent, (if cr != null then {cr} else {})`parent
      modifies (if up != null then {up} else {})`left, (if up != null then {up} else {})`right
      ensures child.left == cl && child.right == cr && child.parent == up
      ensures cl != null ==> cl.parent == child
      ensures cr != null ==> cr.parent == child
      ensures up != null && old(up.left) == node ==> up.left == child && up.right == old(up.right)
      ensures up != null && old(up.right) == node ==> up.right == child && up.left == old(up.left)
      ensures min == if up == null then child else old(min)
    {
      child.left := node.left;
      child.right := node.right;
      child.parent := node.parent;
      if child.left != null {
        child.left.parent := child;
      }
      if child.right != null {
        child.right.parent := child;
      }
      if node.parent == null {
        min := child;
      } else if node.parent.left == node {
        node.parent.left := child;
      } else {
        node.parent.right := child;
      }
    }

    /** Put child, which is off the tree, in the place of node. */
    method Replace(node: Node, child: Node)
      requires Linked() && node in nodes && child !in nodes
      modifies `min, `row, `nodes, nodes`left, nodes`right, nodes`parent
      modifies child`left, child`right, child`parent, child`pos
      ensures Linked() && row == old(row[node.pos := child]) && nodes == old(nodes) - {node} + {child}
      ensures child.pos == old(node.pos)
    {
      hide *;
      ghost var was := Record();
      Beside(node);
      ghost var r, p, cl, cr, up := row, node.pos, node.left, node.right, node.parent;
      TakePlace(node, child, cl, cr, up);
      row, nodes := row[p := child], nodes - {node} + {child};
      child.pos := p;
      ReplaceDone(r, was, node, child, cl, cr, up);
    }

    /** A node, its children and its parent are different nodes of the tree. */
    lemma Beside(node: Node)
      requires Linked() && node in nodes
      ensures 0 < node.pos < |row| && row[node.pos] == node
      ensures node.left == At(row, 2 * node.pos) && node.right == At(row, 2 * node.pos + 1)
      ensures node.left != null ==> 2 * node.pos < |row| && node.left.pos == 2 * node.pos
      ensures node.right != null ==> 2 * node.pos + 1 < |row| && node.right.pos == 2 * node.pos + 1
      ensures node.parent == At(row, node.pos / 2) && (node.parent == null <==> node.pos == 1)
      ensures node.left != null ==> node.left in nodes && node.left !in {node, node.right, node.parent}
      ensures node.right != null ==> node.right in nodes && node.right !in {node, node.parent}
      ensures node.parent != null ==> node.parent in nodes && node.parent != node && node.parent.pos == node.pos / 2
      ensures node.parent != null ==> (node.parent.left == node) != (node.parent.right == node)
    {
      assert LinksOk(row, node);
      if node.parent != null {
        ParentLink(node);
      }
    }

    lemma ReplaceDone(r: seq<Node?>, was: map<Node, Links>, node: Node, child: Node, cl: Node?, cr: Node?, up: Node?)
      requires Recorded(r, was) && node in was && child !in was && nodes == was.Keys - {node} + {child}
      requires 0 < child.pos < |r| && row == r[child.pos := child] && nelts == |r| - 1 && child.pos == was[node].pos
      requires up != null ==> up in was
      requires was[node].left == cl && was[node].right == cr && was[node].parent == up
      requires min == if up == null then child else At(r, 1)
      requires child.left == cl && child.right == cr && child.parent == up
      requires cl != null ==> cl.parent == child
      requires cr != null ==> cr.parent == child
      requires forall x :: x in was && x != node ==> x.pos == was[x].pos
      requires forall x :: x in was && x !in {node, cl, cr} ==> x.parent == was[x].parent
      requires forall x :: x in was && x !in {node, up} ==> x.left == was[x].left && x.right == was[x].right
      requires up != null && was[up].left == node ==> up.left == child && up.right == was[up].right
      requires up != null && was[up].right == node ==> up.right == child && up.left == was[up].left
      ensures Linked()
    {
      assert EntryOk(r, was[node], node);
      assert Placed(row, nodes) by {
        hide At;
        forall x | x in nodes && x != child
          ensures 0 < x.pos < |row| && row[x.pos] == x
        {
          assert EntryOk(r, was[x], x);
        }
      }
      forall x {:trigger LinksOk(row, x)} | x in nodes
        ensures LinksOk(row, x)
      {
        if x != child {
          ReplaceLinks(r, was[node], was[x], node, child, cl, cr, up, x);
        }
      }
    }

    lemma ReplaceLinks(r: seq<Node?>, n: Links, was: Links, node: Node, child: Node, cl: Node?, cr: Node?, up: Node?, x: Node)
      requires Distinct(r) && EntryOk(r, n, node) && EntryOk(r, was, x) && x != node
      requires n == Links(cl, cr, up, child.pos) && row == r[n.pos := child] && x.pos == was.pos
      requires cl != null ==> cl.parent == child
      requires cr != null ==> cr.parent == child
      requires x !in {cl, cr} ==> x.parent == was.parent
      requires x != up ==> x.left == was.left && x.right == was.right
      requires x == up && was.left == node ==> x.left == child && x.right == was.right
      requires x == up && was.right == node ==> x.right == child && x.left == was.left
      ensures LinksOk(row, x)
    {
    }

    // ---------- order ----------

    /** The deadlines by position. */
    ghost function Times(): (ts: seq<int>)
      requires Placed(row, nodes)
      reads this, nodes
      ensures |ts| == |row|
    {
      seq(|row|, p requires 0 <= p < |row| && (p > 0 ==> row[p] != null && row[p] in nodes) reads this, nodes =>
        if p == 0 then 0 else row[p].time)
    }

    lemma TimesAt()
      requires Linked()
      ensures forall p :: 0 < p < |row| ==> row[p] != null && Times()[p] == row[p].time
      ensures Times()[0] == 0
    {
    }

    lemma TimesSwapped(r: seq<Node?>, ts: seq<int>, p: nat, c: nat)
      requires Linked() && |ts| == |r| && 0 < p < |r| && 0 < c < |r| && ts[0] == 0
      requires row == r[p := r[c]][c := r[p]] && forall q :: 0 < q < |r| ==> r[q] != null && r[q].time == ts[q]
      ensures Times() == Swapped(ts, p, c)
    {
      hide LinksOk;
    }

    lemma NobodyHome()
      requires Linked() && nelts == 0
      ensures nodes == {} && Ordered(Times())
    {
      hide LinksOk;
    }

    /** heap_insert. */
    method Insert(newnode: Node)
      requires Linked() && Ordered(Times()) && newnode !in nodes && newnode.live && LiveBut(null)
      modifies `min, `nelts, `row, `nodes, nodes`left, nodes`right, nodes`parent, nodes`pos
      modifies newnode`left, newnode`right, newnode`parent, newnode`pos
      ensures Linked() && Ordered(Times()) && nodes == old(nodes) + {newnode}
    {
      hide LinksOk;
      ghost var ts := Times();
      Append(newnode);
      assert Times()[..|ts|] == ts;
      SiftUp(newnode);
    }

    /** Move a node up while it is due before its parent. */
    method SiftUp(node: Node)
      requires Linked() && node in nodes && UpOk(Times(), node.pos) && LiveBut(null)
      modifies `min, `row, nodes`left, nodes`right, nodes`parent, nodes`pos
      ensures Linked() && Ordered(Times())
    {
      hide LinksOk, UpOk, Ordered, Placed, Swapped, Times;
      Beside(node);
      while node.parent != null && LessThan(node, node.parent)
        invariant Linked() && node in nodes && UpOk(Times(), node.pos)
        invariant node.parent != null ==> node.parent in nodes
        decreases node.pos
      {
        ghost var ts, r, p, c := Times(), row, node.pos / 2, node.pos;
        Beside(node);
        TimesAt();
        UpStep(ts, c);
        NodeSwap(node.parent, node);
        TimesSwapped(r, ts, p, c);
        Beside(node);
      }
      Beside(node);
      TimesAt();
      UpDone(Times(), node.pos);
    }

    /** Move a node down while one of its children is due before it. */
    method SiftDown(child: Node)
      requires Linked() && child in nodes && HoleOk(Times(), child.pos) && LiveBut(null)
      modifies `min, `row, nodes`left, nodes`right, nodes`parent, nodes`pos
      ensures Linked() && child in nodes && UpOk(Times(), child.pos) && nodes == old(nodes)
    {
      hide LinksOk, HoleOk, UpOk, Placed, Swapped, Times;
      while true
        invariant Linked() && child in nodes && HoleOk(Times(), child.pos)
        decreases |row| - child.pos
      {
        ghost var ts, r, i := Times(), row, child.pos;
        Beside(child);
        TimesAt();
        var smallest := child;
        if child.left != null && LessThan(child.left, smallest) {
          smallest := child.left;
        }
        if child.right != null && LessThan(child.right, smallest) {
          smallest := child.right;
        }
        Beside(smallest);
        if smallest == child {
          DownDone(ts, i);
          break;
        }
        ghost var c := smallest.pos;
        DownStep(ts, i, c);
        NodeSwap(child, smallest);
        TimesSwapped(r, ts, i, c);
      }
    }

    /**
     heap_remove. The order need not hold at the node itself, only across it: the
     removed node is never compared, so its deadline may have been cleared already,
     and so may the pointer through which it would be read.
     */
    method Remove(node: Node?)
      requires Linked() && (nelts > 0 ==> node != null && node in nodes && HoleOk(Times(), node.pos)) && LiveBut(node)
      modifies `min, `nelts, `row, `nodes, nodes`left, nodes`right, nodes`parent, nodes`pos
      ensures Linked() && Ordered(Times()) && nodes == if node == null then old(nodes) else old(nodes) - {node}
    {
      hide LinksOk, HoleOk, Ordered, Placed, Times, At;
      if nelts == 0 {
        NobodyHome();
        return;
      }
      ghost var ts := Times();
      TimesAt();
      Beside(node);
      ghost var i := node.pos;
      HoleLeft(ts, i);
      var child := UnlinkLast();
      TimesAt();
      assert Times() == ts[..|ts| - 1];
      if child == node {
        return;
      }
      Beside(node);
      Replace(node, child);
      TimesAt();
      assert Times() == ts[..|ts| - 1][i := ts[|ts| - 1]];
      SiftDown(child);
      SiftUp(child);
    }

    /** heap_dequeue. */
    method Dequeue()
      requires Linked() && Ordered(Times()) && LiveBut(null)
      modifies `min, `nelts, `row, `nodes, nodes`left, nodes`right, nodes`parent, nodes`pos
      ensures Linked() && Ordered(Times())
      ensures old(nelts) > 0 ==> old(min) != null && nodes == old(nodes) - {old(min)}
    {
      hide LinksOk;
      Remove(min);
    }

    /** heap_min: the root, due no later than any other node; null exactly when the heap is empty. */
    method Min() returns (node: Node?)
      requires Linked() && Ordered(Times())
      ensures node == null <==> nodes == {}
      ensures node != null ==> node in nodes && forall x :: x in nodes ==> node.time <= x.time
    {
      hide LinksOk;
      node := min;
      ghost var ts := Times();
      forall x | x in nodes
        ensures min != null && min.time <= x.time
      {
        assert row[x.pos] == x && ts[x.pos] == x.time;
        RootLeast(ts, x.pos);
      }
    }
  }

  /** The timers of the program: those running are in the heap. */
  class Timers {
    const heap: Heap
    ghost var all: set<Node>

    /** All is well, except that `user` of one timer may have been cleared. */
    ghost predicate ValidBut(gone: Node?)
      reads this, heap, heap.nodes, all
    {
      && heap.Linked() && heap.nodes <= all && Ordered(heap.Times())
      && (forall x :: x in all ==> (x in heap.nodes <==> x.time != 0))
      && forall x :: x in all && x != gone ==> x.live
    }

    ghost predicate Valid()
      reads this, heap, heap.nodes, all
    {
      ValidBut(null)
    }

    constructor ()
      ensures Valid() && all == {} && fresh(heap)
    {
      heap := new Heap();
      all := {};
    }

    /** A new timer is not running. */
    method NewTimer() returns (x: Node)
      requires Valid()
      modifies `all
      ensures Valid() && fresh(x) && all == old(all) + {x} && x.time == 0 && heap.nodes == old(heap.nodes)
    {
      x := new Node();
      all := all + {x};
    }

    /** Timer::start, on a timer that is not running and a deadline that is not 0. */
    method Start(x: Node, now: int, timeout: int, repeat: int)
      requires Valid() && x in all && x.time == 0 && timeout + now != 0
      modifies heap, all
      ensures Valid() && heap.nodes == old(heap.nodes) + {x} && x.time == timeout + now && x.repeat == repeat
      ensures forall y :: y in all && y != x ==> y.time == old(y.time) && y.repeat == old(y.repeat)
    {
      ghost var ts := heap.Times();
      x.time := timeout + now;
      x.repeat := repeat;
      SameTimes(ts);
      heap.Insert(x);
    }

    lemma SameTimes(ts: seq<int>)
      requires heap.Linked() && |ts| == |heap.row| && ts[0] == 0
      requires forall p :: 0 < p < |ts| ==> heap.row[p] != null && heap.row[p].time == ts[p]
      ensures heap.Times() == ts
    {
      heap.TimesAt();
    }

    /** Timer::stop clears the deadline first and removes the node from the heap after. */
    method Stop(x: Node)
      requires ValidBut(x) && x in all
      modifies heap, all
      ensures ValidBut(x) && heap.nodes == old(heap.nodes) - {x} && x.time == 0
      ensures forall y :: y in all ==> y.repeat == old(y.repeat) && y.live == old(y.live) && (y != x ==> y.time == old(y.time))
    {
      hide heap.Times, Ordered, HoleOk, heap.Linked;
      if x.time == 0 {
        return;
      }
      ClearTime(x);
      heap.Remove(x);
    }

    /** Stopping, first half: the deadline is cleared while the node is in the heap. */
    method ClearTime(x: Node)
      requires ValidBut(x) && x in heap.nodes
      modifies x`time
      ensures x.time == 0 && heap.Linked() && HoleOk(heap.Times(), x.pos)
    {
      hide heap.Times, Ordered, HoleOk;
      ghost var ts, p := heap.Times(), x.pos;
      heap.TimesAt();
      heap.Beside(x);
      x.time := 0;
      HoleAnyKey(ts, p, 0);
      SameTimes(ts[p := 0]);
    }

    /** The destructor clears `user` and stops the timer after. */
    method Destroy(x: Node)
      requires Valid() && x in all
      modifies this, heap, all
      ensures Valid() && all == old(all) - {x} && heap.nodes == old(heap.nodes) - {x}
      ensures forall y :: y in all ==> y.time == old(y.time) && y.repeat == old(y.repeat)
    {
      hide Ordered;
      ghost var ts := heap.Times();
      heap.TimesAt();
      x.live := false;
      SameTimes(ts);
      hide heap.Times, heap.Linked;
      Stop(x);
      all := all - {x};
    }

    /**
     Timer::update with the clock at `now`: fires at most ten timers, each due, in
     order of deadline; if fewer, none that is due is left. A timer that repeats is
     due again `repeat` later, and one that does not is off the heap.
     */
    method Update(now: int) returns (fired: seq<Node>, due: seq<int>)
      requires Valid() && now > 0
      modifies heap, all
      ensures Valid() && |fired| == |due| <= 10
      ensures forall i :: 0 <= i < |due| ==> due[i] <= now && fired[i] in all
      ensures forall i, j :: 0 <= i < j < |due| ==> due[i] <= due[j] && fired[i] != fired[j]
      ensures forall i :: 0 <= i < |fired| ==> due[i] == old(fired[i].time) && fired[i] in old(heap.nodes)
      ensures forall x :: x in fired ==> x.time == if x.repeat > 0 then now + x.repeat else 0
      ensures forall x :: x in all && x !in fired ==> x.time == old(x.time)
      ensures forall x :: x in all ==> x.repeat == old(x.repeat)
      ensures |fired| < 10 ==> forall x :: x in heap.nodes ==> now < x.time
    {
      hide heap.Linked, heap.Times, Ordered;
      fired, due := [], [];
      var i := 0;
      while i < 10
        invariant Valid() && 0 <= i <= 10 && |fired| == |due| == i
        invariant forall x :: x in fired ==> x in all && x.time == if x.repeat > 0 then now + x.repeat else 0
        invariant forall x :: x in all ==> x.repeat == old(x.repeat) && (x !in fired ==> x.time == old(x.time))
        invariant forall k :: 0 <= k < i ==> fired[k] in all && due[k] <= now
        invariant forall k :: 0 <= k < i ==> due[k] == old(fired[k].time) && fired[k] in old(heap.nodes)
        invariant forall k, m :: 0 <= k < m < i ==> due[k] <= due[m] && fired[k] != fired[m]
        invariant forall k, x :: 0 <= k < i && x in heap.nodes ==> due[k] <= x.time
      {
        var node := heap.Min();
        if node == null || now < node.time {
          break;
        }
        due, fired := due + [node.time], fired + [node];
        Fire(node, now);
        i := i + 1;
      }
    }

    /** Take a due timer off the heap, and put it back if it repeats. */
    method Fire(node: Node, now: int)
      requires Valid() && node in heap.nodes && now > 0
      modifies heap, all
      ensures Valid() && node.time == if node.repeat > 0 then now + node.repeat else 0
      ensures heap.nodes == if node.repeat > 0 then old(heap.nodes) else old(heap.nodes) - {node}
      ensures forall x :: x in all ==> x.repeat == old(x.repeat) && (x != node ==> x.time == old(x.time))
    {
      hide heap.Times, Ordered, HoleOk, Placed, LinksOk;
      heap.Beside(node);
      OrderedHole(heap.Times(), node.pos);
      heap.Remove(node);
      node.time := 0;
      if node.repeat > 0 {
        node.time := node.repeat + now;
        heap.Insert(node);
      }
    }
  }

  /** Every parent is due no later than its children. */
  ghost predicate Ordered(ts: seq<int>) {
    forall q :: 1 < q < |ts| ==> ts[q / 2] <= ts[q]
  }

  /** The order holds except between position p and its parent, and it holds across p. */
  ghost predicate UpOk(ts: seq<int>, p: nat) {
    && (forall q :: 1 < q < |ts| && q != p ==> ts[q / 2] <= ts[q])
    && (forall q :: 1 < q < |ts| && q / 2 == p && p > 1 ==> ts[p / 2] <= ts[q])
  }

  /** The order holds except between position p and its parent and children, and it holds across p. */
  ghost predicate HoleOk(ts: seq<int>, p: nat) {
    && (forall q :: 1 < q < |ts| && q != p && q / 2 != p ==> ts[q / 2] <= ts[q])
    && (forall q :: 1 < q < |ts| && q / 2 == p && p > 1 ==> ts[p / 2] <= ts[q])
  }

  ghost function Swapped(ts: seq<int>, p: nat, c: nat): (r: seq<int>)
    requires p < |ts| && c < |ts|
  {
    ts[p := ts[c]][c := ts[p]]
  }

  lemma UpStep(ts: seq<int>, c: nat)
    requires 1 < c < |ts| && UpOk(ts, c) && ts[c] < ts[c / 2]
    ensures UpOk(Swapped(ts, c / 2, c), c / 2)
  {
  }

  lemma UpDone(ts: seq<int>, c: nat)
    requires 0 < c < |ts| && UpOk(ts, c) && (c > 1 ==> ts[c] >= ts[c / 2])
    ensures Ordered(ts)
  {
  }

  /** Filling the hole with the last entry leaves a hole there; a hole at the end just goes. */
  lemma HoleLeft(ts: seq<int>, p: nat)
    requires 0 < p < |ts| && HoleOk(ts, p)
    ensures p == |ts| - 1 ==> Ordered(ts[..|ts| - 1])
    ensures p < |ts| - 1 ==> HoleOk(ts[..|ts| - 1][p := ts[|ts| - 1]], p)
  {
  }

  lemma DownStep(ts: seq<int>, i: nat, c: nat)
    requires 0 < i < c < |ts| && c / 2 == i && HoleOk(ts, i)
    requires forall q :: 0 < q < |ts| && q / 2 == i ==> ts[c] <= ts[q]
    ensures HoleOk(Swapped(ts, i, c), c)
  {
  }

  lemma DownDone(ts: seq<int>, i: nat)
    requires 0 < i < |ts| && HoleOk(ts, i) && forall q :: 1 < q < |ts| && q / 2 == i ==> ts[i] <= ts[q]
    ensures UpOk(ts, i)
  {
  }

  lemma {:induction false} RootLeast(ts: seq<int>, p: nat)
    requires Ordered(ts) && 0 < p < |ts|
    ensures ts[1] <= ts[p]
  {
    if p > 1 {
      RootLeast(ts, p / 2);
    }
  }

  lemma OrderedHole(ts: seq<int>, p: nat)
    requires Ordered(ts) && 0 < p < |ts|
    ensures HoleOk(ts, p)
  {
    HoleAnyKey(ts, p, ts[p]);
    assert ts[p := ts[p]] == ts;
  }

  /** A heap stays good for removing a node whose deadline is changed to anything. */
  lemma HoleAnyKey(ts: seq<int>, p: nat, x: int)
    requires Ordered(ts) && 0 < p < |ts|
    ensures HoleOk(ts[p := x], p)
  {
  }

  // ---------- bit paths ----------

  /** Go down from position p by the k lowest bits of path, the lowest first. */
  function Follow(p: nat, path: nat, k: nat): nat
    decreases k
  {
    if k == 0 then p else Follow(2 * p + path % 2, path / 2, k - 1)
  }

  lemma {:induction false} FollowGrows(p: nat, path: nat, k: nat)
    ensures Follow(p, path, k) >= p
    ensures k > 0 && p > 0 ==> Follow(p, path, k) > p
    decreases k
  {
    if k > 0 {
      FollowGrows(2 * p + path % 2, path / 2, k - 1);
    }
  }

  /** The turns from the root to position n; path needs no more bits than n, so it fits where n does. */
  method Path(n: nat) returns (path: nat, k: nat)
    requires n >= 1
    ensures Follow(1, path, k) == n && path < n
  {
    path, k := 0, 0;
    var m := n;
    ghost var bits := 1;
    while m >= 2
      invariant m >= 1 && Follow(m, path, k) == n && path < bits && bits * m <= n
    {
      assert (2 * path + m % 2) / 2 == path && (2 * path + m % 2) % 2 == m % 2;
      Halve(bits, m, n);
      path := 2 * path + m % 2;
      k, m, bits := k + 1, m / 2, 2 * bits;
    }
  }

  lemma Halve(bits: nat, m: nat, n: nat)
    requires bits * m <= n
    ensures 2 * bits * (m / 2) <= n
  {
    assert 2 * bits * (m / 2) == bits * (2 * (m / 2));
    assert bits * (2 * (m / 2)) <= bits * m;
  }
}
