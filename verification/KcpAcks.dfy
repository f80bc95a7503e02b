/**
 The array behind the list of acknowledgements: pairs of numbers in a block that is
 replaced by a larger one when it is full, and kept when a flush empties the list.
 */
module KcpAcks {
  import opened Serial
  import M = KcpModel

  const FIRST_BLOCK: nat := 8

  /** The pairs at the front of the array, as acknowledgements. */
  ghost function Pairs(a: seq<u32>, n: nat): (s: seq<M.Ack>)
    requires 2 * n <= |a|
    ensures |s| == n
  {
    seq(n, i requires 0 <= i < n => M.Ack(a[2 * i], a[2 * i + 1]))
  }

  class AckList {
    var acklist: array?<u32>
    var ackcount: nat
    var ackblock: nat

    ghost predicate Valid()
      reads this
    {
      && (if acklist == null then ackblock == 0 else acklist.Length == 2 * ackblock)
      && ackcount <= ackblock
    }

    /** The acknowledgements waiting to be sent, oldest first. */
    ghost function Contents(): (s: seq<M.Ack>)
      requires Valid()
      reads this, acklist
      ensures |s| == ackcount
    {
      if acklist == null then [] else Pairs(acklist[..], ackcount)
    }

    constructor ()
      ensures Valid() && Contents() == [] && acklist == null
    {
      acklist, ackcount, ackblock := null, 0, 0;
    }

    /**
     ikcp_ack_push. The list grows by the pair, as rcv.acks of the model does. The array
     is replaced exactly when it is full, by one of the smallest size, or less than twice
     as large as needed.
     */
    method Push(sn: u32, ts: u32)
      requires Valid()
      modifies this, acklist
      ensures Valid() && Contents() == old(Contents()) + [M.Ack(sn, ts)]
      ensures acklist != null && (acklist == old(acklist) || fresh(acklist))
      ensures acklist == old(acklist) <==> old(ackcount < ackblock)
      ensures old(ackcount == ackblock) ==> ackblock >= FIRST_BLOCK && (ackblock == FIRST_BLOCK || ackblock < 2 * ackcount)
    {
      ghost var was := Contents();
      var newsize := ackcount + 1;
      if newsize > ackblock {
        Grow(newsize);
      }
      assert Contents() == was;
      acklist[2 * ackcount], acklist[2 * ackcount + 1] := sn, ts;
      ackcount := ackcount + 1;
      assert Contents()[..ackcount - 1] == was;
    }

    method Grow(newsize: nat)
      requires Valid() && newsize == ackcount + 1 == ackblock + 1
      modifies this
      ensures Valid() && Contents() == old(Contents()) && fresh(acklist) && ackcount == old(ackcount)
      ensures newsize <= ackblock && FIRST_BLOCK <= ackblock && (ackblock == FIRST_BLOCK || ackblock < 2 * newsize)
    {
      var newblock := FIRST_BLOCK;
      while newblock < newsize
        invariant FIRST_BLOCK <= newblock && (newblock == FIRST_BLOCK || newblock < 2 * newsize)
      {
        newblock := 2 * newblock;
      }
      var larger := new u32[2 * newblock];
      if acklist != null {
        var x := 0;
        while x < ackcount
          invariant 0 <= x <= ackcount && acklist == old(acklist) && ackcount == old(ackcount)
          invariant forall i :: 0 <= i < 2 * x ==> larger[i] == acklist[i]
        {
          larger[2 * x] := acklist[2 * x];
          larger[2 * x + 1] := acklist[2 * x + 1];
          x := x + 1;
        }
      }
      acklist, ackblock := larger, newblock;
    }

    /** ikcp_ack_get. */
    method Get(p: nat) returns (sn: u32, ts: u32)
      requires Valid() && p < ackcount
      ensures M.Ack(sn, ts) == Contents()[p]
    {
      sn, ts := acklist[2 * p], acklist[2 * p + 1];
    }

    /** What a flush does when all have been written: the block is kept. */
    method Clear()
      requires Valid()
      modifies `ackcount
      ensures Valid() && Contents() == []
    {
      ackcount := 0;
    }
  }
}
