/** `java.util.PriorityQueue<Card>` as `getNextCard` uses it: built empty with a
    comparator, filled with `add`, drained with `poll` and tested with `isEmpty`.
    Only the set of queued cards is kept; the heap layout is not modelled. */
module PriorityQueues {
  import opened Cards
  import opened Comparators

  class CardQueue {
    /** The comparator the queue was built with. */
    const order: Order
    /** The cards currently queued. */
    var elems: set<Card>

    /** `new PriorityQueue<Card>(comparator)`. */
    constructor (order: Order)
      ensures this.order == order && elems == {}
    {
      this.order := order;
      elems := {};
    }

    /** `q.add(c)`. */
    method Add(c: Card)
      modifies this
      ensures elems == old(elems) + {c}
    {
      elems := elems + {c};
    }

    /** `q.isEmpty()`. */
    predicate IsEmpty()
      reads this
    {
      elems == {}
    }

    /** `q.poll()`: removes and returns the least card under `order`, or `null`
        on an empty queue. The least card is found by a selection loop. */
    method Poll() returns (head: Option<Card>)
      modifies this
      ensures head == Head(order, old(elems))
      ensures head.Some? ==> elems == old(elems) - {head.value}
      ensures head.None? ==> elems == old(elems) == {}
    {
      if elems == {} {
        return None;
      }
      var best :| best in elems;
      var rest := elems - {best};
      while rest != {}
        invariant rest <= elems && best in elems
        invariant forall c :: c in elems && c !in rest ==> Compare(order, best, c) <= 0
        decreases rest
      {
        var c :| c in rest;
        if Compare(order, c, best) < 0 {
          best := c;
        }
        rest := rest - {c};
      }
      LeastUnique(order, elems, best);
      elems := elems - {best};
      head := Some(best);
    }
  }
}
