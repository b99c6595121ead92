/** `BulkAdd` (assets/global.js): quick-order quantity inputs. A typed quantity
    is checked against the input's `min`, `max` and `step`; an accepted one is
    queued, and a batch of queued entries is sent as one id -> quantity map. */
module BulkOrder {
  import opened Optional

  /** One queued `{ id, quantity }` object. `ticket` stands for the object's
      identity: `queue.includes(e)` compares objects, not their contents. */
  datatype QueueItem = QueueItem(ticket: nat, id: int, quantity: int)

  /** Which message `validateQuantity` reports, if any. */
  datatype Verdict = BelowMin | AboveMax | OffStep | Accepted

  /** JavaScript's `a < b` on numbers that may be NaN (`None`): false with NaN. */
  predicate Below(a: Option<int>, b: Option<int>) {
    a.Some? && b.Some? && a.value < b.value
  }

  /** `value % step == 0` in JavaScript: NaN operands and a zero step give NaN,
      which is `!= 0`. (Truncating and Euclidean remainders are zero together.) */
  predicate OnStep(value: Option<int>, step: Option<int>) {
    value.Some? && step.Some? && step.value != 0 && value.value % step.value == 0
  }

  /** The rules of `validateQuantity`, checked in order: min, then max, then
      step; only the first failure is reported. */
  function CheckQuantity(value: Option<int>, min: Option<int>, max: Option<int>, step: Option<int>): (r: Verdict)
    ensures r == BelowMin <==> Below(value, min)
    ensures r == AboveMax <==> !Below(value, min) && Below(max, value)
    ensures r == OffStep <==> !Below(value, min) && !Below(max, value) && !OnStep(value, step)
    ensures r == Accepted ==>
              && value.Some? && step.Some? && step.value != 0 && value.value % step.value == 0
              && (min.Some? ==> min.value <= value.value)
              && (max.Some? ==> value.value <= max.value)
  {
    if Below(value, min) then BelowMin
    else if Below(max, value) then AboveMax
    else if !OnStep(value, step) then OffStep
    else Accepted
  }

  /** The ids of `q`. */
  function Ids(q: seq<QueueItem>): set<int> {
    set k | 0 <= k < |q| :: q[k].id
  }

  /** `queue.forEach(item => items[item.id] = item.quantity)`: the map holds
      exactly the queued ids. */
  function ItemsMap(q: seq<QueueItem>): (m: map<int, int>)
    ensures m.Keys == Ids(q)
  {
    if q == [] then map[]
    else
      var last := q[|q| - 1];
      var front := q[..|q| - 1];
      assert Ids(q) == Ids(front) + {last.id} by {
        forall x | x in Ids(q) ensures x in Ids(front) + {last.id} {
          var k :| 0 <= k < |q| && q[k].id == x;
          if k < |q| - 1 { assert front[k] == q[k]; }
        }
        forall x | x in Ids(front) ensures x in Ids(q) {
          var k :| 0 <= k < |front| && front[k].id == x;
          assert q[k] == front[k];
        }
      }
      ItemsMap(front)[last.id := last.quantity]
  }

  /** A later entry for an id overwrites an earlier one: the map holds the
      quantity of the last entry for each id. */
  lemma {:induction false} LastEntryWins(q: seq<QueueItem>, k: int)
    requires 0 <= k < |q|
    requires forall j :: k < j < |q| ==> q[j].id != q[k].id
    ensures q[k].id in ItemsMap(q) && ItemsMap(q)[q[k].id] == q[k].quantity
  {
    if k < |q| - 1 {
      var front := q[..|q| - 1];
      assert front[k] == q[k];
      LastEntryWins(front, k);
    }
  }

  /** `this.queue.filter(e => !sent.includes(e))`. */
  function Without(queue: seq<QueueItem>, sent: seq<QueueItem>): (r: seq<QueueItem>)
    ensures |r| <= |queue|
    ensures forall x :: x in r <==> x in queue && x !in sent
  {
    if queue == [] then []
    else if queue[0] in sent then Without(queue[1..], sent)
    else [queue[0]] + Without(queue[1..], sent)
  }

  /** Sending every queued entry empties the queue; the polling loop sends the
      queue itself (`sendRequest(this.queue)`). */
  lemma {:induction false} SendingAllEmptiesQueue(queue: seq<QueueItem>, sent: seq<QueueItem>)
    requires forall k :: 0 <= k < |queue| ==> queue[k] in sent
    ensures Without(queue, sent) == []
  {
    if queue != [] {
      SendingAllEmptiesQueue(queue[1..], sent);
    }
  }

  /** Entries of the queue that were not sent stay, in their order. */
  lemma {:induction false} UnsentStayInOrder(queue: seq<QueueItem>, sent: seq<QueueItem>)
    requires forall k :: 0 <= k < |queue| ==> queue[k] !in sent
    ensures Without(queue, sent) == queue
  {
    if queue != [] {
      UnsentStayInOrder(queue[1..], sent);
    }
  }

  /** The filter distributes over concatenation: the unsent entries of each
      part stay in the order they were queued. */
  lemma {:induction false} WithoutAppend(a: seq<QueueItem>, b: seq<QueueItem>, sent: seq<QueueItem>)
    ensures Without(a + b, sent) == Without(a, sent) + Without(b, sent)
  {
    if a == [] {
      assert a + b == b;
    } else {
      assert (a + b)[0] == a[0];
      assert (a + b)[1..] == a[1..] + b;
      WithoutAppend(a[1..], b, sent);
    }
  }

  /** A single entry stays exactly when it was not sent. */
  lemma WithoutSingle(x: QueueItem, sent: seq<QueueItem>)
    ensures Without([x], sent) == if x in sent then [] else [x]
  {
    assert [x][1..] == [];
  }

  /** Tickets are pairwise distinct: each queued object appears once. */
  ghost predicate DistinctTickets(q: seq<QueueItem>) {
    forall a, b :: 0 <= a < b < |q| ==> q[a].ticket != q[b].ticket
  }

  /** Dropping sent entries keeps the remaining tickets distinct. */
  lemma {:induction false} WithoutKeepsDistinct(q: seq<QueueItem>, sent: seq<QueueItem>)
    requires DistinctTickets(q)
    ensures DistinctTickets(Without(q, sent))
  {
    if q != [] {
      var rest := q[1..];
      assert DistinctTickets(rest) by {
        forall a, b | 0 <= a < b < |rest| ensures rest[a].ticket != rest[b].ticket {
          assert rest[a] == q[a + 1] && rest[b] == q[b + 1];
        }
      }
      WithoutKeepsDistinct(rest, sent);
      if q[0] !in sent {
        var w := Without(rest, sent);
        var r := [q[0]] + w;
        forall a, b | 0 <= a < b < |r| ensures r[a].ticket != r[b].ticket {
          if a == 0 {
            assert r[b] == w[b - 1] && w[b - 1] in rest;
            var j :| 0 <= j < |rest| && rest[j] == w[b - 1];
            assert q[j + 1] == rest[j];
          } else {
            assert r[a] == w[a - 1] && r[b] == w[b - 1];
          }
        }
      }
    }
  }

  /** The bulk-add element's state. `nextTicket` hands out identities to the
      objects `startQueue` creates. */
  class BulkAdd {
    var queue: seq<QueueItem>
    var requestStarted: bool
    var nextTicket: nat

    ghost predicate Valid()
      reads this
    {
      && (forall x :: x in queue ==> x.ticket < nextTicket)
      && DistinctTickets(queue)
    }

    constructor ()
      ensures Valid() && queue == [] && !requestStarted
    {
      queue := [];
      requestStarted := false;
      nextTicket := 0;
    }

    /** `startQueue`'s push: a new object goes to the back of the queue. */
    method StartQueue(id: int, quantity: int)
      requires Valid()
      modifies this`queue, this`nextTicket
      ensures Valid()
      ensures queue == old(queue) + [QueueItem(old(nextTicket), id, quantity)]
      ensures old(nextTicket) !in set k | 0 <= k < |old(queue)| :: old(queue)[k].ticket
    {
      queue := queue + [QueueItem(nextTicket, id, quantity)];
      nextTicket := nextTicket + 1;
    }

    /** `validateQuantity` on the input with `data-index` `id`: only an
        accepted value is queued. */
    method ValidateQuantity(id: int, value: Option<int>, min: Option<int>, max: Option<int>, step: Option<int>)
      returns (verdict: Verdict)
      requires Valid()
      modifies this`queue, this`nextTicket
      ensures Valid()
      ensures verdict == CheckQuantity(value, min, max, step)
      ensures verdict == Accepted ==> queue == old(queue) + [QueueItem(old(nextTicket), id, value.value)]
      ensures verdict != Accepted ==> queue == old(queue) && nextTicket == old(nextTicket)
    {
      verdict := CheckQuantity(value, min, max, step);
      if verdict == Accepted {
        StartQueue(id, value.value);
      }
    }

    /** `sendRequest(sent)`: mark the request as started, build the id ->
        quantity map from `sent` and drop exactly the sent objects from the queue. */
    method SendRequest(sent: seq<QueueItem>) returns (items: map<int, int>)
      requires Valid()
      modifies this`queue, this`requestStarted
      ensures Valid()
      ensures requestStarted
      ensures items == ItemsMap(sent)
      ensures queue == Without(old(queue), sent)
    {
      requestStarted := true;
      items := map[];
      var i := 0;
      while i < |sent|
        invariant 0 <= i <= |sent|
        invariant items == ItemsMap(sent[..i])
      {
        assert sent[..i + 1][..i] == sent[..i];
        items := items[sent[i].id := sent[i].quantity];
        i := i + 1;
      }
      assert sent[..|sent|] == sent;
      WithoutKeepsDistinct(queue, sent);
      queue := Without(queue, sent);
    }
  }
}
