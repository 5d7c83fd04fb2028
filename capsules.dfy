/**
 * The capsule table and the periodic due sweep. Time is an integer count of
 * microseconds, the resolution of a Python datetime; the store is an
 * in-memory map from primary key to row.
 */
module CapsuleStore {

  /** One row of the capsules table. */
  datatype Capsule = Capsule(id: nat, userId: int, message: string, sendDate: int)

  /** One message handed to the chat transport: the chat to send to and the text. */
  datatype Delivery = Delivery(chatId: int, text: string)

  const DeliveryPrefix: string := "Ваша капсула времени от "

  /**
   * The message a due capsule is delivered as; fmt renders a send date. It
   * goes to the capsule's user, and its text is the prefix, the rendered
   * send date, ": " and the capsule's message, in that order.
   */
  function Render(c: Capsule, fmt: int -> string): (d: Delivery)
    ensures d.chatId == c.userId
    ensures |d.text| == |DeliveryPrefix| + |fmt(c.sendDate)| + 2 + |c.message|
    ensures d.text[..|DeliveryPrefix|] == DeliveryPrefix
    ensures d.text[|DeliveryPrefix|..|DeliveryPrefix| + |fmt(c.sendDate)|] == fmt(c.sendDate)
    ensures d.text[|d.text| - |c.message| - 2..|d.text| - |c.message|] == ": "
    ensures d.text[|d.text| - |c.message|..] == c.message
  {
    Delivery(c.userId, DeliveryPrefix + fmt(c.sendDate) + ": " + c.message)
  }

  /**
   * The keys of the capsules a sweep at time now selects: send date at or
   * before now, so a capsule due exactly at now is included. Kept gives
   * the complement.
   */
  function Due(rows: map<nat, Capsule>, now: int): (r: set<nat>)
    ensures r <= rows.Keys
    ensures forall id :: id in r ==> rows[id].sendDate <= now
    ensures forall id :: id in rows && rows[id].sendDate <= now ==> id in r
  {
    set id | id in rows && rows[id].sendDate <= now
  }

  /**
   * The rows a sweep at time now leaves behind: exactly the rows that are
   * not due, each unchanged.
   */
  function Kept(rows: map<nat, Capsule>, now: int): (r: map<nat, Capsule>)
    ensures r.Keys !! Due(rows, now)
    ensures r.Keys + Due(rows, now) == rows.Keys
    ensures forall id :: id in r ==> r[id] == rows[id] && now < r[id].sendDate
  {
    map id | id in rows && now < rows[id].sendDate :: rows[id]
  }

  /** The messages sent for the capsules ids, in that order. */
  ghost function Deliveries(rows: map<nat, Capsule>, ids: seq<nat>, fmt: int -> string): (ds: seq<Delivery>)
    requires forall k :: 0 <= k < |ids| ==> ids[k] in rows
    ensures |ds| == |ids|
    ensures forall k :: 0 <= k < |ids| ==> ds[k] == Render(rows[ids[k]], fmt)
  {
    if ids == [] then []
    else Deliveries(rows, ids[..|ids| - 1], fmt) + [Render(rows[ids[|ids| - 1]], fmt)]
  }

  /** Sending one more capsule appends its message to the messages sent so far. */
  lemma DeliveriesSnoc(rows: map<nat, Capsule>, ids: seq<nat>, id: nat, fmt: int -> string)
    requires forall k :: 0 <= k < |ids| ==> ids[k] in rows
    requires id in rows
    ensures Deliveries(rows, ids + [id], fmt) == Deliveries(rows, ids, fmt) + [Render(rows[id], fmt)]
  {
    assert (ids + [id])[..|ids|] == ids;
  }

  /** No id appears twice in ids. */
  ghost predicate Distinct(ids: seq<nat>) {
    forall k, l :: 0 <= k < l < |ids| ==> ids[k] != ids[l]
  }

  /** After a sweep at now nothing left is due at now, so a second sweep finds nothing. */
  lemma KeptHasNothingDue(rows: map<nat, Capsule>, now: int)
    ensures Due(Kept(rows, now), now) == {}
    ensures Kept(Kept(rows, now), now) == Kept(rows, now)
  {
  }

  /** Deleting the due rows leaves exactly the kept rows. */
  lemma RemoveDue(rows: map<nat, Capsule>, now: int)
    ensures rows - Due(rows, now) == Kept(rows, now)
  {
    var r := rows - Due(rows, now);
    assert r.Keys == Kept(rows, now).Keys;
    forall id | id in r ensures r[id] == Kept(rows, now)[id] {}
  }

  /** A capsule that is due stays due at every later time. */
  lemma DueGrows(rows: map<nat, Capsule>, now: int, later: int)
    requires now <= later
    ensures Due(rows, now) <= Due(rows, later)
    ensures Kept(rows, later).Keys <= Kept(rows, now).Keys
  {
  }

  /** Appending an id not yet present keeps a sequence duplicate-free. */
  lemma DistinctSnoc(ids: seq<nat>, id: nat)
    requires Distinct(ids) && id !in ids
    ensures Distinct(ids + [id])
  {
  }

  /** A duplicate-free sequence whose elements are exactly the set s has |s| elements. */
  lemma {:induction false} DistinctCard(ids: seq<nat>, s: set<nat>)
    requires Distinct(ids)
    requires forall id :: id in ids <==> id in s
    ensures |ids| == |s|
  {
    if ids != [] {
      var last := ids[|ids| - 1];
      var front := ids[..|ids| - 1];
      forall id ensures id in front <==> id in s - {last} {
        if id in front {
          var k :| 0 <= k < |front| && front[k] == id;
          assert ids[k] == id && k < |ids| - 1;
        }
        if id in s - {last} {
          var k :| 0 <= k < |ids| && ids[k] == id;
          assert k != |ids| - 1;
          assert front[k] == id;
        }
      }
      DistinctCard(front, s - {last});
    }
  }

  /** Every row is stored under its own id, and every id lies below next. */
  ghost predicate WellKeyed(rows: map<nat, Capsule>, next: nat) {
    forall id :: id in rows ==> id < next && rows[id].id == id
  }

  /** The rows a sweep keeps are still stored under their ids. */
  lemma WellKeyedKept(rows: map<nat, Capsule>, next: nat, now: int)
    requires WellKeyed(rows, next)
    ensures WellKeyed(Kept(rows, now), next)
  {
  }

  /**
   * Bookkeeping of a sweep over due part way through: pending is still to
   * be sent, deleted has been sent and marked for deletion, order lists
   * deleted once each in sending order, and no sent capsule is in failing.
   */
  ghost predicate Progress(due: set<nat>, pending: set<nat>, deleted: set<nat>, order: seq<nat>, failing: set<nat>) {
    && pending <= due && deleted == due - pending
    && Distinct(order)
    && (forall k :: 0 <= k < |order| ==> order[k] in deleted && order[k] !in failing)
    && (forall id :: id in deleted ==> id in order)
  }

  /** Sending one more pending capsule that does not fail keeps the bookkeeping. */
  lemma SendStep(due: set<nat>, pending: set<nat>, deleted: set<nat>, order: seq<nat>, failing: set<nat>, id: nat)
    requires Progress(due, pending, deleted, order, failing)
    requires id in pending && id !in failing
    ensures Progress(due, pending - {id}, deleted + {id}, order + [id], failing)
  {
    DistinctSnoc(order, id);
  }

  /**
   * What a sweep over the due capsules of rows has done once it stops:
   * either it sent every due capsule, each once, none of them failing, or
   * it stopped at a due capsule whose send fails. Either way every capsule
   * sent was due and did not fail.
   */
  lemma SweepOutcome(rows: map<nat, Capsule>, now: int, pending: set<nat>, deleted: set<nat>,
                     order: seq<nat>, failing: set<nat>, raised: bool, culprit: nat)
    requires Progress(Due(rows, now), pending, deleted, order, failing)
    requires raised ==> culprit in pending && culprit in failing
    requires !raised ==> pending == {}
    ensures !raised <==> Due(rows, now) !! failing
    ensures forall k :: 0 <= k < |order| ==> order[k] in Due(rows, now) && order[k] !in failing
    ensures !raised ==> forall id :: id in Due(rows, now) ==> id in order
    ensures !raised ==> |order| == |Due(rows, now)|
  {
    var due := Due(rows, now);
    if !raised {
      assert deleted == due;
      forall id | id in due ensures id !in failing {
        var k :| 0 <= k < |order| && order[k] == id;
      }
      DistinctCard(order, due);
    }
  }

  /**
   * What a sweep at time now over rows reports, ok telling whether it got
   * through without a raise and order listing the capsules it sent, in
   * sending order: it gets through exactly when no due capsule's send
   * fails; it sends each capsule at most once, and only due ones whose
   * send does not fail; when it gets through it has sent every due
   * capsule, as many messages as there were due capsules.
   */
  ghost predicate SweepReport(rows: map<nat, Capsule>, now: int, failing: set<nat>, ok: bool, order: seq<nat>)
  {
    && (ok <==> Due(rows, now) !! failing)
    && Distinct(order)
    && (forall k :: 0 <= k < |order| ==> order[k] in Due(rows, now) && order[k] !in failing)
    && (ok ==> forall id :: id in Due(rows, now) ==> id in order)
    && (ok ==> |order| == |Due(rows, now)|)
  }

  /**
   * The loop of a sweep at time now over the due capsules of rows, in an
   * unspecified order: each one is sent and marked for deletion, until a
   * send to a capsule in failing raises. sent is what reached the
   * transport, order the capsules it was sent for.
   */
  method SendEach(rows: map<nat, Capsule>, now: int, fmt: int -> string, failing: set<nat>)
    returns (raised: bool, ghost order: seq<nat>, ghost sent: seq<Delivery>)
    ensures !raised <==> Due(rows, now) !! failing
    ensures SweepReport(rows, now, failing, !raised, order)
    ensures sent == Deliveries(rows, order, fmt)
  {
    var due := Due(rows, now);
    var pending := due;
    var deleted: set<nat> := {};
    ghost var culprit: nat := 0;
    raised := false;
    sent := [];
    order := [];
    while pending != {}
      invariant Progress(due, pending, deleted, order, failing)
      invariant sent == Deliveries(rows, order, fmt)
      decreases pending
    {
      var id :| id in pending;
      if id in failing {
        // The send raises and leaves the sweep.
        raised := true;
        culprit := id;
        break;
      }
      DeliveriesSnoc(rows, order, id, fmt);
      SendStep(due, pending, deleted, order, failing, id);
      sent := sent + [Render(rows[id], fmt)];
      order := order + [id];
      deleted := deleted + {id};
      pending := pending - {id};
    }
    SweepOutcome(rows, now, pending, deleted, order, failing, raised, culprit);
  }

  /**
   * The capsules table. Every row's id is its key and lies below nextId,
   * the key the next insert takes. The outbox records every message handed
   * to the transport.
   */
  class Store {
    var capsules: map<nat, Capsule>
    var nextId: nat
    ghost var outbox: seq<Delivery>

    ghost predicate Valid()
      reads `capsules, `nextId
    {
      WellKeyed(capsules, nextId)
    }

    constructor ()
      ensures Valid()
      ensures capsules == map[] && outbox == []
    {
      capsules := map[];
      nextId := 1;
      outbox := [];
    }

    /**
     * save_capsule: inserts one row under a fresh key and commits it. The
     * rows already present are untouched and nothing is sent.
     */
    method SaveCapsule(userId: int, message: string, sendDate: int) returns (id: nat)
      requires Valid()
      modifies this
      ensures Valid()
      ensures id !in old(capsules)
      ensures capsules == old(capsules)[id := Capsule(id, userId, message, sendDate)]
      ensures outbox == old(outbox)
    {
      id := nextId;
      capsules := capsules[id := Capsule(id, userId, message, sendDate)];
      nextId := nextId + 1;
    }

    /**
     * check_and_send_capsules at time now: selects every due capsule, sends
     * each one to its user in an unspecified order, marks it for deletion,
     * and commits the deletions once at the end. A send to a capsule in
     * failing raises, which leaves the sweep before the commit: the
     * messages already sent stay sent, and no row is deleted. The ghost
     * result order lists the capsules sent, in the order they were sent.
     */
    method CheckAndSendCapsules(now: int, fmt: int -> string, failing: set<nat>)
      returns (ok: bool, ghost order: seq<nat>)
      requires Valid()
      modifies this
      ensures Valid() && nextId == old(nextId)
      ensures SweepReport(old(capsules), now, failing, ok, order)
      ensures outbox == old(outbox) + Deliveries(old(capsules), order, fmt)
      ensures capsules == if ok then Kept(old(capsules), now) else old(capsules)
    {
      var rows := capsules;
      var raised;
      ghost var sent;
      raised, order, sent := SendEach(rows, now, fmt, failing);
      outbox := outbox + sent;
      if raised {
        // The session is never committed.
        ok := false;
      } else {
        // Committing the deletions of the due rows leaves the kept rows (RemoveDue).
        WellKeyedKept(rows, nextId, now);
        capsules := Kept(rows, now);
        ok := true;
      }
    }
  }
}
