/**
 * The per-order reconciliation the file feeder performs on each new, cancel
 * and amend message, stated as pure steps from the record the arena hands out
 * (and the message fields) to the record written back and the outcome.
 *
 * `qty` is 0 until the new message arrives and -1 once the record is
 * poisoned; cancel and amend messages may arrive before the new one, in which
 * case they only record `canQty` / `bookQty` and publish nothing.
 */
module Lifecycle {
  import opened Records

  /** The error codes the feeder logs. */
  datatype Error =
    | IllegalAct | IllegalIid | IllegalId | IllegalSide | IllegalQty | IllegalPrc
    | Duplicated | Corrupted | OverCan | OverAmd | DuplicatedCan
    | InconsistentSide | InconsistentPrc

  /**
   * The notifications handed to the book manager. Each carries the record as
   * it is at publication; a cancel also carries the cancelled quantity and an
   * amend the booked quantity before the amend.
   */
  datatype Event =
    | AddEvent(order: Order)
    | CanEvent(order: Order, qty: int)
    | AmdEvent(order: Order, oldBook: int)
    | ExeEvent(trade: Trade)

  /**
   * What handling a message comes to: a notification, a silent update of the
   * record, a logged rejection, or a fault (an assertion failure, a null
   * dereference or an out-of-range access, each of which ends the process).
   */
  datatype Outcome = Published(event: Event) | Applied | Rejected(error: Error) | Crash

  /** A step on one order record: the record written back and the outcome. */
  datatype Step = Step(rec: Order, out: Outcome)

  /** The verdict of `verify_booked_order`. */
  datatype Verdict = Pass | Mismatch(error: Error)

  /**
   * `verify_booked_order`: tolerant mode accepts everything; strict mode
   * requires the message's side, then its price, to match the record's.
   * Prices are integer ticks, so the source's 1e-6 tolerance is equality.
   */
  function VerifyBooked(tolerant: bool, po: Order, side: Side, prc: int): (v: Verdict)
    ensures tolerant ==> v == Pass
    ensures !tolerant ==> (v == Pass <==> po.side == side && po.prc == prc)
    ensures v == Mismatch(InconsistentSide) <==> !tolerant && po.side != side
    ensures v.Mismatch? ==> v.error == InconsistentSide || v.error == InconsistentPrc
  {
    if tolerant then Pass
    else if po.side != side then Mismatch(InconsistentSide)
    else if po.prc != prc then Mismatch(InconsistentPrc)
    else Pass
  }

  /** The record marked corrupted, as a failed verification leaves it. */
  function Poison(po: Order): (r: Order)
    ensures r.qty == -1
    ensures r.(qty := po.qty) == po
  {
    po.(qty := -1)
  }

  /** Whether cancel or amend has already recorded something for the order. */
  predicate Untouched(po: Order) {
    po.bookQty == 0 && po.canQty == 0
  }

  /** A cancel or amend seen on an untouched record takes the message's side and price. */
  function Adopt(po: Order, side: Side, prc: int): (r: Order)
    ensures Untouched(po) ==> r == po.(side := side, prc := prc)
    ensures !Untouched(po) ==> r == po
  {
    if Untouched(po) then po.(side := side, prc := prc) else po
  }

  /**
   * The record a new message makes of an unpublished one: its instrument and
   * quantity are set, and so are its side, price and booked quantity when no
   * cancel or amend was recorded before it.
   */
  function Fresh(po: Order, iid: nat, side: Side, qty: int, prc: int): (r: Order)
    ensures r.qty == qty && r.iid == iid && r.id == po.id && r.canQty == po.canQty
    ensures Untouched(po) ==> r == po.(iid := iid, qty := qty, side := side, prc := prc, bookQty := qty)
    ensures !Untouched(po) ==> r == po.(iid := iid, qty := qty)
  {
    var p := po.(iid := iid, qty := qty);
    if Untouched(p) then p.(side := side, prc := prc, bookQty := qty) else p
  }

  /**
   * The new message's step, once its fields parsed and its price is positive:
   * a duplicate or corrupted record is left alone; a recorded cancel or amend
   * above the new quantity poisons the record; otherwise the quantity is set
   * (the only place it is), side, price and booked quantity are initialised if
   * nothing was recorded before, and the add is published if the order passes
   * verification.
   */
  function AddStep(tolerant: bool, po: Order, iid: nat, side: Side, qty: int, prc: int): (r: Step)
    requires qty > 0
    ensures po.qty != 0 ==> r.rec == po && r.out.Rejected?
    ensures r.out == Rejected(Duplicated) <==> po.qty > 0
    ensures r.out == Rejected(Corrupted) <==> po.qty < 0
    ensures r.out == Rejected(OverCan) <==> po.qty == 0 && po.canQty > qty
    ensures r.out == Rejected(OverAmd) <==> po.qty == 0 && po.canQty <= qty && po.bookQty > qty
    ensures po.qty == 0 && (po.canQty > qty || po.bookQty > qty) ==> r.rec == Poison(po)
    ensures r.out.Published? ==> r.out.event == AddEvent(r.rec)
    ensures r.out.Published? ==> r.rec.qty == qty && r.rec.iid == iid && r.rec.id == po.id
    ensures r.out.Published? ==> r.rec.bookQty <= qty && r.rec.canQty <= qty
    ensures r.out.Published? && Untouched(po) ==>
      r.rec == po.(iid := iid, qty := qty, side := side, prc := prc, bookQty := qty)
    ensures r.out.Published? && !Untouched(po) ==> r.rec == po.(iid := iid, qty := qty)
    ensures r.out.Published? <==>
      po.qty == 0 && po.canQty <= qty && po.bookQty <= qty
      && VerifyBooked(tolerant, Fresh(po, iid, side, qty, prc), side, prc) == Pass
    ensures po.qty == 0 && po.canQty <= qty && po.bookQty <= qty ==>
      var v := VerifyBooked(tolerant, Fresh(po, iid, side, qty, prc), side, prc);
      v.Mismatch? ==> r.out == Rejected(v.error)
    ensures r.out.Rejected? && r.out.error in {InconsistentSide, InconsistentPrc} ==>
      r.rec == Poison(Fresh(po, iid, side, qty, prc))
    ensures r.out != Applied && r.out != Crash
    ensures r.rec.id == po.id && r.rec.canQty == po.canQty
  {
    if po.qty > 0 then Step(po, Rejected(Duplicated))
    else if po.qty < 0 then Step(po, Rejected(Corrupted))
    else if po.canQty > qty then Step(Poison(po), Rejected(OverCan))
    else if po.bookQty > qty then Step(Poison(po), Rejected(OverAmd))
    else
      var p' := Fresh(po, iid, side, qty, prc);
      match VerifyBooked(tolerant, p', side, prc)
      case Pass => Step(p', Published(AddEvent(p')))
      case Mismatch(e) => Step(Poison(p'), Rejected(e))
  }

  /**
   * The cancel message's step: a second cancel is a duplicate (checked before
   * corruption); before the new message the cancelled quantity is recorded
   * silently; after it, the cancel is recorded and published.
   */
  function CanStep(tolerant: bool, po: Order, side: Side, qty: int, prc: int): (r: Step)
    ensures po.canQty > 0 ==> r == Step(po, Rejected(DuplicatedCan))
    ensures po.canQty <= 0 && po.qty < 0 ==> r == Step(po, Rejected(Corrupted))
    ensures r.out == Applied <==>
      po.canQty <= 0 && po.qty == 0 && VerifyBooked(tolerant, Adopt(po, side, prc), side, prc) == Pass
    ensures r.out == Applied ==> r.rec == Adopt(po, side, prc).(canQty := qty)
    ensures po.canQty <= 0 && po.qty >= 0 ==>
      var p := if po.qty == 0 then Adopt(po, side, prc) else po;
      VerifyBooked(tolerant, p, side, prc).Mismatch? ==>
        r == Step(Poison(p), Rejected(VerifyBooked(tolerant, p, side, prc).error))
    ensures r.out.Rejected? && r.out.error in {InconsistentSide, InconsistentPrc} ==> r.rec.qty == -1
    ensures r.out.Published? <==> po.canQty <= 0 && po.qty > 0 && VerifyBooked(tolerant, po, side, prc) == Pass
    ensures r.out.Published? ==> r.rec == po.(canQty := qty) && r.out.event == CanEvent(r.rec, qty)
    ensures r.rec.qty == po.qty || r.rec.qty == -1
    ensures r.rec.bookQty == po.bookQty && r.rec.id == po.id && r.rec.iid == po.iid
  {
    if po.canQty > 0 then Step(po, Rejected(DuplicatedCan))
    else if po.qty < 0 then Step(po, Rejected(Corrupted))
    else if po.qty == 0 then
      var p := Adopt(po, side, prc);
      match VerifyBooked(tolerant, p, side, prc)
      case Pass => Step(p.(canQty := qty), Applied)
      case Mismatch(e) => Step(Poison(p), Rejected(e))
    else
      match VerifyBooked(tolerant, po, side, prc)
      case Pass =>
        var p := po.(canQty := qty);
        Step(p, Published(CanEvent(p, qty)))
      case Mismatch(e) => Step(Poison(po), Rejected(e))
  }

  /** An amend lowers a positive booked quantity to the new quantity, or sets an empty one. */
  function AmendedBook(book: int, qty: int): (b: int)
    ensures book > 0 ==> b <= book && b <= qty && (b == book || b == qty)
    ensures book <= 0 ==> b == qty
  {
    if book > 0 then (if qty < book then qty else book) else qty
  }

  /**
   * The amend message's step: before the new message the booked quantity is
   * recorded silently; after it, it is updated and the amend is published with
   * the booked quantity it had before.
   */
  function AmdStep(tolerant: bool, po: Order, side: Side, qty: int, prc: int): (r: Step)
    ensures po.qty < 0 ==> r == Step(po, Rejected(Corrupted))
    ensures r.out == Applied <==> po.qty == 0 && VerifyBooked(tolerant, Adopt(po, side, prc), side, prc) == Pass
    ensures r.out == Applied ==> r.rec == Adopt(po, side, prc).(bookQty := AmendedBook(po.bookQty, qty))
    ensures po.qty >= 0 ==>
      var p := if po.qty == 0 then Adopt(po, side, prc) else po;
      VerifyBooked(tolerant, p, side, prc).Mismatch? ==>
        r == Step(Poison(p), Rejected(VerifyBooked(tolerant, p, side, prc).error))
    ensures r.out.Rejected? && r.out.error in {InconsistentSide, InconsistentPrc} ==> r.rec.qty == -1
    ensures r.out.Published? <==> po.qty > 0 && VerifyBooked(tolerant, po, side, prc) == Pass
    ensures r.out.Published? ==>
      r.rec == po.(bookQty := AmendedBook(po.bookQty, qty)) && r.out.event == AmdEvent(r.rec, po.bookQty)
    ensures r.rec.qty == po.qty || r.rec.qty == -1
    ensures r.rec.canQty == po.canQty && r.rec.id == po.id && r.rec.iid == po.iid
    ensures po.bookQty > 0 ==> r.rec.bookQty <= po.bookQty
  {
    if po.qty < 0 then Step(po, Rejected(Corrupted))
    else if po.qty == 0 then
      var p := Adopt(po, side, prc);
      match VerifyBooked(tolerant, p, side, prc)
      case Pass => Step(p.(bookQty := AmendedBook(p.bookQty, qty)), Applied)
      case Mismatch(e) => Step(Poison(p), Rejected(e))
    else
      match VerifyBooked(tolerant, po, side, prc)
      case Pass =>
        var p := po.(bookQty := AmendedBook(po.bookQty, qty));
        Step(p, Published(AmdEvent(p, po.bookQty)))
      case Mismatch(e) => Step(Poison(po), Rejected(e))
  }

  /** The trade an execution message creates: side MAX, and no resting order. */
  function ExeTrade(tid: nat, iid: nat, qty: int, prc: int): (t: Trade)
    ensures t.id == tid && t.side == SideMax && t.iid == iid && t.qty == qty && t.prc == prc
    ensures t.oid == NewTrade(tid).oid
  {
    NewTrade(tid).(iid := iid, qty := qty, prc := prc, side := SideMax)
  }

  // ---------------------------------------------------------------------------
  // Properties of the lifecycle.

  /** A poisoned record stays as it is, whatever message follows. */
  lemma PoisonIsAbsorbing(tolerant: bool, po: Order, iid: nat, side: Side, qty: int, prc: int)
    requires po.qty < 0
    ensures qty > 0 ==> AddStep(tolerant, po, iid, side, qty, prc) == Step(po, Rejected(Corrupted))
    ensures CanStep(tolerant, po, side, qty, prc).rec == po
    ensures CanStep(tolerant, po, side, qty, prc).out.Rejected?
    ensures AmdStep(tolerant, po, side, qty, prc) == Step(po, Rejected(Corrupted))
  {
  }

  /** A published add meets what the manager asserts of it. */
  lemma AddMeetsManagerPreconditions(tolerant: bool, po: Order, iid: nat, side: Side, qty: int, prc: int)
    requires qty > 0
    ensures var r := AddStep(tolerant, po, iid, side, qty, prc);
      r.out.Published? ==> var o := r.out.event.order;
        o.qty > 0 && o.qty >= o.bookQty && o.qty >= o.canQty
  {
  }

  /** In tolerant mode nothing fails verification, so no step reports an inconsistency. */
  lemma TolerantNeverInconsistent(po: Order, iid: nat, side: Side, qty: int, prc: int)
    ensures qty > 0 ==>
      AddStep(true, po, iid, side, qty, prc).out !in {Rejected(InconsistentSide), Rejected(InconsistentPrc)}
    ensures CanStep(true, po, side, qty, prc).out !in {Rejected(InconsistentSide), Rejected(InconsistentPrc)}
    ensures AmdStep(true, po, side, qty, prc).out !in {Rejected(InconsistentSide), Rejected(InconsistentPrc)}
  {
  }

  /** In strict mode a cancel or amend on the wrong side poisons a live order. */
  lemma StrictSideMismatchPoisons(po: Order, side: Side, qty: int, prc: int)
    requires po.qty > 0 && po.canQty <= 0 && po.side != side
    ensures CanStep(false, po, side, qty, prc) == Step(Poison(po), Rejected(InconsistentSide))
    ensures AmdStep(false, po, side, qty, prc) == Step(Poison(po), Rejected(InconsistentSide))
  {
  }

  /** Only the new message gives the record a positive quantity. */
  lemma OnlyAddAssignsQty(tolerant: bool, po: Order, side: Side, qty: int, prc: int)
    ensures CanStep(tolerant, po, side, qty, prc).rec.qty in {po.qty, -1}
    ensures AmdStep(tolerant, po, side, qty, prc).rec.qty in {po.qty, -1}
  {
  }

  /** A second new message for a published order is a duplicate and changes nothing. */
  lemma SecondAddIsDuplicate(tolerant: bool, po: Order, iid: nat, side: Side, qty: int, prc: int,
                             iid2: nat, side2: Side, qty2: int, prc2: int)
    requires qty > 0 && qty2 > 0
    requires AddStep(tolerant, po, iid, side, qty, prc).out.Published?
    ensures var p := AddStep(tolerant, po, iid, side, qty, prc).rec;
      AddStep(tolerant, p, iid2, side2, qty2, prc2) == Step(p, Rejected(Duplicated))
  {
  }

  /**
   * A cancel arriving before its new message: the cancel is recorded silently,
   * then the new message publishes an add with the cancel recorded and nothing
   * booked, so the manager books `qty - canQty`; a new quantity below the
   * cancelled one poisons the record.
   */
  lemma {:induction false} CancelBeforeNew(tolerant: bool, id: nat, iid: nat, side: Side, canQty: int, qty: int, prc: int)
    requires canQty > 0 && qty > 0
    ensures var c := CanStep(tolerant, NewOrder(id), side, canQty, prc);
      c.out == Applied && c.rec.canQty == canQty && c.rec.qty == 0
    ensures var c := CanStep(tolerant, NewOrder(id), side, canQty, prc);
      var a := AddStep(tolerant, c.rec, iid, side, qty, prc);
      (qty >= canQty ==>
         a.out.Published? && a.rec.qty == qty && a.rec.canQty == canQty && a.rec.bookQty == 0)
      && (qty < canQty ==> a == Step(Poison(c.rec), Rejected(OverCan)))
  {
    var c := CanStep(tolerant, NewOrder(id), side, canQty, prc);
    assert c.rec == NewOrder(id).(side := side, prc := prc, canQty := canQty);
  }

  /**
   * An amend arriving before its new message records the amended quantity; a
   * following new message no smaller than it keeps that booked quantity, or books
   * the full quantity when the amend was to zero.
   */
  lemma {:induction false} AmendBeforeNew(tolerant: bool, id: nat, iid: nat, side: Side, amdQty: int, qty: int, prc: int)
    requires amdQty >= 0 && qty > 0
    ensures var m := AmdStep(tolerant, NewOrder(id), side, amdQty, prc);
      m.out == Applied && m.rec.bookQty == amdQty && m.rec.qty == 0
    ensures var m := AmdStep(tolerant, NewOrder(id), side, amdQty, prc);
      var a := AddStep(tolerant, m.rec, iid, side, qty, prc);
      (qty < amdQty ==> a == Step(Poison(m.rec), Rejected(OverAmd)))
      && (qty >= amdQty ==>
            a.out.Published? && a.rec.qty == qty && a.rec.bookQty == (if amdQty == 0 then qty else amdQty))
  {
    var m := AmdStep(tolerant, NewOrder(id), side, amdQty, prc);
    assert m.rec == NewOrder(id).(side := side, prc := prc, bookQty := amdQty);
  }

  /** The record after a run of amends of the same side and price. */
  function AmendAll(tolerant: bool, po: Order, side: Side, qtys: seq<int>, prc: int): (r: Order)
    ensures r.qty == po.qty || r.qty == -1
    decreases |qtys|
  {
    if qtys == [] then po else AmendAll(tolerant, AmdStep(tolerant, po, side, qtys[0], prc).rec, side, qtys[1..], prc)
  }

  /** A run of positive amends never raises a positive booked quantity, nor empties it. */
  lemma {:induction false} AmendsNeverRaise(tolerant: bool, po: Order, side: Side, qtys: seq<int>, prc: int)
    requires po.bookQty > 0
    requires forall k | 0 <= k < |qtys| :: qtys[k] > 0
    ensures 0 < AmendAll(tolerant, po, side, qtys, prc).bookQty <= po.bookQty
    decreases |qtys|
  {
    if qtys != [] {
      var p := AmdStep(tolerant, po, side, qtys[0], prc).rec;
      assert 0 < p.bookQty <= po.bookQty;
      AmendsNeverRaise(tolerant, p, side, qtys[1..], prc);
    }
  }

  /**
   * Once an amend to zero has emptied the booked quantity, the next amend sets
   * it outright, so it can rise above what was booked before.
   */
  lemma AmendAfterEmptyingSetsBook(tolerant: bool, po: Order, side: Side, qty: int, prc: int)
    requires po.bookQty > 0 && po.qty >= 0 && VerifyBooked(tolerant, po, side, prc) == Pass
    ensures var p := AmdStep(tolerant, po, side, 0, prc).rec;
      p.bookQty == 0 && AmdStep(tolerant, p, side, qty, prc).rec.bookQty == qty
  {
  }
}
