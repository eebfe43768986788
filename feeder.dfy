/**
 * `feeder_file`: turns each line of a market-data file into a notification.
 * It keeps the orders and the trades in two arenas with 32-bit ids, reconciles
 * each order message with the order's record as the lifecycle steps say, and
 * numbers trades from 1.
 *
 * Each handler takes the line, the cursor just past the action field, and the
 * price the price parser reads from the rest of the line (a tick count, or -1
 * when the field is malformed).
 */
module Feeder {
  import opened Records
  import opened Arena
  import opened Fields
  import opened Lifecycle

  /** The fields of a new message after its action. */
  datatype NewMsg = NewMsg(iid: nat, id: nat, side: Side, qty: nat)

  /** The fields of a cancel or amend message after its action. */
  datatype OrderMsg = OrderMsg(id: nat, side: Side, qty: nat)

  /** The fields of an execution message after its action. */
  datatype ExeMsg = ExeMsg(iid: nat, qty: nat)

  /** A message's fields, or the error the first bad field is logged with. */
  datatype Parsed<T> = Parsed(msg: T) | Malformed(error: Error)

  /**
   * `id, side, qty,`: the id must be positive, the side known, and the
   * quantity at least `minQty` (1 for a cancel, 0 for an amend).
   */
  function ParseOrderMsg(s: seq<char>, i: nat, minQty: nat): (r: Parsed<OrderMsg>)
    ensures r.Parsed? ==> 0 < r.msg.id < ID_BOUND && r.msg.side != SideMax && minQty <= r.msg.qty < ID_BOUND
    ensures r.Malformed? ==> r.error in {IllegalId, IllegalSide, IllegalQty}
  {
    var (id, j) := UintField(s, i, ',');
    if id <= 0 then Malformed(IllegalId) else
    var (side, k) := SideField(s, j);
    if side == SideMax then Malformed(IllegalSide) else
    var (qty, _) := UintField(s, k, ',');
    if qty < minQty then Malformed(IllegalQty) else
    Parsed(OrderMsg(id, side, qty))
  }

  /** `iid, id, side, qty,` of a new message: every number positive, the side known. */
  function ParseNew(s: seq<char>, i: nat): (r: Parsed<NewMsg>)
    ensures r.Parsed? ==> 0 < r.msg.iid < ID_BOUND && 0 < r.msg.id < ID_BOUND
    ensures r.Parsed? ==> r.msg.side != SideMax && 0 < r.msg.qty < ID_BOUND
  {
    var (iid, j) := UintField(s, i, ',');
    if iid <= 0 then Malformed(IllegalIid) else
    match ParseOrderMsg(s, j, 1)
    case Malformed(e) => Malformed(e)
    case Parsed(m) => Parsed(NewMsg(iid, m.id, m.side, m.qty))
  }

  /** `iid, qty,` of an execution message: both positive. */
  function ParseExe(s: seq<char>, i: nat): (r: Parsed<ExeMsg>)
    ensures r.Parsed? ==> 0 < r.msg.iid < ID_BOUND && 0 < r.msg.qty < ID_BOUND
    ensures r.Malformed? ==> r.error in {IllegalIid, IllegalQty}
  {
    var (iid, j) := UintField(s, i, ',');
    if iid <= 0 then Malformed(IllegalIid) else
    var (qty, _) := UintField(s, j, ',');
    if qty <= 0 then Malformed(IllegalQty) else
    Parsed(ExeMsg(iid, qty))
  }

  /** An amend accepts a zero quantity where a cancel rejects it. */
  lemma AmendAcceptsZeroQty(s: seq<char>, i: nat)
    requires ParseOrderMsg(s, i, 0).Parsed? && ParseOrderMsg(s, i, 0).msg.qty == 0
    ensures ParseOrderMsg(s, i, 1) == Malformed(IllegalQty)
  {
  }

  /** Otherwise cancel and amend fields parse alike. */
  lemma CancelAndAmendFieldsAgree(s: seq<char>, i: nat)
    requires !(ParseOrderMsg(s, i, 0).Parsed? && ParseOrderMsg(s, i, 0).msg.qty == 0)
    ensures ParseOrderMsg(s, i, 1) == ParseOrderMsg(s, i, 0)
  {
  }

  /** `std::min`. */
  function Min(a: int, b: int): int {
    if b < a then b else a
  }

  /** The record `retrieve` hands out for a cell: the live record, or a fresh one. */
  function Retrieved(cell: Order, id: nat): Order {
    if cell.id != INVALID_ID then cell else NewOrder(id)
  }

  class FeederFile {
    const tolerant: bool
    /** `_tid`: the id the next trade gets. */
    var tid: nat
    const orders: Container<Order>
    const trades: Container<Trade>

    /** Both arenas use 32-bit ids and the records' own sentinel, constructor and destructor. */
    ghost predicate Valid()
      reads this, orders, trades
    {
      && orders.Valid() && trades.Valid()
      && orders.q == 8 && trades.q == 8
      && orders.blank == DefaultOrder() && trades.blank == DefaultTrade()
      && (forall o: Order {:trigger orders.idOf(o)} :: orders.idOf(o) == o.id)
      && (forall id: nat {:trigger orders.make(id)} :: orders.make(id) == NewOrder(id))
      && (forall o: Order {:trigger orders.destroy(o)} :: orders.destroy(o) == DestroyOrder(o))
      && (forall t: Trade {:trigger trades.idOf(t)} :: trades.idOf(t) == t.id)
      && (forall id: nat {:trigger trades.make(id)} :: trades.make(id) == NewTrade(id))
      && tid < ID_BOUND
    }

    /** Both arenas start empty and the first trade id is 1. */
    constructor (tolerant: bool)
      ensures Valid() && fresh(orders) && fresh(trades)
      ensures this.tolerant == tolerant && tid == 1
      ensures forall id :: orders.Get(id) == DefaultOrder()
      ensures forall id :: trades.Get(id) == DefaultTrade()
    {
      ThirtyTwoBitIds();
      this.tolerant := tolerant;
      tid := 1;
      orders := new Container(8, DefaultOrder(), (o: Order) => o.id, (id: nat) => NewOrder(id), DestroyOrder);
      trades := new Container(8, DefaultTrade(), (t: Trade) => t.id, (id: nat) => NewTrade(id), DestroyTrade);
    }

    /** Every order other than `id` is as it was. */
    twostate predicate OtherOrdersUnchanged(id: nat)
      reads orders
    {
      forall other :: other != id ==> orders.Get(other) == old(orders.Get(other))
    }

    /**
     * The order `id` has been through `step`: a crash when `id` is outside the
     * arena, and otherwise the step's record is written back and its outcome
     * returned. No other order changes.
     */
    twostate predicate Written(id: nat, step: Step, out: Outcome)
      reads orders
    {
      && (out == Crash <==> !Addressable(8, id))
      && (out != Crash ==> orders.Get(id) == step.rec && out == step.out)
      && (out == Crash ==> orders.Get(id) == old(orders.Get(id)))
      && OtherOrdersUnchanged(id)
    }

    /** The new message's step on the record `retrieve` hands out for its id. */
    twostate predicate Added(m: NewMsg, prc: int, out: Outcome)
      reads this, orders
    {
      m.qty > 0 ==> Written(m.id, AddStep(tolerant, Retrieved(old(orders.Get(m.id)), m.id), m.iid, m.side, m.qty, prc), out)
    }

    /** `verify_booked_order` on a record, returning the record as it leaves it. */
    method VerifyBookedOrder(po: Order, side: Side, prc: int) returns (v: Verdict, r: Order)
      ensures v == VerifyBooked(tolerant, po, side, prc)
      ensures v == Pass ==> r == po
      ensures v.Mismatch? ==> r == Poison(po)
    {
      if tolerant {
        return Pass, po;
      }
      if po.side != side {
        return Mismatch(InconsistentSide), po.(qty := -1);
      }
      if po.prc != prc {
        return Mismatch(InconsistentPrc), po.(qty := -1);
      }
      return Pass, po;
    }

    /** The arena facts the handlers rely on, from `Valid`. */
    lemma OrderLaws()
      requires Valid()
      ensures MaxId(orders.q) == INVALID_ID && MaxId(trades.q) == INVALID_ID
      ensures !Addressable(8, INVALID_ID)
      ensures forall id :: orders.Live(orders.Get(id)) <==> orders.Get(id).id != INVALID_ID
    {
      ThirtyTwoBitIds();
      SentinelNotAddressable(8);
    }

    /** The field extraction of `handle_add`, up to the price. */
    method ReadNew(s: seq<char>, i: nat) returns (r: Parsed<NewMsg>)
      ensures r == ParseNew(s, i)
    {
      var iid, j := ExtractUint(s, i, ',');
      if iid <= 0 {
        return Malformed(IllegalIid);
      }
      var m := ReadOrderMsg(s, j, 1);
      if m.Malformed? {
        return Malformed(m.error);
      }
      return Parsed(NewMsg(iid, m.msg.id, m.msg.side, m.msg.qty));
    }

    /** The field extraction of `handle_can` and `handle_amd`, up to the price. */
    method ReadOrderMsg(s: seq<char>, i: nat, minQty: nat) returns (r: Parsed<OrderMsg>)
      ensures r == ParseOrderMsg(s, i, minQty)
    {
      var id, j := ExtractUint(s, i, ',');
      if id <= 0 {
        return Malformed(IllegalId);
      }
      var side;
      side, j := ExtractSide(s, j);
      if side == SideMax {
        return Malformed(IllegalSide);
      }
      var qty;
      qty, j := ExtractUint(s, j, ',');
      if qty < minQty {
        return Malformed(IllegalQty);
      }
      return Parsed(OrderMsg(id, side, qty));
    }

    /**
     * `handle_add`. A malformed field is rejected with nothing changed; a
     * non-positive price removes the order's record; otherwise the record is
     * retrieved (created if empty) and goes through the new message's step.
     */
    method HandleAdd(s: seq<char>, i: nat, prc: int) returns (out: Outcome)
      requires Valid()
      modifies orders
      ensures Valid()
      ensures NewHandled(s, i, prc, out)
    {
      var r := ReadNew(s, i);
      if r.Malformed? {
        return Rejected(r.error);
      }
      var m := r.msg;
      if prc <= 0 {
        out := DropOrder(m.id);
      } else {
        out := AddOrder(m, prc);
      }
    }

    /** What handling a new message does to the orders. */
    twostate predicate NewHandled(s: seq<char>, i: nat, prc: int, out: Outcome)
      reads this, orders
    {
      match ParseNew(s, i)
      case Malformed(e) => out == Rejected(e) && orders.buckets == old(orders.buckets)
      case Parsed(m) => if prc <= 0 then Dropped(m.id, out) else Added(m, prc, out)
    }

    /** The order `id` has been removed for a bad price: `remove` destroys a live record. */
    twostate predicate Dropped(id: nat, out: Outcome)
      reads orders
    {
      && (out == Crash <==> old(orders.FindFaults(id)))
      && (out != Crash ==> out == Rejected(IllegalPrc))
      && (out != Crash && old(orders.Get(id)).id != INVALID_ID ==> orders.Get(id) == DestroyOrder(old(orders.Get(id))))
      && (out == Crash || old(orders.Get(id)).id == INVALID_ID ==> orders.Get(id) == old(orders.Get(id)))
      && OtherOrdersUnchanged(id)
    }

    /** The illegal-price path of `handle_add`: the order's record is removed. */
    method DropOrder(id: nat) returns (out: Outcome)
      requires Valid() && id < ID_BOUND
      modifies orders
      ensures Valid()
      ensures Dropped(id, out)
    {
      OrderLaws();
      var ok := orders.Remove(id);
      return if ok then Rejected(IllegalPrc) else Crash;
    }

    /** The record half of `handle_add`, for a well-formed message with a positive price. */
    method AddOrder(m: NewMsg, prc: int) returns (out: Outcome)
      requires Valid() && 0 < m.id < ID_BOUND && m.qty > 0 && prc > 0
      modifies orders
      ensures Valid()
      ensures Added(m, prc, out)
    {
      OrderLaws();
      var h := orders.Retrieve(m.id);
      if !h.Item? {
        return Crash;
      }
      var step := AddRecord(h.rec, m.iid, m.side, m.qty, prc);
      orders.Put(m.id, step.rec);
      out := step.out;
    }

    /**
     * The checks and field updates `handle_add` makes on the order record it
     * retrieved, in the source's order.
     */
    method AddRecord(po: Order, iid: nat, side: Side, qty: int, prc: int) returns (r: Step)
      requires qty > 0
      ensures r == AddStep(tolerant, po, iid, side, qty, prc)
    {
      if po.qty > 0 {
        return Step(po, Rejected(Duplicated));
      } else if po.qty < 0 {
        return Step(po, Rejected(Corrupted));
      }
      if po.canQty > qty {
        return Step(po.(qty := -1), Rejected(OverCan));
      }
      if po.bookQty > qty {
        return Step(po.(qty := -1), Rejected(OverAmd));
      }
      var p := po.(iid := iid, qty := qty);
      if p.bookQty == 0 && p.canQty == 0 {
        p := p.(side := side, prc := prc, bookQty := qty);
      }
      var v;
      v, p := VerifyBookedOrder(p, side, prc);
      if v.Mismatch? {
        return Step(p, Rejected(v.error));
      }
      return Step(p, Published(AddEvent(p)));
    }

    /** The cancel message's step on the record `retrieve` hands out for its id. */
    twostate predicate Cancelled(m: OrderMsg, prc: int, out: Outcome)
      reads this, orders
    {
      Written(m.id, CanStep(tolerant, Retrieved(old(orders.Get(m.id)), m.id), m.side, m.qty, prc), out)
    }

    /** What handling a cancel message does to the orders. */
    twostate predicate CanHandled(s: seq<char>, i: nat, prc: int, out: Outcome)
      reads this, orders
    {
      match ParseOrderMsg(s, i, 1)
      case Malformed(e) => out == Rejected(e) && orders.buckets == old(orders.buckets)
      case Parsed(m) =>
        if prc <= 0 then out == Rejected(IllegalPrc) && orders.buckets == old(orders.buckets)
        else Cancelled(m, prc, out)
    }

    /**
     * `handle_can`. A malformed field or a non-positive price is rejected with
     * nothing changed; otherwise the record is retrieved (created if empty)
     * and goes through the cancel message's step.
     */
    method HandleCan(s: seq<char>, i: nat, prc: int) returns (out: Outcome)
      requires Valid()
      modifies orders
      ensures Valid()
      ensures CanHandled(s, i, prc, out)
    {
      var r := ReadOrderMsg(s, i, 1);
      if r.Malformed? {
        return Rejected(r.error);
      }
      if prc <= 0 {
        return Rejected(IllegalPrc);
      }
      out := CancelOrder(r.msg, prc);
    }

    /** The record half of `handle_can`. */
    method CancelOrder(m: OrderMsg, prc: int) returns (out: Outcome)
      requires Valid() && m.id < ID_BOUND
      modifies orders
      ensures Valid()
      ensures Cancelled(m, prc, out)
    {
      OrderLaws();
      var h := orders.Retrieve(m.id);
      if !h.Item? {
        return Crash;
      }
      var step := CancelRecord(h.rec, m.side, m.qty, prc);
      orders.Put(m.id, step.rec);
      out := step.out;
    }

    /** The checks and field updates `handle_can` makes on the order record it retrieved. */
    method CancelRecord(po: Order, side: Side, qty: int, prc: int) returns (r: Step)
      ensures r == CanStep(tolerant, po, side, qty, prc)
    {
      if po.canQty > 0 {
        return Step(po, Rejected(DuplicatedCan));
      }
      if po.qty < 0 {
        return Step(po, Rejected(Corrupted));
      }
      var p := po;
      var v;
      if p.qty == 0 {
        if p.bookQty == 0 && p.canQty == 0 {
          p := p.(side := side, prc := prc);
        }
        v, p := VerifyBookedOrder(p, side, prc);
        if v.Mismatch? {
          return Step(p, Rejected(v.error));
        }
        return Step(p.(canQty := qty), Applied);
      }
      v, p := VerifyBookedOrder(p, side, prc);
      if v.Mismatch? {
        return Step(p, Rejected(v.error));
      }
      p := p.(canQty := qty);
      return Step(p, Published(CanEvent(p, qty)));
    }

    /** The amend message's step on the record `retrieve` hands out for its id. */
    twostate predicate Amended(m: OrderMsg, prc: int, out: Outcome)
      reads this, orders
    {
      Written(m.id, AmdStep(tolerant, Retrieved(old(orders.Get(m.id)), m.id), m.side, m.qty, prc), out)
    }

    /** What handling an amend message does to the orders. */
    twostate predicate AmdHandled(s: seq<char>, i: nat, prc: int, out: Outcome)
      reads this, orders
    {
      match ParseOrderMsg(s, i, 0)
      case Malformed(e) => out == Rejected(e) && orders.buckets == old(orders.buckets)
      case Parsed(m) =>
        if prc <= 0 then out == Rejected(IllegalPrc) && orders.buckets == old(orders.buckets)
        else Amended(m, prc, out)
    }

    /**
     * `handle_amd`. As `handle_can`, except that a zero quantity is accepted,
     * and the record goes through the amend message's step.
     */
    method HandleAmd(s: seq<char>, i: nat, prc: int) returns (out: Outcome)
      requires Valid()
      modifies orders
      ensures Valid()
      ensures AmdHandled(s, i, prc, out)
    {
      var r := ReadOrderMsg(s, i, 0);
      if r.Malformed? {
        return Rejected(r.error);
      }
      if prc <= 0 {
        return Rejected(IllegalPrc);
      }
      out := AmendOrder(r.msg, prc);
    }

    /** The record half of `handle_amd`. */
    method AmendOrder(m: OrderMsg, prc: int) returns (out: Outcome)
      requires Valid() && m.id < ID_BOUND
      modifies orders
      ensures Valid()
      ensures Amended(m, prc, out)
    {
      OrderLaws();
      var h := orders.Retrieve(m.id);
      if !h.Item? {
        return Crash;
      }
      var step := AmendRecord(h.rec, m.side, m.qty, prc);
      orders.Put(m.id, step.rec);
      out := step.out;
    }

    /** The checks and field updates `handle_amd` makes on the order record it retrieved. */
    method AmendRecord(po: Order, side: Side, qty: int, prc: int) returns (r: Step)
      ensures r == AmdStep(tolerant, po, side, qty, prc)
    {
      if po.qty < 0 {
        return Step(po, Rejected(Corrupted));
      }
      var p := po;
      var v;
      if p.qty == 0 {
        if p.bookQty == 0 && p.canQty == 0 {
          p := p.(side := side, prc := prc);
        }
        v, p := VerifyBookedOrder(p, side, prc);
        if v.Mismatch? {
          return Step(p, Rejected(v.error));
        }
        return Step(p.(bookQty := if p.bookQty > 0 then Min(qty, p.bookQty) else qty), Applied);
      }
      v, p := VerifyBookedOrder(p, side, prc);
      if v.Mismatch? {
        return Step(p, Rejected(v.error));
      }
      var oldBook := p.bookQty;
      p := p.(bookQty := if p.bookQty > 0 then Min(qty, p.bookQty) else qty);
      return Step(p, Published(AmdEvent(p, oldBook)));
    }

    /**
     * The field extraction of `handle_exe`, up to the price: the loop form of
     * `ParseExe`, which `HandleExe` is stated with and this method computes.
     */
    method ReadExe(s: seq<char>, i: nat) returns (r: Parsed<ExeMsg>)
      ensures r == ParseExe(s, i)
    {
      var iid, j := ExtractUint(s, i, ',');
      if iid <= 0 {
        return Malformed(IllegalIid);
      }
      var qty;
      qty, j := ExtractUint(s, j, ',');
      if qty <= 0 {
        return Malformed(IllegalQty);
      }
      return Parsed(ExeMsg(iid, qty));
    }

    /**
     * The trade `id` has been created for an execution: a crash when `id` is
     * outside the arena or its cell is taken, otherwise the trade with side MAX
     * is stored and published. No other trade changes.
     */
    twostate predicate Traded(id: nat, m: ExeMsg, prc: int, out: Outcome)
      reads trades
    {
      && (out == Crash <==> !Addressable(8, id) || old(trades.Get(id)).id != INVALID_ID)
      && (out != Crash ==> out == Published(ExeEvent(ExeTrade(id, m.iid, m.qty, prc))))
      && (out != Crash ==> trades.Get(id) == ExeTrade(id, m.iid, m.qty, prc))
      && (out == Crash ==> trades.Get(id) == old(trades.Get(id)))
      && (forall other :: other != id ==> trades.Get(other) == old(trades.Get(other)))
    }

    /**
     * What handling an execution message does: a well-formed one takes the
     * next trade id (the counter wraps at 2^32) and creates the trade there.
     */
    twostate predicate ExeHandled(s: seq<char>, i: nat, prc: int, out: Outcome)
      reads this, trades
    {
      match ParseExe(s, i)
      case Malformed(e) => out == Rejected(e) && tid == old(tid) && trades.buckets == old(trades.buckets)
      case Parsed(m) =>
        if prc <= 0 then out == Rejected(IllegalPrc) && tid == old(tid) && trades.buckets == old(trades.buckets)
        else tid == (old(tid) + 1) % ID_BOUND && Traded(old(tid), m, prc, out)
    }

    /** `handle_exe`. */
    method HandleExe(s: seq<char>, i: nat, prc: int) returns (out: Outcome)
      requires Valid()
      modifies this, trades
      ensures Valid()
      ensures ExeHandled(s, i, prc, out)
      ensures unchanged(orders)
    {
      // `ParseExe` is what `ReadExe` computes.
      var r := ParseExe(s, i);
      if r.Malformed? {
        return Rejected(r.error);
      }
      if prc <= 0 {
        return Rejected(IllegalPrc);
      }
      out := CreateTrade(r.msg, prc);
    }

    /** The record half of `handle_exe`: `_trades.create(_tid++)` and the trade's fields. */
    method CreateTrade(m: ExeMsg, prc: int) returns (out: Outcome)
      requires Valid()
      modifies this, trades
      ensures Valid()
      ensures tid == (old(tid) + 1) % ID_BOUND && Traded(old(tid), m, prc, out)
    {
      OrderLaws();
      var id := tid;
      tid := (tid + 1) % ID_BOUND;
      var h := trades.Create(id);
      if !h.Item? {
        return Crash;
      }
      var t := h.rec.(iid := m.iid, qty := m.qty, prc := prc, side := SideMax);
      trades.Put(id, t);
      return Published(ExeEvent(t));
    }

    /**
     * The dispatch on a line's action: a line has been read, and it is neither
     * empty nor a comment. An unknown action is logged and changes nothing.
     */
    method HandleLine(line: seq<char>, prc: int) returns (out: Outcome)
      requires Valid() && |line| > 0 && line[0] != '#'
      modifies this, orders, trades
      ensures Valid()
      ensures var (c, j) := ActField(line, 0);
        match ActionOf(c)
        case Insert => NewHandled(line, j, prc, out) && unchanged(this, trades)
        case Remove => CanHandled(line, j, prc, out) && unchanged(this, trades)
        case Amend => AmdHandled(line, j, prc, out) && unchanged(this, trades)
        case Match => ExeHandled(line, j, prc, out) && unchanged(orders)
        case ActionMax => out == Rejected(IllegalAct) && unchanged(this, orders, trades)
    {
      // `ActField` is what `ExtractAct` computes.
      var (c, j) := ActField(line, 0);
      match ActionOf(c)
      case Insert => out := HandleAdd(line, j, prc);
      case Remove => out := HandleCan(line, j, prc);
      case Amend => out := HandleAmd(line, j, prc);
      case Match => out := HandleExe(line, j, prc);
      case ActionMax => out := Rejected(IllegalAct);
    }
  }
}
