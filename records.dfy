/**
 * The plain records of the reference layer: orders, trades, their sentinel
 * ids, default values, constructors and destructors, and the action and side
 * enumerations of the feed.
 */
module Records {

  /** Every id type here is a 32-bit unsigned integer; ids range over [0, ID_BOUND). */
  const ID_BOUND: nat := 0x1_0000_0000

  /** `(id_type)-1`: the sentinel marking a record slot that holds no record. */
  const INVALID_ID: nat := 0xFFFF_FFFF

  /** The order side. `SideMax` is the "unknown side" value returned by the side parser. */
  datatype Side = Buy | Sell | SideMax

  /** The underlying integer of each side. */
  function SideCode(s: Side): (c: nat)
    ensures c <= 2
    ensures SideOf(c) == s
  {
    match s
    case Buy => 0
    case Sell => 1
    case SideMax => 2
  }

  /** The side whose underlying integer is `c`; every value past `sell` reads as MAX. */
  function SideOf(c: nat): Side {
    if c == 0 then Buy else if c == 1 then Sell else SideMax
  }

  /** The four actions of the feed, and MAX, the "no action" value. */
  datatype Action = Insert | Remove | Amend | Match | ActionMax

  /** The character each action is written as in the feed. */
  function ActionCode(a: Action): (c: char)
    ensures ActionOf(c) == a
    ensures c in {'N', 'R', 'M', 'X', 'Z'}
  {
    match a
    case Insert => 'N'
    case Remove => 'R'
    case Amend => 'M'
    case Match => 'X'
    case ActionMax => 'Z'
  }

  /**
   * The action a code selects in the line dispatcher: the four named codes
   * select their action, every other code takes the dispatcher's default
   * branch, exactly as MAX does.
   */
  function ActionOf(c: char): Action {
    if c == 'N' then Insert
    else if c == 'R' then Remove
    else if c == 'M' then Amend
    else if c == 'X' then Match
    else ActionMax
  }

  /**
   * An order record. `qty` is the order's total quantity (0 while no new
   * message has been seen, -1 once the record is poisoned), `bookQty` the
   * quantity currently booked, `canQty` the quantity cancelled. Prices are
   * integer ticks.
   */
  datatype Order = Order(iid: nat, id: nat, side: Side, prc: int, qty: int, bookQty: int, canQty: int)

  /** A trade record. Trades do not point at a resting order. */
  datatype Trade = Trade(iid: nat, oid: nat, id: nat, side: Side, prc: int, qty: int)

  /**
   * `order()`: the default order, which marks an empty arena cell. The fields
   * without a default initialiser (instrument, side, price) are modelled as zero
   * and `Buy`.
   */
  function DefaultOrder(): (o: Order)
    ensures o.id == INVALID_ID && o.qty == 0 && o.bookQty == 0 && o.canQty == 0
  {
    Order(0, INVALID_ID, Buy, 0, 0, 0, 0)
  }

  /** `order(id)`: a fresh order carrying `id` with all three counters at zero. */
  function NewOrder(id: nat): (o: Order)
    ensures o.id == id && o.qty == 0 && o.bookQty == 0 && o.canQty == 0
    ensures o == DefaultOrder().(id := id)
  {
    Order(0, id, Buy, 0, 0, 0, 0)
  }

  /**
   * `~order()`: the destructor resets the id to the sentinel and the three
   * counters to zero; instrument, side and price keep what they held.
   */
  function DestroyOrder(o: Order): (r: Order)
    ensures r.id == INVALID_ID && r.qty == 0 && r.bookQty == 0 && r.canQty == 0
    ensures r.iid == o.iid && r.side == o.side && r.prc == o.prc
  {
    o.(id := INVALID_ID, qty := 0, bookQty := 0, canQty := 0)
  }

  /** `trade()`: the default trade, marking an empty arena cell. */
  function DefaultTrade(): (t: Trade)
    ensures t.id == INVALID_ID
  {
    Trade(0, 0, INVALID_ID, SideMax, 0, 0)
  }

  /** `trade(id)`: a trade carrying `id`; its other fields are modelled as the defaults. */
  function NewTrade(id: nat): (t: Trade)
    ensures t.id == id
    ensures t == DefaultTrade().(id := id)
  {
    Trade(0, 0, id, SideMax, 0, 0)
  }

  /** `~trade()`: only the id is reset to the sentinel. */
  function DestroyTrade(t: Trade): (r: Trade)
    ensures r.id == INVALID_ID
    ensures r == t.(id := INVALID_ID)
  {
    t.(id := INVALID_ID)
  }
}
