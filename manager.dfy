/**
 * `order_book::manager`: receives the lifecycle notifications, forwards each
 * to its instrument's book with the right quantity delta, and decides when a
 * book is checked and its snapshot refreshed.
 */
module Managers {
  import opened Records
  import opened Arena
  import opened Levels
  import opened Markets
  import opened Books

  /** `order_book::instrument`: an id with its book and market; the default one owns neither. */
  datatype Instrument = Instrument(id: nat, book: Book?, market: Market?)

  function InstrumentId(x: Instrument): nat {
    x.id
  }

  /** The instrument a cell holds before its book and market are built. */
  function Unbuilt(id: nat): Instrument {
    Instrument(id, null, null)
  }

  /** `~instrument`: the cell returns to the default instrument. */
  function Dismantled(x: Instrument): Instrument {
    Unbuilt(INVALID_ID)
  }

  /** What `update` did. `NotAsked`: the notification does not run `update`. */
  datatype Refresh = NotAsked | Pending | Complaint | Crossing | Published

  /** The manager's reaction to one notification. */
  datatype Reaction =
    | Crashed                  // a failed `assert`, or `at()` out of range
    | UnknownInstrument        // an execution for an instrument never seen
    | Counted(times: int, refresh: Refresh)

  /** A market as a value: its rows and its last execution. */
  datatype MarketState = MarketState(rows: seq<Level>, lastQty: int, lastPrc: int)

  ghost function MarketValue(m: Market): MarketState
    reads m, m.data
  {
    MarketState(m.data[..], m.lastQty, m.lastPrc)
  }

  /** A freshly constructed market. */
  function EmptyMarket(maxLev: nat): (m: MarketState)
    ensures |m.rows| == maxLev && forall i | 0 <= i < maxLev :: m.rows[i] == EmptyLevel
  {
    MarketState(seq(maxLev, _ => EmptyLevel), 0, 0)
  }

  /**
   * `update(times, pinst)`: nothing before `interval` events; then
   * `verify(tolerance / 2, maxLev)` — the depth passed as the tolerance and
   * the halved tolerance as the depth — and `try_extract` only if that passes.
   */
  function UpdateVerdict(times: int, st: BookState, interval: int, tolerance: int, maxLev: int): (r: Refresh)
    requires tolerance >= 0
    ensures r != NotAsked
    ensures r == Pending <==> times < interval
    ensures r == Complaint <==> times >= interval && st.times > maxLev && Complains(st.bids, st.asks, tolerance / 2)
    ensures r == Published ==> !Crossed(st.bids, st.asks)
  {
    if times < interval then Pending
    else if !(st.times <= maxLev || !Complains(st.bids, st.asks, tolerance / 2)) then Complaint
    else if Crossed(st.bids, st.asks) then Crossing
    else Published
  }

  /** The book after `update`: a complaint or a refresh resets the count. */
  function Refreshed(st: BookState, r: Refresh): BookState {
    if r == Complaint || r == Published then st.(times := 0) else st
  }

  /** The market a refresh of book `st` writes: its best levels and its last execution. */
  function RefreshedMarket(st: BookState, maxLev: nat): MarketState {
    MarketState(Snapshot(st.bids, st.asks, maxLev), st.lastQty, st.lastPrc)
  }

  /** The verdict had the arguments been passed in `verify`'s own order. */
  function InOrderVerdict(times: int, st: BookState, interval: int, tolerance: int, maxLev: int): Refresh
    requires tolerance >= 0
  {
    if times < interval then Pending
    else if !(st.times <= tolerance / 2 || !Complains(st.bids, st.asks, maxLev)) then Complaint
    else if Crossed(st.bids, st.asks) then Crossing
    else Published
  }

  /**
   * With the swapped arguments the scan runs only once more events than the
   * depth have been counted, and then covers `tolerance / 2` bid levels.
   */
  lemma SwappedVerifySkipsShallowCounts(times: int, st: BookState, interval: int, tolerance: int, maxLev: int)
    requires tolerance >= 0 && st.times <= maxLev
    ensures UpdateVerdict(times, st, interval, tolerance, maxLev) != Complaint
  {
  }

  /** A book holding a negative bid level is published under the swapped order and refused under the in-order one. */
  lemma SwappedVerifyPublishesBrokenBook()
    ensures var st := BookState([Entry(100, -1)], [], 0, 0, 3);
      && UpdateVerdict(3, st, 1, 4, 5) == Published
      && InOrderVerdict(3, st, 1, 4, 5) == Complaint
  {
    var st := BookState([Entry(100, -1)], [], 0, 0, 3);
    assert Positives(st.bids) == [] by {
      assert st.bids[..0] == [];
    }
    assert st.bids[..Min(5, 1)][0] == Entry(100, -1);
  }

  /** A notification as the book sees it: which mutator, and its arguments. */
  datatype BookOp =
    | AddOp(side: Side, qty: int, prc: int)
    | CanOp(side: Side, qty: int, prc: int)
    | AmdOp(side: Side, qty: int, prc: int)
    | ExeOp(qty: int, prc: int)

  /** The book after the mutator a notification names. */
  function Apply(st: BookState, op: BookOp): (r: BookState)
    requires Wellformed(st)
    ensures Wellformed(r) && r.times == st.times + 1
  {
    match op
    case AddOp(side, qty, prc) => BookAdd(st, side, qty, prc)
    case CanOp(side, qty, prc) => BookCan(st, side, qty, prc)
    case AmdOp(side, qty, prc) => BookAmd(st, side, qty, prc)
    case ExeOp(qty, prc) => BookExe(st, qty, prc)
  }

  class Manager {
    const maxLev: nat
    const interval: int
    const tolerance: int
    const instruments: Container<Instrument>
    /** The books, markets and market rows of the built instruments, each with the instrument it belongs to. */
    ghost var owner: map<object, nat>

    /** A built instrument: its book and market exist, carry its id, belong to it and are well formed. */
    ghost predicate Built(x: Instrument)
      reads this, owner.Keys
    {
      && x.book != null && x.market != null
      && x.book in owner && owner[x.book] == x.id
      && x.market in owner && owner[x.market] == x.id
      && x.market.data in owner && owner[x.market.data] == x.id
      && x.book.iid == x.id && x.market.iid == x.id
      && x.market.MaxLev() == maxLev
      && x.book.Valid()
    }

    ghost predicate Valid()
      reads this, instruments, owner.Keys
    {
      && Configured()
      && (forall id: nat | id <= MaxId(8) && instruments.Live(instruments.Get(id)) ::
            Built(instruments.Get(id)))
    }

    /** The book of instrument `id`, or an empty one if there is none yet. */
    ghost function BookOf(id: nat): BookState
      reads this, instruments, owner.Keys
    {
      var x := instruments.Get(id);
      if instruments.Live(x) && x.book != null && x.book in owner then x.book.State() else EmptyBook
    }

    /** The market of instrument `id`, or an empty one if there is none yet. */
    ghost function MarketOf(id: nat): MarketState
      reads this, instruments, owner.Keys
    {
      var x := instruments.Get(id);
      if instruments.Live(x) && x.market != null && x.market in owner && x.market.data in owner
      then MarketValue(x.market)
      else EmptyMarket(maxLev)
    }

    /** The range checks on the configuration become the constructor's preconditions. */
    constructor (maxLev: nat, interval: int, tolerance: int)
      requires 1 <= maxLev <= 10 && interval > 0 && tolerance >= 0
      ensures Valid()
      ensures this.maxLev == maxLev && this.interval == interval && this.tolerance == tolerance
      ensures forall id: nat | id <= MaxId(8) :: BookOf(id) == EmptyBook && MarketOf(id) == EmptyMarket(maxLev)
    {
      this.maxLev := maxLev;
      this.interval := interval;
      this.tolerance := tolerance;
      ThirtyTwoBitIds();
      instruments := new Container<Instrument>(8, Unbuilt(INVALID_ID), InstrumentId, Unbuilt, Dismantled);
      owner := map[];
    }

    ghost predicate Configured()
      reads this, instruments
    {
      && 1 <= maxLev <= 10 && interval > 0 && tolerance >= 0
      && instruments.Valid() && instruments.q == 8
      && instruments.blank == Unbuilt(INVALID_ID)
      && instruments.idOf == InstrumentId
      && instruments.make == Unbuilt
      && this !in owner && instruments !in owner
    }

    /** Every live instrument but `iid` is built. */
    ghost predicate BuiltBut(iid: nat)
      reads this, instruments, owner.Keys
    {
      forall id: nat | id <= MaxId(8) && id != iid && instruments.Live(instruments.Get(id)) ::
        Built(instruments.Get(id))
    }

    /** The constructor `instrument(id, max_lev)`: a new empty book and a new empty market of `maxLev` rows. */
    method Construct(iid: nat) returns (x: Instrument)
      requires Configured()
      ensures x.id == iid && x.book != null && x.market != null
      ensures fresh(x.book) && fresh(x.market) && fresh(x.market.data)
      ensures x.book.iid == iid && x.market.iid == iid && x.market.MaxLev() == maxLev
      ensures x.book.Valid() && x.book.State() == EmptyBook
      ensures MarketValue(x.market) == EmptyMarket(maxLev)
    {
      var b := new Book(iid);
      var m := new Market(iid, maxLev);
      x := Instrument(iid, b, m);
      forall i | 0 <= i < maxLev
        ensures m.data[i] == EmptyLevel
      {
        assert m.Find(i) == EmptyLevel;
      }
      assert m.data[..] == EmptyMarket(maxLev).rows;
    }

    /** Records the objects of a newly constructed instrument as belonging to it. */
    method Claim(iid: nat, x: Instrument)
      requires Configured() && BuiltBut(iid)
      requires x.id == iid && x.book != null && x.market != null
      requires x.book !in owner && x.market !in owner && x.market.data !in owner
      requires x.book.iid == iid && x.market.iid == iid && x.market.MaxLev() == maxLev && x.book.Valid()
      modifies this
      ensures Configured() && BuiltBut(iid) && Built(x)
      ensures owner.Keys == old(owner.Keys) + {x.book, x.market, x.market.data}
      ensures forall o | o in old(owner) :: o in owner && owner[o] == old(owner[o])
    {
      owner := owner[x.book := iid][x.market := iid][x.market.data := iid];
      forall id: nat | id <= MaxId(8) && id != iid && instruments.Live(instruments.Get(id))
        ensures Built(instruments.Get(id))
      {
        assert old(Built(instruments.Get(id)));
      }
    }

    /** Places a newly constructed instrument in its cell and records what it owns. */
    method Install(iid: nat, x: Instrument)
      requires Configured() && BuiltBut(iid)
      requires iid <= MaxId(8) && Addressable(8, iid) && instruments.Allocated(iid)
      requires instruments.Get(iid) == Unbuilt(iid)
      requires x.id == iid && x.book != null && x.market != null
      requires x.book !in owner && x.market !in owner && x.market.data !in owner
      requires x.book.iid == iid && x.market.iid == iid && x.market.MaxLev() == maxLev && x.book.Valid()
      modifies this, instruments
      ensures Valid()
      ensures instruments.Get(iid) == x && instruments.Live(x) && Built(x)
      ensures forall id | id != iid :: instruments.Get(id) == old(instruments.Get(id))
      ensures owner.Keys == old(owner.Keys) + {x.book, x.market, x.market.data}
      ensures forall o | o in old(owner) :: o in owner && owner[o] == old(owner[o])
    {
      Claim(iid, x);
      label Claimed:
      instruments.Put(iid, x);
      assert BuiltBut(iid) by {
        forall id: nat | id <= MaxId(8) && id != iid && instruments.Live(instruments.Get(id))
          ensures Built(instruments.Get(id))
        {
          var y := instruments.Get(id);
          assert y == old@Claimed(instruments.Get(id));
          assert old@Claimed(Built(y));
        }
      }
      ValidFromParts(iid);
    }

    /** `instrument(id, max_lev)` run on a freshly retrieved cell. */
    method Build(iid: nat) returns (x: Instrument)
      requires Configured() && BuiltBut(iid)
      requires iid <= MaxId(8) && Addressable(8, iid) && instruments.Allocated(iid)
      requires instruments.Get(iid) == Unbuilt(iid)
      modifies this, instruments
      ensures Valid()
      ensures x == instruments.Get(iid) && instruments.Live(x) && Built(x)
      ensures BookOf(iid) == EmptyBook && MarketOf(iid) == EmptyMarket(maxLev)
      ensures forall id | id != iid :: instruments.Get(id) == old(instruments.Get(id))
      ensures fresh(x.book) && fresh(x.market) && fresh(x.market.data)
      ensures owner.Keys == old(owner.Keys) + {x.book, x.market, x.market.data}
      ensures forall o | o in old(owner) :: o in owner && owner[o] == old(owner[o])
    {
      x := Construct(iid);
      Install(iid, x);
    }

    /**
     * The container's `retrieve` on the manager's table: a cell that held no
     * instrument now holds the unbuilt one, and no other cell changes.
     */
    method Fetch(iid: nat) returns (h: Handle<Instrument>)
      requires Valid() && iid < ID_BOUND
      modifies instruments
      ensures Configured() && BuiltBut(iid)
      ensures h.Null? <==> iid == INVALID_ID
      ensures h.Fault? <==> iid != INVALID_ID && !Addressable(8, iid)
      ensures !h.Item? ==> instruments.Get(iid) == old(instruments.Get(iid))
      ensures h.Item? ==> h.rec == instruments.Get(iid) && iid <= MaxId(8) && Addressable(8, iid) && instruments.Allocated(iid)
      ensures h.Item? && old(instruments.Live(instruments.Get(iid))) ==> h.rec == old(instruments.Get(iid)) && Built(h.rec)
      ensures h.Item? && !old(instruments.Live(instruments.Get(iid))) ==> h.rec == Unbuilt(iid)
      ensures forall id | id != iid :: instruments.Get(id) == old(instruments.Get(id))
    {
      ThirtyTwoBitIds();
      h := instruments.Retrieve(iid);
      forall id: nat | id <= MaxId(8) && id != iid && instruments.Live(instruments.Get(id))
        ensures Built(instruments.Get(id))
      {
        assert instruments.Get(id) == old(instruments.Get(id));
      }
    }

    /**
     * `retrieve(iid, max_lev)`: the instrument, built with an empty book and
     * an empty market on first touch.
     */
    method Obtain(iid: nat) returns (h: Handle<Instrument>)
      requires Valid() && iid < ID_BOUND
      modifies this, instruments
      ensures Configured() && BuiltBut(iid)
      ensures instruments.Live(instruments.Get(iid)) ==> Built(instruments.Get(iid))
      ensures h.Null? <==> iid == INVALID_ID
      ensures h.Fault? <==> iid != INVALID_ID && !Addressable(8, iid)
      ensures h.Item? ==> h.rec == instruments.Get(iid) && instruments.Live(h.rec) && Built(h.rec)
      ensures BookOf(iid) == old(BookOf(iid)) && MarketOf(iid) == old(MarketOf(iid))
      ensures forall id | id != iid :: instruments.Get(id) == old(instruments.Get(id))
      ensures forall o | o in owner :: o in old(owner) || fresh(o)
      ensures forall o | o in old(owner) :: o in owner && owner[o] == old(owner[o])
    {
      ThirtyTwoBitIds();
      h := Fetch(iid);
      if h.Item? && h.rec.book == null {
        var x := Build(iid);
        h := Item(x);
      } else {
        assert owner == old(owner);
        assert instruments.Get(iid) == old(instruments.Get(iid));
      }
    }

    /** `Obtain`, which changes no other instrument. */
    method Acquire(iid: nat) returns (h: Handle<Instrument>)
      requires Valid() && iid < ID_BOUND
      modifies this, instruments
      ensures Valid()
      ensures h.Null? <==> iid == INVALID_ID
      ensures h.Fault? <==> iid != INVALID_ID && !Addressable(8, iid)
      ensures h.Item? ==> h.rec == instruments.Get(iid) && instruments.Live(h.rec) && Built(h.rec)
      ensures BookOf(iid) == old(BookOf(iid)) && MarketOf(iid) == old(MarketOf(iid))
      ensures forall id | id != iid :: instruments.Get(id) == old(instruments.Get(id))
      ensures forall o | o in owner :: o in old(owner) || fresh(o)
      ensures forall o | o in old(owner) :: o in owner && owner[o] == old(owner[o])
      ensures OthersUntouched(iid)
    {
      h := Obtain(iid);
      OthersKept(iid);
      ValidFromParts(iid);
    }

    /**
     * `update(times, pinst)`: the verdict on the book as the notification
     * left it; a complaint or a refresh resets the count, and only a refresh
     * writes the market.
     */
    method Update(times: int, x: Instrument) returns (r: Refresh)
      requires Configured() && Built(x)
      modifies x.book, x.market, x.market.data
      ensures x.book.Valid()
      ensures r == UpdateVerdict(times, old(x.book.State()), interval, tolerance, maxLev)
      ensures x.book.State() == Refreshed(old(x.book.State()), r)
      ensures MarketValue(x.market) == if r == Published then RefreshedMarket(old(x.book.State()), maxLev)
        else old(MarketValue(x.market))
    {
      if times < interval {
        return Pending;
      }
      var ok := x.book.Verify(tolerance / 2, maxLev);
      if !ok {
        return Complaint;
      }
      ok := x.book.TryExtract(x.market);
      if !ok {
        return Crossing;
      }
      return Published;
    }

    /** `find` returns the instrument: its fields lie in range and its cell is live. */
    ghost predicate Known(iid: nat)
      reads this, instruments
    {
      !instruments.FindFaults(iid) && instruments.Live(instruments.Get(iid))
    }

    /** Instrument `iid`'s book and market are as they were. */
    twostate predicate Untouched(iid: nat)
      reads this, instruments, owner.Keys
    {
      BookOf(iid) == old(BookOf(iid)) && MarketOf(iid) == old(MarketOf(iid))
    }

    /** Every instrument other than `iid` is as it was. */
    twostate predicate OthersUntouched(iid: nat)
      reads this, instruments, owner.Keys
    {
      forall id: nat | id != iid :: BookOf(id) == old(BookOf(id)) && MarketOf(id) == old(MarketOf(id))
    }

    /**
     * The notification reached the book of `iid`, leaving it in state `st`;
     * `update` ran if `asked`, and the book and market are as it left them,
     * the market being `before` unless it was refreshed.
     */
    ghost predicate Forwarded(iid: nat, st: BookState, asked: bool, r: Reaction, before: MarketState)
      requires tolerance >= 0
      reads this, instruments, owner.Keys
    {
      && r.Counted? && r.times == st.times
      && r.refresh == (if asked then UpdateVerdict(st.times, st, interval, tolerance, maxLev) else NotAsked)
      && BookOf(iid) == Refreshed(st, r.refresh)
      && MarketOf(iid) == if r.refresh == Published then RefreshedMarket(st, maxLev) else before
    }

    /** The book of any instrument is well formed. */
    lemma BookOfWellformed(id: nat)
      requires Valid()
      ensures Wellformed(BookOf(id))
    {
    }

    /** The invariant, from its part for the other instruments and its part for `iid`. */
    lemma ValidFromParts(iid: nat)
      requires Configured() && BuiltBut(iid)
      requires instruments.Live(instruments.Get(iid)) ==> Built(instruments.Get(iid))
      ensures Valid()
    {
    }

    /**
     * One instrument other than `iid`, when its cell is the same, no
     * ownership was revoked, and no object owned by another instrument than
     * `iid` changed: it is still built if it was, and as it was.
     */
    twostate lemma KeptOne(new iid: nat, new id: nat)
      requires id != iid && instruments.Get(id) == old(instruments.Get(id))
      requires old(instruments.Live(instruments.Get(id))) ==> old(Built(instruments.Get(id)))
      requires instruments.Live(instruments.Get(id)) ==> instruments.Get(id).id == id
      requires forall o | o in old(owner) :: o in owner && owner[o] == old(owner[o])
      requires forall o | o in old(owner) && old(owner[o]) != iid :: unchanged(o)
      ensures instruments.Live(instruments.Get(id)) ==> Built(instruments.Get(id))
      ensures BookOf(id) == old(BookOf(id)) && MarketOf(id) == old(MarketOf(id))
    {
      var y := instruments.Get(id);
      if instruments.Live(y) {
        assert unchanged(y.book) && unchanged(y.market) && unchanged(y.market.data);
      }
    }

    /** `KeptOne` for every instrument other than `iid`. */
    twostate lemma OthersKept(new iid: nat)
      requires old(Configured()) && old(BuiltBut(iid)) && Configured()
      requires forall id | id != iid :: instruments.Get(id) == old(instruments.Get(id))
      requires forall o | o in old(owner) :: o in owner && owner[o] == old(owner[o])
      requires forall o | o in old(owner) && old(owner[o]) != iid :: unchanged(o)
      ensures BuiltBut(iid) && OthersUntouched(iid)
    {
      forall id: nat | id != iid
        ensures instruments.Live(instruments.Get(id)) ==> Built(instruments.Get(id))
        ensures BookOf(id) == old(BookOf(id)) && MarketOf(id) == old(MarketOf(id))
      {
        if id <= MaxId(8) && instruments.Live(instruments.Get(id)) {
          instruments.LiveCellCarriesItsId(id);
        }
        KeptOne(iid, id);
      }
    }

    /** The book mutator `op` names. */
    static method Mutate(b: Book, op: BookOp) returns (t: int)
      requires b.Valid()
      modifies b
      ensures b.Valid() && b.State() == Apply(old(b.State()), op) && t == b.times
    {
      match op {
        case AddOp(side, qty, prc) => t := b.Add(side, qty, prc);
        case CanOp(side, qty, prc) => t := b.Can(side, qty, prc);
        case AmdOp(side, qty, prc) => t := b.Amd(side, qty, prc);
        case ExeOp(qty, prc) => t := b.Exe(qty, prc);
      }
    }

    /**
     * The part of each handler after the instrument is found: forward `op`
     * to the book, then run `update` if `asked`.
     */
    method Deliver(iid: nat, x: Instrument, op: BookOp, asked: bool, ghost book: BookState, ghost market: MarketState)
      returns (r: Reaction)
      requires Valid() && iid <= MaxId(8) && x == instruments.Get(iid) && instruments.Live(x)
      requires book == BookOf(iid) && market == MarketOf(iid)
      modifies x.book, x.market, x.market.data
      ensures Valid()
      ensures Forwarded(iid, Apply(book, op), asked, r, market)
      ensures OthersUntouched(iid)
    {
      assert Built(x);
      instruments.LiveCellCarriesItsId(iid);
      assert owner[x.book] == iid && owner[x.market] == iid && owner[x.market.data] == iid;
      ghost var st := Apply(x.book.State(), op);
      ghost var before := MarketValue(x.market);
      var t := Mutate(x.book, op);
      var f := NotAsked;
      if asked {
        f := Update(t, x);
      }
      assert x.book.State() == Refreshed(st, f);
      assert MarketValue(x.market) == if f == Published then RefreshedMarket(st, maxLev) else before;
      assert unchanged(this);
      OthersKept(iid);
      ValidFromParts(iid);
      r := Counted(t, f);
    }

    /**
     * `add(po)`: the instrument is retrieved (built on first touch), the
     * order's uncancelled quantity is added at its price, and `update` runs
     * when nothing had been cancelled.
     */
    method Add(po: Order) returns (r: Reaction)
      requires Valid() && po.iid < ID_BOUND
      requires po.qty > 0 && po.qty >= po.bookQty && po.qty >= po.canQty
      modifies this, instruments, owner.Keys
      ensures Valid()
      ensures r.Crashed? <==> po.iid == INVALID_ID || !Addressable(8, po.iid)
      ensures r.Crashed? ==> Untouched(po.iid)
      ensures !r.Crashed? ==> Forwarded(po.iid, Apply(old(BookOf(po.iid)), AddOp(po.side, po.qty - po.canQty, po.prc)), po.canQty == 0, r, old(MarketOf(po.iid)))
      ensures OthersUntouched(po.iid)
    {
      ThirtyTwoBitIds();
      BookOfWellformed(po.iid);
      ghost var book := BookOf(po.iid);
      ghost var market := MarketOf(po.iid);
      var h := Acquire(po.iid);
      if !h.Item? {
        return Crashed;
      }
      assert BookOf(po.iid) == book && MarketOf(po.iid) == market;
      var op := AddOp(po.side, po.qty - po.canQty, po.prc);
      r := Deliver(po.iid, h.rec, op, po.canQty == 0, book, market);
    }

    /**
     * `can(po, can_qty)`: the instrument must already exist; `canQty` is
     * taken off the order's level, and `update` runs once the whole booked
     * quantity has been cancelled.
     */
    method Can(po: Order, canQty: int) returns (r: Reaction)
      requires Valid() && po.iid < ID_BOUND
      modifies owner.Keys
      ensures Valid()
      ensures r.Crashed? <==> !Known(po.iid)
      ensures r.Crashed? ==> Untouched(po.iid)
      ensures !r.Crashed? ==> Forwarded(po.iid, Apply(old(BookOf(po.iid)), CanOp(po.side, canQty, po.prc)), po.canQty == po.bookQty, r, old(MarketOf(po.iid)))
      ensures OthersUntouched(po.iid)
    {
      ThirtyTwoBitIds();
      var h := instruments.Find(po.iid);
      if !h.Item? {
        return Crashed;
      }
      r := Deliver(po.iid, h.rec, CanOp(po.side, canQty, po.prc), po.canQty == po.bookQty, BookOf(po.iid), MarketOf(po.iid));
    }

    /**
     * `amd(po, old_book)`: the instrument must already exist; the level
     * loses what the amendment took off the booked quantity, and `update`
     * always runs.
     */
    method Amd(po: Order, oldBook: int) returns (r: Reaction)
      requires Valid() && po.iid < ID_BOUND
      modifies owner.Keys
      ensures Valid()
      ensures r.Crashed? <==> !Known(po.iid)
      ensures r.Crashed? ==> Untouched(po.iid)
      ensures !r.Crashed? ==> Forwarded(po.iid, Apply(old(BookOf(po.iid)), AmdOp(po.side, oldBook - po.bookQty, po.prc)), true, r, old(MarketOf(po.iid)))
      ensures OthersUntouched(po.iid)
    {
      ThirtyTwoBitIds();
      var h := instruments.Find(po.iid);
      if !h.Item? {
        return Crashed;
      }
      r := Deliver(po.iid, h.rec, AmdOp(po.side, oldBook - po.bookQty, po.prc), true, BookOf(po.iid), MarketOf(po.iid));
    }

    /**
     * `exe(pt)`: an execution on an instrument never seen is reported and
     * dropped; otherwise it is recorded in the book without `update`.
     */
    method Exe(pt: Trade) returns (r: Reaction)
      requires Valid() && pt.iid < ID_BOUND
      modifies owner.Keys
      ensures Valid()
      ensures r.Crashed? <==> instruments.FindFaults(pt.iid)
      ensures r.UnknownInstrument? <==> !instruments.FindFaults(pt.iid) && !instruments.Live(instruments.Get(pt.iid))
      ensures !r.Counted? ==> Untouched(pt.iid)
      ensures r.Counted? ==> Forwarded(pt.iid, Apply(old(BookOf(pt.iid)), ExeOp(pt.qty, pt.prc)), false, r, old(MarketOf(pt.iid)))
      ensures OthersUntouched(pt.iid)
    {
      ThirtyTwoBitIds();
      var h := instruments.Find(pt.iid);
      if h.Fault? {
        return Crashed;
      }
      if h.Null? {
        return UnknownInstrument;
      }
      r := Deliver(pt.iid, h.rec, ExeOp(pt.qty, pt.prc), false, BookOf(pt.iid), MarketOf(pt.iid));
    }
  }
}
