/**
 * `order_book::book`: the two sides of one instrument's book, the last
 * execution, and the count of events since the last refresh; plus the
 * integrity check (`verify`) and the snapshot extraction (`try_extract`).
 */
module Books {
  import opened Records
  import opened Levels
  import opened Markets

  const INT32_MIN: int := -0x8000_0000
  const INT32_BOUND: int := 0x8000_0000

  predicate IsInt32(x: int) {
    INT32_MIN <= x < INT32_BOUND
  }

  /** The conversion of a 64-bit quantity to `int32_t`: two's-complement truncation. */
  function Wrap32(x: int): (r: int)
    ensures IsInt32(r)
    ensures (x - r) % 0x1_0000_0000 == 0
    ensures IsInt32(x) ==> r == x
  {
    var r := (x + INT32_BOUND) % 0x1_0000_0000 - INT32_BOUND;
    assert x - r == ((x + INT32_BOUND) / 0x1_0000_0000) * 0x1_0000_0000;
    r
  }

  function Min(a: int, b: int): int {
    if a < b then a else b
  }

  predicate AllPositive(s: seq<Entry>) {
    forall k | 0 <= k < |s| :: s[k].qty > 0
  }

  /**
   * What `verify` complains about once past the tolerance: a non-positive bid
   * among the first `maxLev` bid levels, or a non-positive first ask level
   * (the ask cursor is never advanced, so only that level is looked at).
   */
  predicate Complains(bids: seq<Entry>, asks: seq<Entry>, maxLev: int) {
    maxLev > 0 &&
    (!AllPositive(bids[..Min(maxLev, |bids|)]) || (|asks| > 0 && asks[0].qty <= 0))
  }

  /** The check the loop evidently aims at: every one of the first `maxLev` levels of both sides positive. */
  predicate IntendedComplains(bids: seq<Entry>, asks: seq<Entry>, maxLev: int) {
    maxLev > 0 &&
    (!AllPositive(bids[..Min(maxLev, |bids|)]) || !AllPositive(asks[..Min(maxLev, |asks|)]))
  }

  /** The best bid is at or above the best ask, counting positive levels only. */
  predicate Crossed(bids: seq<Entry>, asks: seq<Entry>) {
    var bp := Positives(bids);
    var ap := Positives(asks);
    bp != [] && ap != [] && bp[0].prc >= ap[0].prc
  }

  /** Row `i` of an extraction: the `i`-th positive level of each side, or zeros. */
  function Row(bp: seq<Entry>, ap: seq<Entry>, i: nat): Level {
    Level(if i < |bp| then bp[i].qty else 0, if i < |bp| then bp[i].prc else 0,
          if i < |ap| then ap[i].qty else 0, if i < |ap| then ap[i].prc else 0)
  }

  /** The rows `try_extract` writes into a market of `n` rows. */
  function Snapshot(bids: seq<Entry>, asks: seq<Entry>, n: nat): (rows: seq<Level>)
    ensures |rows| == n
  {
    seq(n, i requires 0 <= i < n => Row(Positives(bids), Positives(asks), i))
  }

  /** Every complaint `verify` raises is one the intended check would raise. */
  lemma ComplainsOnlyWhenIntended(bids: seq<Entry>, asks: seq<Entry>, maxLev: int)
    ensures Complains(bids, asks, maxLev) ==> IntendedComplains(bids, asks, maxLev)
  {
    if maxLev > 0 && |asks| > 0 && asks[0].qty <= 0 {
      assert asks[..Min(maxLev, |asks|)][0] == asks[0];
    }
  }

  /** A non-positive second ask level goes unnoticed, however many levels are checked. */
  lemma SecondAskLevelUnchecked(maxLev: int)
    requires maxLev >= 2
    ensures var asks := [Entry(100, 5), Entry(101, -3)];
      !Complains([], asks, maxLev) && IntendedComplains([], asks, maxLev)
  {
    var asks := [Entry(100, 5), Entry(101, -3)];
    assert asks[..Min(maxLev, |asks|)][1] == asks[1];
  }

  /** An ordered side's entry is its map's value at its price. */
  lemma {:induction false} EntryInMap(desc: bool, s: seq<Entry>, k: nat)
    requires Ordered(desc, s) && k < |s|
    ensures s[k].prc in ToMap(s) && ToMap(s)[s[k].prc] == s[k].qty
  {
    if k > 0 {
      OrderedTail(desc, s);
      EntryInMap(desc, s[1..], k - 1);
      assert Before(desc, s[0].prc, s[k].prc);
    }
  }

  lemma PositivesAreEntries(desc: bool, s: seq<Entry>, i: nat)
    requires Ordered(desc, s) && i < |Positives(s)|
    ensures var e := Positives(s)[i];
      e.qty > 0 && e.prc in ToMap(s) && ToMap(s)[e.prc] == e.qty
  {
    var e := Positives(s)[i];
    var k :| 0 <= k < |s| && s[k] == e;
    EntryInMap(desc, s, k);
  }

  /**
   * Each filled row of a snapshot is a level of the book with its quantity;
   * the filled rows come first, and an unfilled side of a row is all zeros.
   */
  lemma SnapshotRowsAreBookLevels(bids: seq<Entry>, asks: seq<Entry>, n: nat, i: nat)
    requires Ordered(true, bids) && Ordered(false, asks) && i < n
    ensures var r := Snapshot(bids, asks, n)[i];
      && (r.bidQty > 0 <==> i < |Positives(bids)|)
      && (r.askQty > 0 <==> i < |Positives(asks)|)
      && (r.bidQty > 0 ==> r.bidPrc in ToMap(bids) && ToMap(bids)[r.bidPrc] == r.bidQty)
      && (r.askQty > 0 ==> r.askPrc in ToMap(asks) && ToMap(asks)[r.askPrc] == r.askQty)
      && (r.bidQty <= 0 ==> r.bidQty == 0 && r.bidPrc == 0)
      && (r.askQty <= 0 ==> r.askQty == 0 && r.askPrc == 0)
  {
    if i < |Positives(bids)| {
      PositivesAreEntries(true, bids, i);
    }
    if i < |Positives(asks)| {
      PositivesAreEntries(false, asks, i);
    }
  }

  /** Snapshot rows run best first: bid prices fall and ask prices rise down the filled rows. */
  lemma SnapshotBestFirst(bids: seq<Entry>, asks: seq<Entry>, n: nat, i: nat, j: nat)
    requires Ordered(true, bids) && Ordered(false, asks) && i < j < n
    ensures var rows := Snapshot(bids, asks, n);
      && (rows[j].bidQty > 0 ==> rows[i].bidQty > 0 && rows[i].bidPrc > rows[j].bidPrc)
      && (rows[j].askQty > 0 ==> rows[i].askQty > 0 && rows[i].askPrc < rows[j].askPrc)
  {
    PositivesOrdered(true, bids);
    PositivesOrdered(false, asks);
  }

  /** In an uncrossed book every bid price of the snapshot lies below every ask price. */
  lemma SnapshotUncrossed(bids: seq<Entry>, asks: seq<Entry>, n: nat, i: nat, j: nat)
    requires Ordered(true, bids) && Ordered(false, asks) && !Crossed(bids, asks)
    requires i < n && j < n
    ensures var rows := Snapshot(bids, asks, n);
      rows[i].bidQty > 0 && rows[j].askQty > 0 ==> rows[i].bidPrc < rows[j].askPrc
  {
    var bp, ap := Positives(bids), Positives(asks);
    if i < |bp| && j < |ap| {
      PositivesOrdered(true, bids);
      PositivesOrdered(false, asks);
      assert i > 0 ==> bp[0].prc > bp[i].prc;
      assert j > 0 ==> ap[0].prc < ap[j].prc;
    }
  }

  /** The book's fields as a value. */
  datatype BookState = BookState(bids: seq<Entry>, asks: seq<Entry>, lastQty: int, lastPrc: int, times: int)

  /** A freshly constructed book. */
  const EmptyBook := BookState([], [], 0, 0, 0)

  predicate Wellformed(st: BookState) {
    Ordered(true, st.bids) && Ordered(false, st.asks) && IsInt32(st.lastQty)
  }

  /** The public `add`: counts the event and adds `qty` at `prc` on the order's side; an unknown side touches no level. */
  function BookAdd(st: BookState, side: Side, qty: int, prc: int): (r: BookState)
    requires Wellformed(st)
    ensures Wellformed(r) && r.times == st.times + 1
    ensures r.lastQty == st.lastQty && r.lastPrc == st.lastPrc
    ensures side != Buy ==> r.bids == st.bids
    ensures side != Sell ==> r.asks == st.asks
    ensures side == Buy ==> ToMap(r.bids) == ToMap(st.bids)[prc := QtyAt(st.bids, prc) + qty]
    ensures side == Sell ==> ToMap(r.asks) == ToMap(st.asks)[prc := QtyAt(st.asks, prc) + qty]
  {
    var counted := st.(times := st.times + 1);
    match side
    case Buy => counted.(bids := LevelAdd(true, st.bids, qty, prc))
    case Sell => counted.(asks := LevelAdd(false, st.asks, qty, prc))
    case SideMax => counted
  }

  /** A level's map after the private `can`: erased when it held exactly `qty`, else reduced, a missing level counting as zero. */
  function CancelledMap(m: map<int, int>, qty: int, prc: int): map<int, int> {
    if prc in m && m[prc] == qty then m - {prc}
    else m[prc := (if prc in m then m[prc] else 0) - qty]
  }

  /** A level's map after the private `amd`: untouched when missing, else reduced and erased at exactly zero. */
  function AmendedMap(m: map<int, int>, qty: int, prc: int): map<int, int> {
    if prc !in m then m
    else if m[prc] == qty then m - {prc}
    else m[prc := m[prc] - qty]
  }

  /** The public `can`. */
  function BookCan(st: BookState, side: Side, qty: int, prc: int): (r: BookState)
    requires Wellformed(st)
    ensures Wellformed(r) && r.times == st.times + 1
    ensures r.lastQty == st.lastQty && r.lastPrc == st.lastPrc
    ensures side != Buy ==> r.bids == st.bids
    ensures side != Sell ==> r.asks == st.asks
    ensures side == Buy ==> ToMap(r.bids) == CancelledMap(ToMap(st.bids), qty, prc)
    ensures side == Sell ==> ToMap(r.asks) == CancelledMap(ToMap(st.asks), qty, prc)
  {
    var counted := st.(times := st.times + 1);
    match side
    case Buy => counted.(bids := LevelCan(true, st.bids, qty, prc))
    case Sell => counted.(asks := LevelCan(false, st.asks, qty, prc))
    case SideMax => counted
  }

  /** The public `amd`. */
  function BookAmd(st: BookState, side: Side, qty: int, prc: int): (r: BookState)
    requires Wellformed(st)
    ensures Wellformed(r) && r.times == st.times + 1
    ensures r.lastQty == st.lastQty && r.lastPrc == st.lastPrc
    ensures side != Buy ==> r.bids == st.bids
    ensures side != Sell ==> r.asks == st.asks
    ensures side == Buy ==> ToMap(r.bids) == AmendedMap(ToMap(st.bids), qty, prc)
    ensures side == Sell ==> ToMap(r.asks) == AmendedMap(ToMap(st.asks), qty, prc)
  {
    var counted := st.(times := st.times + 1);
    match side
    case Buy => counted.(bids := LevelAmd(true, st.bids, qty, prc))
    case Sell => counted.(asks := LevelAmd(false, st.asks, qty, prc))
    case SideMax => counted
  }

  /** `exe`: counts the event and records the execution, its quantity truncated to 32 bits; no level changes. */
  function BookExe(st: BookState, qty: int, prc: int): (r: BookState)
    requires Wellformed(st)
    ensures Wellformed(r) && r.times == st.times + 1
    ensures r.bids == st.bids && r.asks == st.asks
    ensures IsInt32(qty) ==> r.lastQty == qty
    ensures r.lastPrc == prc
  {
    st.(times := st.times + 1, lastQty := Wrap32(qty), lastPrc := prc)
  }

  /** The levels of the side an order names; an unknown side has none. */
  function SideLevels(st: BookState, side: Side): seq<Entry> {
    match side
    case Buy => st.bids
    case Sell => st.asks
    case SideMax => []
  }

  /**
   * Cancelling what was just added gives the book back, two events later,
   * unless the level had been left at exactly zero, which the cancel erases.
   */
  lemma AddThenCancelRestoresBook(st: BookState, side: Side, qty: int, prc: int)
    requires Wellformed(st)
    ensures QtyAt(SideLevels(st, side), prc) != 0 || prc !in ToMap(SideLevels(st, side)) ==>
      BookCan(BookAdd(st, side, qty, prc), side, qty, prc) == st.(times := st.times + 2)
    ensures prc in ToMap(SideLevels(st, side)) && ToMap(SideLevels(st, side))[prc] == 0 ==>
      BookCan(BookAdd(st, side, qty, prc), side, qty, prc).(times := st.times) != st
  {
    match side
    case Buy =>
      AddThenCancel(true, st.bids, qty, prc);
      if prc in ToMap(st.bids) && ToMap(st.bids)[prc] == 0 {
        assert prc !in ToMap(Erase(true, st.bids, prc));
      }
    case Sell =>
      AddThenCancel(false, st.asks, qty, prc);
      if prc in ToMap(st.asks) && ToMap(st.asks)[prc] == 0 {
        assert prc !in ToMap(Erase(false, st.asks, prc));
      }
    case SideMax =>
  }

  class Book {
    const iid: nat
    var bids: seq<Entry>
    var asks: seq<Entry>
    /** `_last_qty` is an `int32_t`. */
    var lastQty: int
    var lastPrc: int
    /** `_times`: events since the last verification failure or refresh. */
    var times: int

    ghost function State(): BookState
      reads this
    {
      BookState(bids, asks, lastQty, lastPrc, times)
    }

    ghost predicate Valid()
      reads this
    {
      Wellformed(State())
    }

    constructor (iid: nat)
      ensures Valid()
      ensures this.iid == iid && State() == EmptyBook
    {
      this.iid := iid;
      bids := [];
      asks := [];
      lastQty := 0;
      lastPrc := 0;
      times := 0;
    }

    method Add(side: Side, qty: int, prc: int) returns (t: int)
      requires Valid()
      modifies this
      ensures Valid()
      ensures State() == BookAdd(old(State()), side, qty, prc) && t == times
    {
      times := times + 1;
      match side {
        case Buy => bids := LevelAdd(true, bids, qty, prc);
        case Sell => asks := LevelAdd(false, asks, qty, prc);
        case SideMax =>
      }
      t := times;
    }

    method Can(side: Side, qty: int, prc: int) returns (t: int)
      requires Valid()
      modifies this
      ensures Valid()
      ensures State() == BookCan(old(State()), side, qty, prc) && t == times
    {
      times := times + 1;
      match side {
        case Buy => bids := LevelCan(true, bids, qty, prc);
        case Sell => asks := LevelCan(false, asks, qty, prc);
        case SideMax =>
      }
      t := times;
    }

    method Amd(side: Side, qty: int, prc: int) returns (t: int)
      requires Valid()
      modifies this
      ensures Valid()
      ensures State() == BookAmd(old(State()), side, qty, prc) && t == times
    {
      times := times + 1;
      match side {
        case Buy => bids := LevelAmd(true, bids, qty, prc);
        case Sell => asks := LevelAmd(false, asks, qty, prc);
        case SideMax =>
      }
      t := times;
    }

    method Exe(qty: int, prc: int) returns (t: int)
      requires Valid()
      modifies this
      ensures Valid()
      ensures State() == BookExe(old(State()), qty, prc) && t == times
    {
      times := times + 1;
      lastQty := Wrap32(qty);
      lastPrc := prc;
      t := times;
    }

    /**
     * `verify`: passes while at most `tolerance` events have been counted;
     * otherwise scans up to `maxLev` rows and, on a complaint, resets the count.
     */
    method Verify(maxLev: int, tolerance: int) returns (ok: bool)
      requires Valid()
      modifies this
      ensures Valid()
      ensures ok <==> old(times) <= tolerance || !Complains(bids, asks, maxLev)
      ensures State() == if ok then old(State()) else old(State()).(times := 0)
    {
      if times <= tolerance {
        return true;
      }
      var b := 0;
      var i := 0;
      while i < maxLev
        invariant 0 <= i && (maxLev > 0 ==> i <= maxLev)
        invariant b == Min(i, |bids|)
        invariant AllPositive(bids[..b])
        invariant i > 0 ==> |asks| == 0 || asks[0].qty > 0
      {
        if b < |bids| {
          if bids[b].qty <= 0 {
            assert !AllPositive(bids[..Min(maxLev, |bids|)]) by {
              assert bids[..Min(maxLev, |bids|)][b] == bids[b];
            }
            times := 0;
            return false;
          }
          assert bids[..b + 1] == bids[..b] + [bids[b]];
          b := b + 1;
        }
        if |asks| > 0 {
          if asks[0].qty <= 0 {
            times := 0;
            return false;
          }
        }
        i := i + 1;
      }
      return true;
    }

    /**
     * `find_best`: from cursor `k`, the first level with a positive
     * quantity, or the end of the side.
     */
    static method FindBest(s: seq<Entry>, k: nat) returns (j: nat)
      requires k <= |s|
      ensures k <= j <= |s|
      ensures forall m | k <= m < j :: s[m].qty <= 0
      ensures j < |s| ==> s[j].qty > 0
    {
      j := k;
      while j < |s|
        invariant k <= j <= |s|
        invariant forall m | k <= m < j :: s[m].qty <= 0
      {
        if s[j].qty > 0 {
          break;
        }
        j := j + 1;
      }
    }

    /**
     * One side's part of a row in `try_extract`'s loop: `find_best` from the
     * cursor, then step past the level taken. With `i` rows written, the
     * result is the side's `i`-th positive level, or zeros once they are used up.
     */
    static method NextLevel(s: seq<Entry>, k: nat, i: nat) returns (qty: int, prc: int, k': nat)
      requires k <= |s| && |Positives(s[..k])| == Min(i, |Positives(s)|)
      ensures k' <= |s| && |Positives(s[..k'])| == Min(i + 1, |Positives(s)|)
      ensures i < |Positives(s)| ==> qty == Positives(s)[i].qty && prc == Positives(s)[i].prc
      ensures i >= |Positives(s)| ==> qty == 0 && prc == 0
    {
      k' := FindBest(s, k);
      NextPositive(s, k, k');
      qty, prc := 0, 0;
      if k' < |s| {
        qty, prc := s[k'].qty, s[k'].prc;
        k' := k' + 1;
      }
    }

    /** The crossing test of `try_extract` on the two sides' best positive levels. */
    static method BestLevels(bids: seq<Entry>, asks: seq<Entry>) returns (bi: nat, ai: nat, crossed: bool)
      ensures crossed <==> Crossed(bids, asks)
      ensures bi <= |bids| && |Positives(bids[..bi])| == 0
      ensures ai <= |asks| && |Positives(asks[..ai])| == 0
    {
      bi := FindBest(bids, 0);
      ai := FindBest(asks, 0);
      NextPositive(bids, 0, bi);
      NextPositive(asks, 0, ai);
      assert bids[..0] == [] && asks[..0] == [];
      crossed := false;
      if bi < |bids| && ai < |asks| {
        if bids[bi].prc >= asks[ai].prc {
          crossed := true;
        }
      }
    }

    /** The row-writing loop of `try_extract`, from the cursors the crossing test left. */
    static method WriteRows(bids: seq<Entry>, asks: seq<Entry>, bi: nat, ai: nat, mkt: Market)
      requires bi <= |bids| && |Positives(bids[..bi])| == 0
      requires ai <= |asks| && |Positives(asks[..ai])| == 0
      modifies mkt.data
      ensures mkt.data[..] == Snapshot(bids, asks, mkt.MaxLev())
    {
      var n := mkt.MaxLev();
      ghost var bp := Positives(bids);
      ghost var ap := Positives(asks);
      var b: nat, a: nat := bi, ai;
      var i: nat := 0;
      while i < n
        invariant 0 <= i <= n
        invariant b <= |bids| && a <= |asks|
        invariant |Positives(bids[..b])| == Min(i, |bp|)
        invariant |Positives(asks[..a])| == Min(i, |ap|)
        invariant forall k | 0 <= k < i :: mkt.data[k] == Row(bp, ap, k)
      {
        var bq, bpr, aq, apr;
        bq, bpr, b := NextLevel(bids, b, i);
        aq, apr, a := NextLevel(asks, a, i);
        mkt.Fill(i, Level(bq, bpr, aq, apr));
        i := i + 1;
      }
      assert mkt.data[..] == Snapshot(bids, asks, n);
    }

    /**
     * `try_extract`: refuses a crossed book; otherwise writes the last
     * execution and the best positive levels of both sides into the market,
     * row by row, and resets the count.
     */
    method TryExtract(mkt: Market) returns (ok: bool)
      requires Valid()
      modifies this, mkt, mkt.data
      ensures Valid()
      ensures ok <==> !Crossed(bids, asks)
      ensures State() == if ok then old(State()).(times := 0) else old(State())
      ensures !ok ==> mkt.data[..] == old(mkt.data[..])
      ensures !ok ==> mkt.lastQty == old(mkt.lastQty) && mkt.lastPrc == old(mkt.lastPrc)
      ensures ok ==> mkt.data[..] == Snapshot(bids, asks, mkt.MaxLev())
      ensures ok ==> mkt.lastQty == lastQty && mkt.lastPrc == lastPrc
    {
      var bi, ai, crossed := BestLevels(bids, asks);
      if crossed {
        return false;
      }
      mkt.FillLast(lastQty, lastPrc);
      WriteRows(bids, asks, bi, ai, mkt);
      times := 0;
      return true;
    }
  }
}
