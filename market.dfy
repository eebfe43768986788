/**
 * `reference::market`: the published snapshot of one instrument, a fixed
 * number of rows of best bid and ask levels plus the last execution.
 * Prices are integer ticks.
 */
module Markets {

  /** One row of the snapshot. */
  datatype Level = Level(bidQty: int, bidPrc: int, askQty: int, askPrc: int)

  /** `empty_lev`: the zero-initialised row. */
  const EmptyLevel := Level(0, 0, 0, 0)

  class Market {
    const iid: nat
    /** `_data`: one row per level, sized once at construction. */
    const data: array<Level>
    var lastQty: int
    var lastPrc: int

    /** All rows start empty and the last execution is zero. */
    constructor (iid: nat, maxLev: nat)
      ensures this.iid == iid && MaxLev() == maxLev
      ensures forall lev: nat | lev < maxLev :: Find(lev) == EmptyLevel
      ensures lastQty == 0 && lastPrc == 0
      ensures fresh(data)
    {
      this.iid := iid;
      data := new Level[maxLev](_ => EmptyLevel);
      lastQty := 0;
      lastPrc := 0;
    }

    function MaxLev(): nat {
      data.Length
    }

    /** `find`: a row, or the empty row for a level past the end. */
    function Find(lev: nat): (l: Level)
      reads data
      ensures lev >= MaxLev() ==> l == EmptyLevel
      ensures lev < MaxLev() ==> l == data[lev]
    {
      if lev >= data.Length then EmptyLevel else data[lev]
    }

    function BidQty(lev: nat): (r: int)
      reads data
      ensures lev >= MaxLev() ==> r == 0
    {
      Find(lev).bidQty
    }

    function BidPrc(lev: nat): (r: int)
      reads data
      ensures lev >= MaxLev() ==> r == 0
    {
      Find(lev).bidPrc
    }

    function AskQty(lev: nat): (r: int)
      reads data
      ensures lev >= MaxLev() ==> r == 0
    {
      Find(lev).askQty
    }

    function AskPrc(lev: nat): (r: int)
      reads data
      ensures lev >= MaxLev() ==> r == 0
    {
      Find(lev).askPrc
    }

    /** `fill(lev, data)`: replaces one row; the level must be in range. */
    method Fill(lev: nat, row: Level)
      requires lev < MaxLev()
      modifies data
      ensures data[..] == old(data[..])[lev := row]
      ensures Find(lev) == row
      ensures forall other: nat | other != lev :: Find(other) == old(Find(other))
    {
      data[lev] := row;
    }

    /** `fill(qty, prc)`: records the last execution; the rows are untouched. */
    method FillLast(qty: int, prc: int)
      modifies this
      ensures lastQty == qty && lastPrc == prc
    {
      lastQty := qty;
      lastPrc := prc;
    }
  }
}
