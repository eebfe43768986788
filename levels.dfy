/**
 * One side of the book: an ordered map from price (integer ticks) to a signed
 * quantity, kept as the sequence of its entries in iteration order. Bids run
 * from the highest price down, asks from the lowest up. `ToMap` is the map the
 * sequence stands for; every operation is stated against it.
 */
module Levels {

  datatype Option<T> = None | Some(value: T)

  /** A price level: its price and the (possibly non-positive) quantity there. */
  datatype Entry = Entry(prc: int, qty: int)

  /** The book's comparators: `prc_greater` for bids (`desc`), `prc_less` for asks. */
  predicate Before(desc: bool, a: int, b: int) {
    if desc then a > b else a < b
  }

  /** The entries are in strictly increasing comparator order: one entry per price. */
  predicate Ordered(desc: bool, s: seq<Entry>) {
    forall i, j | 0 <= i < j < |s| :: Before(desc, s[i].prc, s[j].prc)
  }

  /** The prices present. */
  function Prices(s: seq<Entry>): set<int> {
    if s == [] then {} else {s[0].prc} + Prices(s[1..])
  }

  /** A price is present exactly when some entry carries it. */
  lemma {:induction false} PricesIndex(s: seq<Entry>, p: int) returns (i: nat)
    requires p in Prices(s)
    ensures i < |s| && s[i].prc == p
  {
    if s[0].prc == p {
      i := 0;
    } else {
      var t := PricesIndex(s[1..], p);
      i := t + 1;
    }
  }

  lemma {:induction false} IndexPrices(s: seq<Entry>, i: nat)
    requires i < |s|
    ensures s[i].prc in Prices(s)
  {
    if i > 0 {
      IndexPrices(s[1..], i - 1);
    }
  }

  /** The map the entries stand for. */
  function ToMap(s: seq<Entry>): (m: map<int, int>)
    ensures m.Keys == Prices(s)
    ensures s != [] ==> s[0].prc in m
  {
    if s == [] then map[] else ToMap(s[1..])[s[0].prc := s[0].qty]
  }

  /** The quantity at a price, a missing level counting as zero. */
  function QtyAt(s: seq<Entry>, prc: int): int {
    if prc in ToMap(s) then ToMap(s)[prc] else 0
  }

  /** Every entry of `s` comes after price `b`. */
  predicate Above(desc: bool, b: int, s: seq<Entry>) {
    forall i | 0 <= i < |s| :: Before(desc, b, s[i].prc)
  }

  lemma {:induction false} AboveNotIn(desc: bool, b: int, s: seq<Entry>)
    requires Above(desc, b, s)
    ensures b !in Prices(s)
  {
    if s != [] {
      assert Before(desc, b, s[0].prc);
      AboveNotIn(desc, b, s[1..]);
    }
  }

  lemma OrderedTail(desc: bool, s: seq<Entry>)
    requires Ordered(desc, s) && s != []
    ensures Ordered(desc, s[1..]) && Above(desc, s[0].prc, s[1..])
    ensures s[0].prc !in Prices(s[1..])
  {
    AboveNotIn(desc, s[0].prc, s[1..]);
  }

  lemma OrderedCons(desc: bool, x: Entry, t: seq<Entry>)
    requires Ordered(desc, t) && Above(desc, x.prc, t)
    ensures Ordered(desc, [x] + t)
  {
  }

  /** An entry put in front overrides the tail's level at its price. */
  lemma ConsToMap(x: Entry, t: seq<Entry>)
    ensures ToMap([x] + t) == ToMap(t)[x.prc := x.qty]
  {
    assert ([x] + t)[1..] == t;
  }

  lemma UpdatesCommute(m: map<int, int>, a: int, x: int, b: int, y: int)
    requires a != b
    ensures m[a := x][b := y] == m[b := y][a := x]
  {
  }

  lemma UpdateTwice(m: map<int, int>, a: int, x: int, y: int)
    ensures m[a := x][a := y] == m[a := y]
  {
  }

  lemma UpdateThenRemove(m: map<int, int>, a: int, x: int, b: int)
    requires a != b
    ensures m[a := x] - {b} == (m - {b})[a := x]
  {
  }

  /** `find`: the quantity stored at a price, if the level exists. */
  function Lookup(s: seq<Entry>, prc: int): (r: Option<int>)
    ensures r.Some? <==> prc in ToMap(s)
    ensures r.Some? ==> r.value == ToMap(s)[prc]
  {
    if s == [] then None
    else if s[0].prc == prc then Some(s[0].qty)
    else Lookup(s[1..], prc)
  }

  /** `insert`, or assignment through an iterator: the level at `prc` now holds `qty`. */
  function Upsert(desc: bool, s: seq<Entry>, prc: int, qty: int): (r: seq<Entry>)
    requires Ordered(desc, s)
    ensures Ordered(desc, r)
    ensures ToMap(r) == ToMap(s)[prc := qty]
    ensures forall b | Above(desc, b, s) && Before(desc, b, prc) :: Above(desc, b, r)
  {
    if s == [] then [Entry(prc, qty)]
    else if s[0].prc == prc then
      OrderedTail(desc, s);
      OrderedCons(desc, Entry(prc, qty), s[1..]);
      ConsToMap(Entry(prc, qty), s[1..]);
      UpdateTwice(ToMap(s[1..]), prc, s[0].qty, qty);
      [Entry(prc, qty)] + s[1..]
    else if Before(desc, prc, s[0].prc) then
      OrderedTail(desc, s);
      OrderedCons(desc, Entry(prc, qty), s);
      ConsToMap(Entry(prc, qty), s);
      [Entry(prc, qty)] + s
    else
      OrderedTail(desc, s);
      var t := Upsert(desc, s[1..], prc, qty);
      OrderedCons(desc, s[0], t);
      ConsToMap(s[0], t);
      UpdatesCommute(ToMap(s[1..]), prc, qty, s[0].prc, s[0].qty);
      [s[0]] + t
  }

  /** `erase`: the level at `prc` is gone. */
  function Erase(desc: bool, s: seq<Entry>, prc: int): (r: seq<Entry>)
    requires Ordered(desc, s)
    ensures Ordered(desc, r)
    ensures ToMap(r) == ToMap(s) - {prc}
    ensures forall b | Above(desc, b, s) :: Above(desc, b, r)
  {
    if s == [] then []
    else
      OrderedTail(desc, s);
      if s[0].prc == prc then s[1..]
      else
        var t := Erase(desc, s[1..], prc);
        OrderedCons(desc, s[0], t);
        ConsToMap(s[0], t);
        UpdateThenRemove(ToMap(s[1..]), s[0].prc, s[0].qty, prc);
        [s[0]] + t
  }

  /**
   * The private `add`: the quantity is added to the level, a missing level
   * being created with it; a level that sums to zero stays.
   */
  function LevelAdd(desc: bool, s: seq<Entry>, qty: int, prc: int): (r: seq<Entry>)
    requires Ordered(desc, s)
    ensures Ordered(desc, r)
    ensures ToMap(r) - {prc} == ToMap(s) - {prc}
    ensures prc in ToMap(r) && ToMap(r)[prc] == QtyAt(s, prc) + qty
  {
    match Lookup(s, prc)
    case None => Upsert(desc, s, prc, qty)
    case Some(v) => Upsert(desc, s, prc, v + qty)
  }

  /**
   * The private `can` (with `del`): a missing level gets a `-qty` placeholder;
   * an existing one is erased if it holds exactly `qty`, else reduced by it.
   */
  function LevelCan(desc: bool, s: seq<Entry>, qty: int, prc: int): (r: seq<Entry>)
    requires Ordered(desc, s)
    ensures Ordered(desc, r)
    ensures ToMap(r) - {prc} == ToMap(s) - {prc}
    ensures prc in ToMap(s) && ToMap(s)[prc] == qty ==> prc !in ToMap(r)
    ensures !(prc in ToMap(s) && ToMap(s)[prc] == qty) ==> prc in ToMap(r) && ToMap(r)[prc] == QtyAt(s, prc) - qty
  {
    match Lookup(s, prc)
    case None => Upsert(desc, s, prc, -qty)
    case Some(v) => if v == qty then Erase(desc, s, prc) else Upsert(desc, s, prc, v - qty)
  }

  /**
   * The private `amd`: a missing level is left alone; an existing one is
   * reduced by `qty` and erased if that leaves exactly zero.
   */
  function LevelAmd(desc: bool, s: seq<Entry>, qty: int, prc: int): (r: seq<Entry>)
    requires Ordered(desc, s)
    ensures Ordered(desc, r)
    ensures prc !in ToMap(s) ==> r == s
    ensures ToMap(r) - {prc} == ToMap(s) - {prc}
    ensures prc in ToMap(s) ==> (prc in ToMap(r) <==> ToMap(s)[prc] != qty)
    ensures prc in ToMap(r) ==> ToMap(r)[prc] == ToMap(s)[prc] - qty
  {
    match Lookup(s, prc)
    case None => s
    case Some(v) => if v - qty == 0 then Erase(desc, s, prc) else Upsert(desc, s, prc, v - qty)
  }

  /** The first entry of an ordered side holds its best price. */
  lemma FirstIsLeast(desc: bool, s: seq<Entry>, p: int)
    requires Ordered(desc, s) && p in Prices(s)
    ensures p == s[0].prc || Before(desc, s[0].prc, p)
  {
    var i := PricesIndex(s, p);
    assert i == 0 || Before(desc, s[0].prc, s[i].prc);
  }

  /** An ordered side is determined by its map: the sequence is the map's iteration order. */
  lemma {:induction false} OrderedIsMapOrder(desc: bool, s: seq<Entry>, t: seq<Entry>)
    requires Ordered(desc, s) && Ordered(desc, t)
    requires ToMap(s) == ToMap(t)
    ensures s == t
    decreases |s|
  {
    if s != [] && t != [] {
      OrderedTail(desc, s);
      OrderedTail(desc, t);
      FirstIsLeast(desc, t, s[0].prc);
      FirstIsLeast(desc, s, t[0].prc);
      assert s[0].qty == ToMap(s)[s[0].prc] == ToMap(t)[t[0].prc] == t[0].qty;
      assert ToMap(s[1..]) == ToMap(s) - {s[0].prc};
      assert ToMap(t[1..]) == ToMap(t) - {t[0].prc};
      OrderedIsMapOrder(desc, s[1..], t[1..]);
      assert s == [s[0]] + s[1..];
      assert t == [t[0]] + t[1..];
    }
  }

  /** Cancel and amend agree on an existing level and differ only on a missing one. */
  lemma CanAndAmdDifferOnlyOnMissingLevel(desc: bool, s: seq<Entry>, qty: int, prc: int)
    requires Ordered(desc, s)
    ensures prc in ToMap(s) ==> LevelCan(desc, s, qty, prc) == LevelAmd(desc, s, qty, prc)
    ensures prc !in ToMap(s) ==> LevelAmd(desc, s, qty, prc) == s
    ensures prc !in ToMap(s) ==> ToMap(LevelCan(desc, s, qty, prc)) == ToMap(s)[prc := -qty]
  {
  }

  /**
   * A cancel of what was just added restores the side, unless the level held
   * exactly zero before, in which case the level is erased.
   */
  lemma AddThenCancel(desc: bool, s: seq<Entry>, qty: int, prc: int)
    requires Ordered(desc, s)
    ensures QtyAt(s, prc) != 0 || prc !in ToMap(s) ==>
      LevelCan(desc, LevelAdd(desc, s, qty, prc), qty, prc) == s
    ensures prc in ToMap(s) && ToMap(s)[prc] == 0 ==>
      LevelCan(desc, LevelAdd(desc, s, qty, prc), qty, prc) == Erase(desc, s, prc)
  {
    var r := LevelCan(desc, LevelAdd(desc, s, qty, prc), qty, prc);
    if QtyAt(s, prc) != 0 || prc !in ToMap(s) {
      assert ToMap(r) == ToMap(s);
      OrderedIsMapOrder(desc, r, s);
    } else {
      assert ToMap(r) == ToMap(Erase(desc, s, prc));
      OrderedIsMapOrder(desc, r, Erase(desc, s, prc));
    }
  }

  // ---------------------------------------------------------------------------
  // The levels with a positive quantity, in iteration order.

  /** The entries with positive quantity, in order; defined on prefixes so a scan can follow it. */
  function Positives(s: seq<Entry>): (p: seq<Entry>)
    ensures |p| <= |s|
    ensures forall k | 0 <= k < |p| :: p[k].qty > 0 && p[k] in s
  {
    if s == [] then []
    else
      var init := Positives(s[..|s| - 1]);
      assert forall e | e in s[..|s| - 1] :: e in s;
      if s[|s| - 1].qty > 0 then init + [s[|s| - 1]] else init
  }

  /** Every entry with a positive quantity is among the positive levels. */
  lemma {:induction false} PositivesComplete(s: seq<Entry>)
    ensures forall e | e in s && e.qty > 0 :: e in Positives(s)
  {
    if s != [] {
      var init := s[..|s| - 1];
      PositivesComplete(init);
      assert s == init + [s[|s| - 1]];
    }
  }

  /** Positive levels keep the side's order. */
  lemma {:induction false} PositivesOrdered(desc: bool, s: seq<Entry>)
    requires Ordered(desc, s)
    ensures Ordered(desc, Positives(s))
    decreases |s|
  {
    if s != [] {
      var init := s[..|s| - 1];
      assert Ordered(desc, init);
      PositivesOrdered(desc, init);
      var p := Positives(init);
      forall k | 0 <= k < |p|
        ensures Before(desc, p[k].prc, s[|s| - 1].prc)
      {
        var i :| 0 <= i < |init| && init[i] == p[k];
      }
    }
  }

  lemma PositivesStep(s: seq<Entry>, k: nat)
    requires k < |s|
    ensures Positives(s[..k + 1]) == if s[k].qty > 0 then Positives(s[..k]) + [s[k]] else Positives(s[..k])
  {
    assert s[..k + 1][..k] == s[..k];
  }

  /** Skipping non-positive levels adds nothing. */
  lemma {:induction false} PositivesSkip(s: seq<Entry>, k: nat, j: nat)
    requires k <= j <= |s|
    requires forall m | k <= m < j :: s[m].qty <= 0
    ensures Positives(s[..j]) == Positives(s[..k])
    decreases j - k
  {
    if k < j {
      PositivesSkip(s, k, j - 1);
      PositivesStep(s, j - 1);
    }
  }

  /** The positive levels of a prefix are a prefix of the positive levels. */
  lemma {:induction false} PositivesPrefix(s: seq<Entry>, k: nat)
    requires k <= |s|
    ensures |Positives(s[..k])| <= |Positives(s)|
    ensures Positives(s[..k]) == Positives(s)[..|Positives(s[..k])|]
    decreases |s| - k
  {
    if k == |s| {
      assert s[..k] == s;
    } else {
      PositivesPrefix(s, k + 1);
      PositivesStep(s, k);
    }
  }

  /**
   * What one `find_best` then `++` step of a scan yields: with `c` positive
   * levels passed, the next non-skipped entry is positive level `c`, or the
   * scan has passed them all.
   */
  lemma NextPositive(s: seq<Entry>, k: nat, j: nat)
    requires k <= j <= |s|
    requires forall m | k <= m < j :: s[m].qty <= 0
    requires j < |s| ==> s[j].qty > 0
    ensures Positives(s[..j]) == Positives(s[..k])
    ensures j < |s| ==> |Positives(s[..k])| < |Positives(s)|
    ensures j < |s| ==> Positives(s)[|Positives(s[..k])|] == s[j]
    ensures j < |s| ==> |Positives(s[..j + 1])| == |Positives(s[..k])| + 1
    ensures j == |s| ==> |Positives(s[..k])| == |Positives(s)| == |Positives(s[..j])|
  {
    PositivesSkip(s, k, j);
    if j < |s| {
      PositivesStep(s, j);
      PositivesPrefix(s, j + 1);
    } else {
      assert s[..j] == s;
    }
  }
}
