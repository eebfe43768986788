/**
 * The entity arena: a get-or-create table addressed by splitting an id into
 * three bit fields, [bucket (top half)][slot (next quarter)][item (low quarter)].
 * Buckets and slots are allocated on first touch; a cell holds a record, and a
 * record whose id is the sentinel marks an empty cell.
 *
 * The id width is a parameter: `q` is a quarter of it (32-bit ids have q = 8).
 */
module Arena {

  /** 2 to the power k. */
  function Pow2(k: nat): (r: nat)
    ensures r >= 1
  {
    if k == 0 then 1 else 2 * Pow2(k - 1)
  }

  lemma {:induction false} Pow2Add(a: nat, b: nat)
    ensures Pow2(a + b) == Pow2(a) * Pow2(b)
  {
    if a > 0 {
      Pow2Add(a - 1, b);
      assert Pow2(a + b) == 2 * Pow2(a - 1 + b);
    }
  }

  /** `id_limits::max()`, the largest id, which is also the sentinel `(id_type)-1`. */
  function MaxId(q: nat): nat {
    Pow2(4 * q) - 1
  }

  /**
   * The capacity of a level whose index field is `k` bits wide, computed as the
   * source does: `max >> (digits - k)`.
   */
  function Capacity(q: nat, k: nat): nat
    requires k <= 4 * q
  {
    MaxId(q) / Pow2(4 * q - k)
  }

  /** The number of buckets: one less than the half-width field can address. */
  function BucketsCapacity(q: nat): nat {
    Capacity(q, 2 * q)
  }

  /** The number of slots in a bucket and of items in a slot. */
  function QuarterCapacity(q: nat): nat {
    Capacity(q, q)
  }

  lemma MulLe(x: int, y: int, z: int)
    requires x <= y && z >= 0
    ensures x * z <= y * z
  {
    assert y * z - x * z == (y - x) * z;
  }

  /** Quotient and remainder are determined by `a == d * k + r` with `0 <= r < d`. */
  lemma DivideExactly(a: int, d: int, k: int, r: int)
    requires d > 0 && 0 <= r < d && a == d * k + r
    ensures a / d == k && a % d == r
  {
    var m := a / d;
    assert a == d * m + a % d;
    if m > k {
      MulLe(1, m - k, d);
    } else if m < k {
      MulLe(1, k - m, d);
    }
  }

  lemma Pow2Sum(k: nat, a: nat, b: nat)
    requires k == a + b
    ensures Pow2(k) == Pow2(a) * Pow2(b)
  {
    Pow2Add(a, b);
  }

  /**
   * The capacity quirk: shifting the all-ones id right by `digits - k` leaves
   * 2^k - 1, not 2^k, so an index field holding its largest value lies past
   * the end of its array.
   */
  lemma {:induction false} CapacityIsOneShort(q: nat, k: nat)
    requires k <= 4 * q
    ensures Capacity(q, k) == Pow2(k) - 1
  {
    var d := Pow2(4 * q - k);
    Pow2Sum(4 * q, 4 * q - k, k);
    MulLe(1, Pow2(k), d);
    assert MaxId(q) == d * (Pow2(k) - 1) + (d - 1);
    DivideExactly(MaxId(q), d, Pow2(k) - 1, d - 1);
  }

  /** The three bit fields of an id. */
  datatype Address = Address(bucket: nat, slot: nat, item: nat)

  /** `id_wrapper`: item in the low quarter, slot in the next quarter, bucket in the top half. */
  function Split(q: nat, id: nat): (a: Address) {
    Address(id / Pow2(2 * q), (id / Pow2(q)) % Pow2(q), id % Pow2(q))
  }

  /** Writes the three fields back into one id. */
  function Join(q: nat, a: Address): nat {
    a.bucket * Pow2(2 * q) + a.slot * Pow2(q) + a.item
  }

  lemma DivDiv(a: nat, b: nat, c: nat)
    requires b > 0 && c > 0
    ensures a / b / c == a / (b * c)
  {
    var x := a / b;
    var y := x / c;
    var ra := a % b;
    var rx := x % c;
    assert a == b * x + ra;
    assert x == c * y + rx;
    assert b * x == (b * c) * y + b * rx by {
      assert b * (c * y + rx) == b * (c * y) + b * rx;
    }
    MulLe(rx, c - 1, b);
    assert (c - 1) * b == b * c - b;
    DivideExactly(a, b * c, y, b * rx + ra);
  }

  lemma Widths(q: nat)
    ensures Pow2(2 * q) == Pow2(q) * Pow2(q)
    ensures Pow2(4 * q) == Pow2(2 * q) * Pow2(2 * q)
  {
    Pow2Sum(2 * q, q, q);
    Pow2Sum(4 * q, 2 * q, 2 * q);
  }

  lemma SplitFields(Q: nat, QQ: nat, id: nat)
    requires Q >= 1 && QQ == Q * Q && id < QQ * QQ
    ensures id == QQ * (id / Q / Q) + Q * ((id / Q) % Q) + id % Q
    ensures id / Q / Q == id / QQ && id / QQ < QQ
    ensures (id / Q) % Q < Q && id % Q < Q
  {
    var hi := id / Q;
    var slot := hi % Q;
    var bucket := hi / Q;
    assert id == Q * hi + id % Q;
    assert hi == Q * bucket + slot;
    DivDiv(id, Q, Q);
    assert Q * hi == QQ * bucket + Q * slot by {
      assert Q * (Q * bucket + slot) == (Q * Q) * bucket + Q * slot;
    }
    if bucket >= QQ {
      MulLe(QQ, bucket, QQ);
    }
  }

  lemma JoinFields(Q: nat, QQ: nat, bucket: nat, slot: nat, item: nat, id: nat)
    requires Q >= 1 && QQ == Q * Q && bucket < QQ && slot < Q && item < Q
    requires id == bucket * QQ + slot * Q + item
    ensures id < QQ * QQ
    ensures id / QQ == bucket
    ensures (id / Q) % Q == slot
    ensures id % Q == item
  {
    JoinLowFields(Q, QQ, bucket, slot, item, id);
    JoinHighField(Q, QQ, bucket, slot, item, id);
  }

  lemma JoinLowFields(Q: nat, QQ: nat, bucket: nat, slot: nat, item: nat, id: nat)
    requires Q >= 1 && QQ == Q * Q && slot < Q && item < Q
    requires id == bucket * QQ + slot * Q + item
    ensures (id / Q) % Q == slot
    ensures id % Q == item
  {
    var hi := bucket * Q + slot;
    Regroup(Q, QQ, bucket, slot);
    DivideExactly(id, Q, hi, item);
    DivideExactly(hi, Q, bucket, slot);
  }

  lemma JoinHighField(Q: nat, QQ: nat, bucket: nat, slot: nat, item: nat, id: nat)
    requires Q >= 1 && QQ == Q * Q && bucket < QQ && slot < Q && item < Q
    requires id == bucket * QQ + slot * Q + item
    ensures id < QQ * QQ
    ensures id / QQ == bucket
  {
    var low := slot * Q + item;
    LowFits(Q, QQ, slot, item);
    BucketFits(QQ, bucket, low, id);
    DivideExactly(id, QQ, bucket, low);
  }

  lemma BucketFits(QQ: nat, bucket: nat, low: nat, id: nat)
    requires bucket < QQ && low < QQ && id == bucket * QQ + low
    ensures id < QQ * QQ
  {
    MulLe(bucket, QQ - 1, QQ);
    SquareLess(QQ);
  }

  lemma Regroup(Q: nat, QQ: nat, bucket: nat, slot: nat)
    requires QQ == Q * Q
    ensures Q * (bucket * Q + slot) == bucket * QQ + slot * Q
  {
    calc {
      Q * (bucket * Q + slot);
      Q * (bucket * Q) + Q * slot;
      (Q * Q) * bucket + slot * Q;
    }
  }

  lemma SquareLess(QQ: nat)
    requires QQ >= 1
    ensures (QQ - 1) * QQ == QQ * QQ - QQ
  {
  }

  lemma LowFits(Q: nat, QQ: nat, slot: nat, item: nat)
    requires Q >= 1 && QQ == Q * Q && slot < Q && item < Q
    ensures slot * Q + item < QQ
  {
    MulLe(slot, Q - 1, Q);
    assert (Q - 1) * Q == QQ - Q;
  }

  lemma {:induction false} JoinSplit(q: nat, id: nat)
    requires id <= MaxId(q)
    ensures Join(q, Split(q, id)) == id
    ensures Split(q, id).bucket < Pow2(2 * q)
    ensures Split(q, id).slot < Pow2(q) && Split(q, id).item < Pow2(q)
  {
    Widths(q);
    SplitFields(Pow2(q), Pow2(2 * q), id);
  }

  lemma {:induction false} SplitJoin(q: nat, a: Address)
    requires a.bucket < Pow2(2 * q) && a.slot < Pow2(q) && a.item < Pow2(q)
    ensures Join(q, a) <= MaxId(q)
    ensures Split(q, Join(q, a)) == a
  {
    Widths(q);
    JoinFields(Pow2(q), Pow2(2 * q), a.bucket, a.slot, a.item, Join(q, a));
  }

  /** Distinct ids in range address distinct cells. */
  lemma DistinctIdsDistinctCells(q: nat, id1: nat, id2: nat)
    requires id1 <= MaxId(q) && id2 <= MaxId(q) && id1 != id2
    ensures Split(q, id1) != Split(q, id2)
  {
    JoinSplit(q, id1);
    JoinSplit(q, id2);
  }

  /** No other id in range shares an id's address. */
  lemma OnlyIdAtItsAddress(q: nat, id: nat)
    requires id <= MaxId(q)
    ensures forall other: nat | other <= MaxId(q) && other != id :: Split(q, other) != Split(q, id)
  {
    forall other: nat | other <= MaxId(q) && other != id
      ensures Split(q, other) != Split(q, id)
    {
      DistinctIdsDistinctCells(q, id, other);
    }
  }

  /**
   * An id every field of which indexes inside its array. Ids failing this are
   * the ones the arena's array accesses run past the end for.
   */
  predicate Addressable(q: nat, id: nat) {
    var a := Split(q, id);
    a.bucket < BucketsCapacity(q) && a.slot < QuarterCapacity(q) && a.item < QuarterCapacity(q)
  }

  /** The sentinel's item field holds its largest value. */
  lemma {:induction false} SentinelItem(q: nat)
    ensures MaxId(q) % Pow2(q) == Pow2(q) - 1
  {
    var Q := Pow2(q);
    var R := Pow2(3 * q);
    Pow2Sum(4 * q, q, 3 * q);
    MulLe(1, R, Q);
    assert MaxId(q) == Q * (R - 1) + (Q - 1);
    DivideExactly(MaxId(q), Q, R - 1, Q - 1);
  }

  /** The sentinel is never addressable: all its fields hold their largest value. */
  lemma SentinelNotAddressable(q: nat)
    ensures !Addressable(q, MaxId(q))
  {
    CapacityIsOneShort(q, q);
    SentinelItem(q);
    assert Split(q, MaxId(q)).item == QuarterCapacity(q);
  }

  /** On 32-bit ids a bucket field of 65535, or a slot or item field of 255, is one past the end. */
  lemma ThirtyTwoBitCapacities()
    ensures BucketsCapacity(8) == 65535 && QuarterCapacity(8) == 255
    ensures Split(8, 255) == Address(0, 0, 255) && !Addressable(8, 255)
    ensures Addressable(8, 254)
  {
    CapacityIsOneShort(8, 16);
    CapacityIsOneShort(8, 8);
    assert Pow2(8) == 256;
    assert Pow2(16) == 65536;
  }

  /** On 32-bit ids the sentinel is `0xFFFFFFFF`. */
  lemma ThirtyTwoBitIds()
    ensures MaxId(8) == 0xFFFF_FFFF
  {
    assert Pow2(8) == 256;
    Pow2Sum(16, 8, 8);
    Pow2Sum(32, 16, 16);
  }

  /** The result of an arena access: a null pointer, a record, or a fault. */
  datatype Handle<T> = Null | Item(rec: T) | Fault

  /**
   * `container<T>`. The record type's sentinel, constructor and destructor are
   * given as `blank` (the default record), `make` (`T(id)`), `destroy`
   * (`~T()`) and `idOf` (the record's `id` field).
   */
  class Container<T> {
    const q: nat
    const blank: T
    const idOf: T -> nat
    const make: nat -> T
    const destroy: T -> T

    /** `_buckets`: the allocated buckets, each holding its allocated slots. */
    var buckets: map<nat, map<nat, seq<T>>>

    /**
     * The record laws the template relies on (the default record is empty,
     * `T(id)` carries `id`), the shape of the table, and: a live record sits in
     * the cell its own id addresses.
     */
    ghost predicate Valid()
      reads this
    {
      && q >= 1
      && idOf(blank) == MaxId(q)
      && (forall id: nat {:trigger make(id)} :: idOf(make(id)) == id)
      && (forall b | b in buckets :: b < BucketsCapacity(q))
      && (forall b, s | b in buckets && s in buckets[b] ::
            s < QuarterCapacity(q) && |buckets[b][s]| == QuarterCapacity(q))
      && (forall b, s, i | b in buckets && s in buckets[b] && 0 <= i < |buckets[b][s]| ::
            idOf(buckets[b][s][i]) == MaxId(q) || idOf(buckets[b][s][i]) == Join(q, Address(b, s, i)))
    }

    /** A record other than the sentinel. */
    predicate Live(x: T) {
      idOf(x) != MaxId(q)
    }

    /** Whether the slot holding `id`'s cell has been allocated. */
    ghost predicate Allocated(id: nat)
      reads this
    {
      var a := Split(q, id);
      a.bucket in buckets && a.slot in buckets[a.bucket]
    }

    /** The record in `id`'s cell; a cell never allocated reads as the default record. */
    ghost function Get(id: nat): T
      reads this
    {
      var a := Split(q, id);
      if id <= MaxId(q) && a.bucket in buckets && a.slot in buckets[a.bucket] && a.item < |buckets[a.bucket][a.slot]|
      then buckets[a.bucket][a.slot][a.item]
      else blank
    }

    /**
     * The ids `find` faults on: its array accesses stop at the first
     * unallocated level, so a field past the end faults only when the level
     * above it is allocated.
     */
    ghost predicate FindFaults(id: nat)
      reads this
    {
      var a := Split(q, id);
      || a.bucket >= BucketsCapacity(q)
      || (a.bucket in buckets && a.slot >= QuarterCapacity(q))
      || (a.bucket in buckets && a.slot in buckets[a.bucket] && a.item >= QuarterCapacity(q))
    }

    constructor (q: nat, blank: T, idOf: T -> nat, make: nat -> T, destroy: T -> T)
      requires q >= 1 && idOf(blank) == MaxId(q)
      requires forall id: nat {:trigger make(id)} :: idOf(make(id)) == id
      ensures Valid()
      ensures this.q == q && this.blank == blank && this.idOf == idOf
      ensures this.make == make && this.destroy == destroy
      ensures buckets == map[]
      ensures forall id :: Get(id) == blank
    {
      this.q := q;
      this.blank := blank;
      this.idOf := idOf;
      this.make := make;
      this.destroy := destroy;
      buckets := map[];
    }

    /** A live record sits in the cell its own id addresses. */
    lemma LiveCellCarriesItsId(id: nat)
      requires Valid() && id <= MaxId(q) && Live(Get(id))
      ensures idOf(Get(id)) == id
    {
      JoinSplit(q, id);
    }

    /** Allocates bucket `b`, with no slot yet. No cell's record changes. */
    method AddBucket(b: nat)
      requires Valid() && b < BucketsCapacity(q) && b !in buckets
      modifies this
      ensures Valid() && buckets == old(buckets)[b := map[]]
      ensures forall other :: Get(other) == old(Get(other))
      ensures forall other :: old(Allocated(other)) ==> Allocated(other)
    {
      buckets := buckets[b := map[]];
    }

    /** Allocates slot `s` of bucket `b`, every cell holding the sentinel. No cell's record changes. */
    method AddSlot(b: nat, s: nat)
      requires Valid() && b in buckets && s < QuarterCapacity(q) && s !in buckets[b]
      modifies this
      ensures Valid() && b in buckets && s in buckets[b]
      ensures forall other :: Get(other) == old(Get(other))
      ensures forall other :: old(Allocated(other)) ==> Allocated(other)
    {
      var empty := blank;
      var cells := seq(QuarterCapacity(q), _ => empty);
      var bucket: map<nat, seq<T>> := buckets[b][s := cells];
      buckets := buckets[b := bucket];
      assert forall i | 0 <= i < |cells| :: cells[i] == blank;
    }

    /**
     * `retrieve_slot`: refuses the sentinel id, allocates the bucket and the
     * slot on first touch, and faults when the bucket or slot field lies past
     * the end of its array. Allocation changes no cell's record.
     */
    method RetrieveSlot(id: nat) returns (h: Handle<Address>)
      requires Valid() && id <= MaxId(q)
      modifies this
      ensures Valid()
      ensures forall other :: Get(other) == old(Get(other))
      ensures forall other :: old(Allocated(other)) ==> Allocated(other)
      ensures h.Null? <==> id == MaxId(q)
      ensures h.Fault? <==> (id != MaxId(q) &&
        (Split(q, id).bucket >= BucketsCapacity(q) || Split(q, id).slot >= QuarterCapacity(q)))
      ensures h.Item? ==> h.rec == Split(q, id) && Allocated(id)
      ensures h.Null? ==> buckets == old(buckets)
    {
      if id == MaxId(q) {
        return Null;
      }
      var a := Split(q, id);
      if a.bucket >= BucketsCapacity(q) {
        return Fault;
      }
      if a.bucket !in buckets {
        AddBucket(a.bucket);
      }
      if a.slot >= QuarterCapacity(q) {
        return Fault;
      }
      if a.slot !in buckets[a.bucket] {
        AddSlot(a.bucket, a.slot);
      }
      return Item(a);
    }

    /**
     * `create`: builds `T(id)` in an empty cell. Refuses (null) the sentinel and
     * a cell already holding a live record, which is then left as it was.
     */
    method Create(id: nat) returns (h: Handle<T>)
      requires Valid() && id <= MaxId(q)
      modifies this
      ensures Valid()
      ensures forall other :: other != id ==> Get(other) == old(Get(other))
      ensures forall other :: old(Allocated(other)) ==> Allocated(other)
      ensures h.Null? <==> id == MaxId(q) || (Addressable(q, id) && Live(old(Get(id))))
      ensures h.Fault? <==> id != MaxId(q) && !Addressable(q, id)
      ensures h.Item? ==> h.rec == make(id) && Get(id) == make(id) && Allocated(id)
      ensures !h.Item? ==> Get(id) == old(Get(id))
      ensures h.Null? && id == MaxId(q) ==> buckets == old(buckets)
    {
      var s := RetrieveSlot(id);
      if !s.Item? {
        return if s.Null? then Null else Fault;
      }
      var a := s.rec;
      if a.item >= QuarterCapacity(q) {
        return Fault;
      }
      var cell := buckets[a.bucket][a.slot][a.item];
      if idOf(cell) != MaxId(q) {
        return Null;
      }
      h := Item(make(id));
      Put(id, make(id));
    }

    /**
     * `retrieve`: get-or-create. Returns the live record in `id`'s cell as it
     * is, or builds `T(id)` there; null only for the sentinel.
     */
    method Retrieve(id: nat) returns (h: Handle<T>)
      requires Valid() && id <= MaxId(q)
      modifies this
      ensures Valid()
      ensures forall other :: other != id ==> Get(other) == old(Get(other))
      ensures forall other :: old(Allocated(other)) ==> Allocated(other)
      ensures h.Null? <==> id == MaxId(q)
      ensures h.Fault? <==> id != MaxId(q) && !Addressable(q, id)
      ensures h.Item? ==> Get(id) == (if Live(old(Get(id))) then old(Get(id)) else make(id))
      ensures h.Item? ==> h.rec == Get(id) && idOf(h.rec) == id && Allocated(id)
      ensures !h.Item? ==> Get(id) == old(Get(id))
      ensures h.Null? ==> buckets == old(buckets)
    {
      var s := RetrieveSlot(id);
      if !s.Item? {
        return if s.Null? then Null else Fault;
      }
      var a := s.rec;
      if a.item >= QuarterCapacity(q) {
        return Fault;
      }
      var cell := buckets[a.bucket][a.slot][a.item];
      if idOf(cell) == MaxId(q) {
        cell := make(id);
        Put(id, cell);
      } else {
        LiveCellCarriesItsId(id);
      }
      h := Item(cell);
    }

    /**
     * `find`: a lookup that allocates nothing. Null when the bucket or slot was
     * never allocated or the record is the sentinel; a fault when an access
     * runs past the end of an allocated level.
     */
    method Find(id: nat) returns (h: Handle<T>)
      requires Valid() && id <= MaxId(q)
      ensures h.Fault? <==> FindFaults(id)
      ensures h.Item? <==> !FindFaults(id) && Live(Get(id))
      ensures h.Item? ==> h.rec == Get(id) && idOf(h.rec) == id
    {
      var a := Split(q, id);
      if a.bucket >= BucketsCapacity(q) {
        return Fault;
      }
      if a.bucket !in buckets {
        return Null;
      }
      if a.slot >= QuarterCapacity(q) {
        return Fault;
      }
      if a.slot !in buckets[a.bucket] {
        return Null;
      }
      if a.item >= QuarterCapacity(q) {
        return Fault;
      }
      var cell := buckets[a.bucket][a.slot][a.item];
      if idOf(cell) == MaxId(q) {
        return Null;
      }
      LiveCellCarriesItsId(id);
      return Item(cell);
    }

    /** Two finds of the same id with nothing in between agree. */
    method FindTwice(id: nat) returns (first: Handle<T>, second: Handle<T>)
      requires Valid() && id <= MaxId(q)
      ensures first == second
    {
      first := Find(id);
      second := Find(id);
    }

    /**
     * `remove`: destroys the live record in `id`'s cell in place, after which
     * the cell is empty; an empty cell is left alone. Faults as `find` does.
     */
    method Remove(id: nat) returns (ok: bool)
      requires Valid() && id <= MaxId(q)
      requires Live(Get(id)) ==> idOf(destroy(Get(id))) == MaxId(q)
      modifies this
      ensures Valid()
      ensures forall other :: other != id ==> Get(other) == old(Get(other))
      ensures forall other :: Allocated(other) == old(Allocated(other))
      ensures ok <==> !old(FindFaults(id))
      ensures ok ==> !Live(Get(id))
      ensures ok && old(Live(Get(id))) ==> Get(id) == destroy(old(Get(id)))
      ensures !(ok && old(Live(Get(id)))) ==> Get(id) == old(Get(id))
    {
      var h := Find(id);
      if h.Fault? {
        return false;
      }
      if h.Null? {
        return true;
      }
      Put(id, destroy(h.rec));
      return true;
    }

    /**
     * Writes a record through the pointer `retrieve` or `create` handed out
     * (the handlers update an order's fields in place this way), or resets the
     * cell to an empty record.
     */
    method Put(id: nat, x: T)
      requires Valid() && id <= MaxId(q) && Addressable(q, id) && Allocated(id)
      requires idOf(x) == id || idOf(x) == MaxId(q)
      modifies this
      ensures Valid()
      ensures forall other :: other != id ==> Get(other) == old(Get(other))
      ensures forall other :: Allocated(other) == old(Allocated(other))
      ensures Get(id) == x
    {
      var a := Split(q, id);
      JoinSplit(q, id);
      OnlyIdAtItsAddress(q, id);
      var slot := buckets[a.bucket][a.slot][a.item := x];
      var bucket: map<nat, seq<T>> := buckets[a.bucket][a.slot := slot];
      buckets := buckets[a.bucket := bucket];
    }
  }
}
