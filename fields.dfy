/**
 * The field parsers of the file feeder. Each one reads a C string through a
 * cursor that it advances: here the string is a sequence of characters and the
 * cursor an index into it. Reading at or past the end yields the terminating
 * NUL, `'\0'`.
 */
module Fields {
  import opened Records
  import Arena

  /** The character under the cursor. */
  function At(s: seq<char>, i: nat): char {
    if i < |s| then s[i] else '\0'
  }

  /** `std::isspace` in the C locale. */
  predicate IsSpace(c: char) {
    c == ' ' || c == '\t' || c == '\n' || c == '\r' || c == '\U{000B}' || c == '\U{000C}'
  }

  /** `std::isdigit`. */
  predicate IsDigit(c: char) {
    '0' <= c <= '9'
  }

  function DigitValue(c: char): nat
    requires IsDigit(c)
  {
    c as nat - '0' as nat
  }

  /** Where the cursor stops after skipping whitespace from `i`. */
  function SkipSpaces(s: seq<char>, i: nat): (j: nat)
    ensures i <= j && !IsSpace(At(s, j))
    ensures forall k | i <= k < j :: IsSpace(At(s, k))
    decreases |s| - i
  {
    if i < |s| && IsSpace(s[i]) then SkipSpaces(s, i + 1) else i
  }

  /** Where a run of digits starting at `i` ends. */
  function DigitsEnd(s: seq<char>, i: nat): (j: nat)
    ensures i <= j && !IsDigit(At(s, j))
    ensures forall k | i <= k < j :: IsDigit(At(s, k))
    decreases |s| - i
  {
    if i < |s| && IsDigit(s[i]) then DigitsEnd(s, i + 1) else i
  }

  /**
   * The digits at [i, j) read left to right into a 32-bit unsigned
   * accumulator, `val = val * 10 + digit`, which wraps modulo 2^32.
   */
  function Accumulated(s: seq<char>, i: nat, j: nat): (v: nat)
    requires i <= j
    requires forall k | i <= k < j :: IsDigit(At(s, k))
    ensures v < ID_BOUND
    decreases j - i
  {
    if j == i then 0 else (Accumulated(s, i, j - 1) * 10 + DigitValue(At(s, j - 1))) % ID_BOUND
  }

  /**
   * `trim`: advances the cursor past whitespace.
   */
  method Trim(s: seq<char>, i: nat) returns (j: nat)
    ensures j == SkipSpaces(s, i)
  {
    j := i;
    while IsSpace(At(s, j))
      invariant i <= j
      invariant SkipSpaces(s, j) == SkipSpaces(s, i)
      decreases |s| - j
    {
      j := j + 1;
    }
  }

  /** What `extract_uint` returns and where it leaves the cursor. */
  function UintField(s: seq<char>, i: nat, delim: char): (r: (int, nat))
  {
    var a := SkipSpaces(s, i);
    var b := DigitsEnd(s, a);
    var c := SkipSpaces(s, b);
    if At(s, c) != delim then (-1, c) else (Accumulated(s, a, b), c + 1)
  }

  /**
   * `extract_uint`: skips whitespace, reads a run of digits, skips whitespace;
   * if the delimiter follows, returns the digits' value (0 for an empty run)
   * and steps past the delimiter, otherwise returns -1.
   */
  method ExtractUint(s: seq<char>, i: nat, delim: char) returns (v: int, j: nat)
    ensures (v, j) == UintField(s, i, delim)
    ensures v == -1 || 0 <= v < ID_BOUND
  {
    j := Trim(s, i);
    ghost var start := j;
    var val: nat := 0;
    while IsDigit(At(s, j))
      invariant start <= j
      invariant DigitsEnd(s, j) == DigitsEnd(s, start)
      invariant forall k | start <= k < j :: IsDigit(At(s, k))
      invariant val == Accumulated(s, start, j)
      decreases |s| - j
    {
      val := (val * 10 + DigitValue(At(s, j))) % ID_BOUND;
      j := j + 1;
    }
    j := Trim(s, j);
    if At(s, j) != delim {
      return -1, j;
    }
    return val, j + 1;
  }

  /** The side a character names. */
  function SideOfChar(c: char): Side {
    if c == 'B' then Buy else if c == 'S' then Sell else SideMax
  }

  /** What `extract_side` returns and where it leaves the cursor. */
  function SideField(s: seq<char>, i: nat): (r: (Side, nat))
  {
    var a := SkipSpaces(s, i);
    var c := SkipSpaces(s, a + 1);
    if At(s, c) != ',' then (SideMax, c) else (SideOfChar(At(s, a)), c + 1)
  }

  /**
   * `extract_side`: skips whitespace, takes one character ('B' buy, 'S' sell,
   * anything else MAX), skips whitespace, and requires a ',' after it.
   */
  method ExtractSide(s: seq<char>, i: nat) returns (side: Side, j: nat)
    ensures (side, j) == SideField(s, i)
  {
    j := Trim(s, i);
    side := SideMax;
    var ch := At(s, j);
    j := j + 1;
    if ch == 'B' {
      side := Buy;
    } else if ch == 'S' {
      side := Sell;
    }
    j := Trim(s, j);
    if At(s, j) != ',' {
      return SideMax, j;
    }
    j := j + 1;
  }

  /** What `extract_act` returns and where it leaves the cursor. */
  function ActField(s: seq<char>, i: nat): (r: (char, nat))
  {
    var a := SkipSpaces(s, i);
    var c := SkipSpaces(s, a + 1);
    if At(s, c) != ',' then (ActionCode(ActionMax), c) else (At(s, a), c + 1)
  }

  /**
   * `extract_act`: skips whitespace and takes one character as the action
   * code, which must be followed (after whitespace) by a ','; otherwise MAX.
   * This is the loop form of `ActField`; the line dispatch in the feeder is
   * stated with `ActField`, which this method is proved to compute.
   */
  method ExtractAct(s: seq<char>, i: nat) returns (act: char, j: nat)
    ensures (act, j) == ActField(s, i)
  {
    j := Trim(s, i);
    act := At(s, j);
    j := j + 1;
    j := Trim(s, j);
    if At(s, j) != ',' {
      return ActionCode(ActionMax), j;
    }
    j := j + 1;
  }

  // ---------------------------------------------------------------------------
  // The wrapping accumulator against the exact decimal value, and the parsers
  // against the writer of the feed: a field printed in decimal reads back.

  /** The exact value of the decimal digits at [i, j). */
  function DecimalValue(s: seq<char>, i: nat, j: nat): (v: nat)
    requires i <= j
    requires forall k | i <= k < j :: IsDigit(At(s, k))
    decreases j - i
  {
    if j == i then 0 else DecimalValue(s, i, j - 1) * 10 + DigitValue(At(s, j - 1))
  }

  lemma ModOfMultipleShift(y: int, k: int, m: int)
    requires m > 0
    ensures (y + m * k) % m == y % m
  {
    var q := y / m;
    var r := y % m;
    assert y + m * k == m * (q + k) + r;
    Arena.DivideExactly(y + m * k, m, q + k, r);
  }

  /** Reducing before or after a step `v * 10 + d` gives the same residue. */
  lemma StepMod(a: int, d: int, m: int)
    requires m > 0
    ensures ((a % m) * 10 + d) % m == (a * 10 + d) % m
  {
    var q := a / m;
    assert a == m * q + a % m;
    assert a * 10 + d == ((a % m) * 10 + d) + m * (q * 10);
    ModOfMultipleShift((a % m) * 10 + d, q * 10, m);
  }

  /** The 32-bit accumulator holds the exact value modulo 2^32. */
  lemma {:induction false} AccumulatedIsValueMod(s: seq<char>, i: nat, j: nat)
    requires i <= j
    requires forall k | i <= k < j :: IsDigit(At(s, k))
    ensures Accumulated(s, i, j) == DecimalValue(s, i, j) % ID_BOUND
    decreases j - i
  {
    if j > i {
      AccumulatedIsValueMod(s, i, j - 1);
      StepMod(DecimalValue(s, i, j - 1), DigitValue(At(s, j - 1)), ID_BOUND);
    }
  }

  /** The character printing a digit value. */
  function DigitChar(d: nat): (c: char)
    requires d < 10
    ensures IsDigit(c) && DigitValue(c) == d
  {
    (d + '0' as nat) as char
  }

  /** `n` printed in decimal, with no leading zeros. */
  function Decimal(n: nat): (ds: seq<char>)
    ensures |ds| >= 1
    ensures forall k | 0 <= k < |ds| :: IsDigit(ds[k])
  {
    if n < 10 then [DigitChar(n)] else Decimal(n / 10) + [DigitChar(n % 10)]
  }

  /** The value of a digit prefix does not depend on what follows it. */
  lemma {:induction false} ValueOfPrefix(s: seq<char>, t: seq<char>, j: nat)
    requires j <= |s|
    requires forall k | 0 <= k < j :: IsDigit(At(s, k))
    ensures forall k | 0 <= k < j :: IsDigit(At(s + t, k))
    ensures DecimalValue(s + t, 0, j) == DecimalValue(s, 0, j)
  {
    assert forall k | 0 <= k < j :: At(s + t, k) == At(s, k);
    if j > 0 {
      ValueOfPrefix(s, t, j - 1);
    }
  }

  /** Reading back a printed number gives the number. */
  lemma {:induction false} ValueOfDecimal(n: nat)
    ensures forall k | 0 <= k < |Decimal(n)| :: IsDigit(At(Decimal(n), k))
    ensures DecimalValue(Decimal(n), 0, |Decimal(n)|) == n
  {
    var ds := Decimal(n);
    assert forall k | 0 <= k < |ds| :: At(ds, k) == ds[k];
    if n >= 10 {
      var hd := Decimal(n / 10);
      ValueOfDecimal(n / 10);
      ValueOfPrefix(hd, [DigitChar(n % 10)], |hd|);
      assert ds == hd + [DigitChar(n % 10)];
    }
  }

  /** A run of digits stops where a non-digit follows it. */
  lemma {:induction false} DigitsEndOfDigits(s: seq<char>, i: nat, j: nat)
    requires i <= j
    requires forall k | i <= k < j :: IsDigit(At(s, k))
    requires !IsDigit(At(s, j))
    ensures DigitsEnd(s, i) == j
    decreases j - i
  {
    if i < j {
      DigitsEndOfDigits(s, i + 1, j);
    }
  }

  /**
   * A number printed in decimal and followed by the delimiter reads back as
   * that number modulo 2^32, and the cursor ends just past the delimiter.
   */
  lemma UintFieldOfDecimal(n: nat, delim: char, rest: seq<char>)
    requires !IsSpace(delim) && !IsDigit(delim)
    ensures UintField(Decimal(n) + [delim] + rest, 0, delim) == (n % ID_BOUND, |Decimal(n)| + 1)
    ensures n < ID_BOUND ==> UintField(Decimal(n) + [delim] + rest, 0, delim).0 == n
  {
    var ds := Decimal(n);
    var s := ds + ([delim] + rest);
    assert Decimal(n) + [delim] + rest == s;
    ValueOfDecimal(n);
    ValueOfPrefix(ds, [delim] + rest, |ds|);
    assert At(s, |ds|) == delim;
    assert At(s, 0) == ds[0];
    assert SkipSpaces(s, 0) == 0;
    DigitsEndOfDigits(s, 0, |ds|);
    assert SkipSpaces(s, |ds|) == |ds|;
    AccumulatedIsValueMod(s, 0, |ds|);
  }

  /** A field with no digits before the delimiter reads as zero. */
  lemma UintFieldOfEmptyRun(delim: char, rest: seq<char>)
    requires !IsSpace(delim) && !IsDigit(delim)
    ensures UintField([delim] + rest, 0, delim) == (0, 1)
  {
  }

  /** A field whose digits are not followed by the delimiter reads as -1. */
  lemma UintFieldWithoutDelimiter(n: nat, c: char, delim: char, rest: seq<char>)
    requires !IsSpace(c) && !IsDigit(c) && c != delim
    ensures UintField(Decimal(n) + [c] + rest, 0, delim).0 == -1
  {
    var ds := Decimal(n);
    var s := ds + ([c] + rest);
    assert Decimal(n) + [c] + rest == s;
    assert forall k | 0 <= k < |ds| :: At(s, k) == ds[k];
    assert At(s, |ds|) == c;
    assert SkipSpaces(s, 0) == 0;
    DigitsEndOfDigits(s, 0, |ds|);
    assert SkipSpaces(s, |ds|) == |ds|;
  }

  /** The character the feed writes for a side. */
  function SideChar(side: Side): (c: char)
    requires side != SideMax
    ensures SideOfChar(c) == side
  {
    match side
    case Buy => 'B'
    case Sell => 'S'
  }

  /** A side written as 'B' or 'S' and followed by ',' reads back. */
  lemma SideFieldOfSideChar(side: Side, rest: seq<char>)
    requires side != SideMax
    ensures SideField([SideChar(side), ','] + rest, 0) == (side, 2)
  {
    var s := [SideChar(side), ','] + rest;
    assert At(s, 0) == SideChar(side) && At(s, 1) == ',';
  }

  /** Any other character, or a missing ',', reads as MAX. */
  lemma SideFieldOtherwise(s: seq<char>, i: nat)
    ensures var a := SkipSpaces(s, i);
      At(s, a) != 'B' && At(s, a) != 'S' ==> SideField(s, i).0 == SideMax
    ensures At(s, SkipSpaces(s, SkipSpaces(s, i) + 1)) != ',' ==> SideField(s, i).0 == SideMax
  {
  }

  /** An action written as its code and followed by ',' reads back as that action. */
  lemma ActFieldOfActionCode(act: Action, rest: seq<char>)
    ensures ActField([ActionCode(act), ','] + rest, 0) == (ActionCode(act), 2)
    ensures ActionOf(ActField([ActionCode(act), ','] + rest, 0).0) == act
  {
    var s := [ActionCode(act), ','] + rest;
    assert At(s, 0) == ActionCode(act) && At(s, 1) == ',';
  }
}
